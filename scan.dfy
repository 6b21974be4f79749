/** Victim selection shared by the cache and the pager: a left-to-right scan
    that keeps the first strictly smaller key picks the lowest index holding
    the minimum. */
module Scan {

  /** `v` is the lowest index of `keys` that holds the minimum key. */
  ghost predicate IsFirstMin(keys: seq<nat>, v: nat)
  {
    && v < |keys|
    && (forall j :: 0 <= j < |keys| ==> keys[v] <= keys[j])
    && (forall j :: 0 <= j < v ==> keys[v] < keys[j])
  }

  /** At most one index is the first minimum, so the scan's answer is determined by the keys alone. */
  lemma FirstMinUnique(keys: seq<nat>, v: nat, u: nat)
    requires IsFirstMin(keys, v) && IsFirstMin(keys, u)
    ensures v == u
  {
    assert keys[v] <= keys[u] && keys[u] <= keys[v];
  }
}
