/** One level of a set-associative cache with FIFO, LRU or LFU replacement
    (cache.cpp, include/cache.h). */
module CacheSim {
  import opened Scan

  datatype Policy = FIFO | LRU | LFU

  /** A cache line: the way's metadata, the data itself is not simulated. */
  datatype Line = Line(valid: bool, tag: nat, arrivalTime: nat, lastUsed: nat, frequency: nat)

  /** Every way starts out as `{false, 0, 0, 0, 0}`. */
  const EmptyLine := Line(false, 0, 0, 0, 0)

  /** The timestamp or counter a policy minimises when the set is full. */
  function Key(l: Line, p: Policy): nat
  {
    match p
    case FIFO => l.arrivalTime
    case LRU => l.lastUsed
    case LFU => l.frequency
  }

  function Keys(row: seq<Line>, p: Policy): (ks: seq<nat>)
    ensures |ks| == |row|
    ensures forall w :: 0 <= w < |row| ==> ks[w] == Key(row[w], p)
  {
    seq(|row|, w requires 0 <= w < |row| => Key(row[w], p))
  }

  /** The way the three victim finders pick: the lowest invalid way when
      there is one, otherwise the lowest way holding the minimum key. */
  ghost predicate IsVictim(row: seq<Line>, v: nat, p: Policy)
  {
    && v < |row|
    && if exists w :: 0 <= w < |row| && !row[w].valid then
         !row[v].valid && forall w :: 0 <= w < v ==> row[w].valid
       else
         IsFirstMin(Keys(row, p), v)
  }

  /** Some valid way of the set carries `tag`. */
  ghost predicate Holds(row: seq<Line>, tag: nat)
  {
    exists w :: 0 <= w < |row| && row[w].valid && row[w].tag == tag
  }

  /** Valid ways of one set never share a tag. */
  ghost predicate DistinctTags(row: seq<Line>)
  {
    forall i, j :: 0 <= i < |row| && 0 <= j < |row| && i != j && row[i].valid && row[j].valid ==>
      row[i].tag != row[j].tag
  }

  /** No timestamp in the set lies in the future of `now`. */
  ghost predicate Stamped(row: seq<Line>, now: nat)
  {
    forall w :: 0 <= w < |row| ==> row[w].arrivalTime <= now && row[w].lastUsed <= now
  }

  /** The line for `tag` was used at `now` and every other way strictly earlier. */
  ghost predicate MostRecent(row: seq<Line>, tag: nat, now: nat)
  {
    exists w :: 0 <= w < |row| && row[w].valid && row[w].tag == tag && row[w].lastUsed == now &&
      forall u :: 0 <= u < |row| && u != w ==> row[u].lastUsed < now
  }

  /** The hit update: the matching way gets `lastUsed := now` and one more use. */
  ghost predicate Refreshed(before: seq<Line>, after: seq<Line>, tag: nat, now: nat)
  {
    exists w :: 0 <= w < |before| && before[w].valid && before[w].tag == tag &&
      after == before[w := before[w].(lastUsed := now, frequency := before[w].frequency + 1)]
  }

  /** The miss update: the victim way is overwritten with a fresh line for `tag`. */
  ghost predicate Filled(before: seq<Line>, after: seq<Line>, tag: nat, now: nat, p: Policy)
  {
    exists v: nat :: IsVictim(before, v, p) && after == before[v := Line(true, tag, now, now, 1)]
  }

  /** A hit keeps the set's tags distinct and makes the touched line the most recent. */
  lemma RefreshKeepsInvariants(row: seq<Line>, w: nat, now: nat)
    requires w < |row| && row[w].valid
    requires DistinctTags(row) && Stamped(row, now)
    ensures var after := row[w := row[w].(lastUsed := now + 1, frequency := row[w].frequency + 1)];
      DistinctTags(after) && Stamped(after, now + 1) && Holds(after, row[w].tag) &&
      MostRecent(after, row[w].tag, now + 1) && Refreshed(row, after, row[w].tag, now + 1)
  {
    var after := row[w := row[w].(lastUsed := now + 1, frequency := row[w].frequency + 1)];
    assert after[w].valid && after[w].tag == row[w].tag;
  }

  /** A miss on `tag` leaves the tags distinct and the new line the most recent. */
  lemma FillKeepsInvariants(row: seq<Line>, v: nat, tag: nat, now: nat, p: Policy)
    requires IsVictim(row, v, p) && !Holds(row, tag)
    requires DistinctTags(row) && Stamped(row, now)
    ensures var after := row[v := Line(true, tag, now + 1, now + 1, 1)];
      DistinctTags(after) && Stamped(after, now + 1) && Holds(after, tag) &&
      MostRecent(after, tag, now + 1) && Filled(row, after, tag, now + 1, p)
  {
    var after := row[v := Line(true, tag, now + 1, now + 1, 1)];
    assert after[v].valid && after[v].tag == tag;
  }

  /** `(address / blockSize) % numSets`. */
  function SetIndex(address: nat, blockSize: nat, numSets: nat): (s: nat)
    requires blockSize > 0 && numSets > 0
    ensures s < numSets
  {
    (address / blockSize) % numSets
  }

  /** `(address / blockSize) / numSets`: the block number with the set
      index taken off. */
  function Tag(address: nat, blockSize: nat, numSets: nat): (t: nat)
    requires blockSize > 0 && numSets > 0
    ensures t * numSets <= address / blockSize < (t + 1) * numSets
  {
    (address / blockSize) / numSets
  }

  /** Set index and tag together are exactly the block number. */
  lemma AddressDecomposition(address: nat, blockSize: nat, numSets: nat)
    requires blockSize > 0 && numSets > 0
    ensures Tag(address, blockSize, numSets) * numSets + SetIndex(address, blockSize, numSets)
            == address / blockSize
  {
  }

  /** Two addresses meet the same (set, tag) pair exactly when they lie in the same block. */
  lemma SameLineIffSameBlock(a: nat, b: nat, blockSize: nat, numSets: nat)
    requires blockSize > 0 && numSets > 0
    ensures (SetIndex(a, blockSize, numSets) == SetIndex(b, blockSize, numSets) &&
             Tag(a, blockSize, numSets) == Tag(b, blockSize, numSets))
            <==> a / blockSize == b / blockSize
  {
    AddressDecomposition(a, blockSize, numSets);
    AddressDecomposition(b, blockSize, numSets);
  }

  /** The victim finders agree on at most one way. */
  lemma {:induction false} VictimUnique(row: seq<Line>, p: Policy, v: nat, u: nat)
    requires IsVictim(row, v, p) && IsVictim(row, u, p)
    ensures v == u
  {
    if exists w :: 0 <= w < |row| && !row[w].valid {
    } else {
      FirstMinUnique(Keys(row, p), v, u);
    }
  }

  /** With at least two ways, LRU never evicts the line used most recently:
      a miss right after touching `tag` keeps `tag` resident. A direct-mapped
      set (one way) has no such protection: its only way is always the victim. */
  lemma {:induction false} LruSparesMostRecent(row: seq<Line>, tag: nat, now: nat, v: nat)
    requires |row| >= 2 && DistinctTags(row) && MostRecent(row, tag, now)
    requires IsVictim(row, v, LRU)
    ensures !(row[v].valid && row[v].tag == tag)
  {
    var w :| 0 <= w < |row| && row[w].valid && row[w].tag == tag && row[w].lastUsed == now &&
      forall u :: 0 <= u < |row| && u != w ==> row[u].lastUsed < now;
    if exists x :: 0 <= x < |row| && !row[x].valid {
    } else {
      var other := if w == 0 then 1 else 0;
      assert Keys(row, LRU)[other] < Keys(row, LRU)[w];
      assert v != w;
    }
  }

  class Cache {
    const cacheSize: nat
    const blockSize: nat
    const associativity: nat
    const numSets: nat
    const policy: Policy
    const hitLatency: nat
    var globalTime: nat
    var hits: nat
    var misses: nat
    var totalCycles: nat
    /** `numSets` rows of `associativity` ways. */
    const sets: array2<Line>

    ghost predicate Valid()
      reads this, sets
    {
      && blockSize > 0 && associativity > 0 && numSets > 0
      && sets.Length0 == numSets && sets.Length1 == associativity
      && hits + misses == globalTime
      && totalCycles == globalTime * hitLatency
      && forall s :: 0 <= s < numSets ==> DistinctTags(Row(s)) && Stamped(Row(s), globalTime)
    }

    /** The ways of set `s`, in order. */
    ghost function Row(s: nat): (row: seq<Line>)
      reads sets
      requires s < sets.Length0
      ensures |row| == sets.Length1
      ensures forall w :: 0 <= w < sets.Length1 ==> row[w] == sets[s, w]
    {
      seq(sets.Length1, w requires 0 <= w < sets.Length1 reads sets => sets[s, w])
    }

    /** All sets, in order. */
    ghost function Rows(): (rows: seq<seq<Line>>)
      reads sets
      ensures |rows| == sets.Length0 && forall s :: 0 <= s < sets.Length0 ==> rows[s] == Row(s)
    {
      seq(sets.Length0, s requires 0 <= s < sets.Length0 reads sets => Row(s))
    }

    function SetIndexOf(address: nat): nat
      requires blockSize > 0 && numSets > 0
    {
      SetIndex(address, blockSize, numSets)
    }

    function TagOf(address: nat): nat
      requires blockSize > 0 && numSets > 0
    {
      Tag(address, blockSize, numSets)
    }

    /** The block of `address` is resident: the next access to it hits. */
    ghost predicate Contains(address: nat)
      reads this, sets
      requires Valid()
    {
      Holds(Row(SetIndexOf(address)), TagOf(address))
    }

    /** The constructor derives `numSets` and fills every way with an invalid line. */
    constructor (cacheSize: nat, blockSize: nat, associativity: nat, policy: Policy, hitLatency: nat)
      requires blockSize > 0 && associativity > 0
      requires cacheSize / blockSize / associativity > 0
      ensures Valid() && fresh(sets)
      ensures this.cacheSize == cacheSize && this.blockSize == blockSize
      ensures this.associativity == associativity && this.policy == policy && this.hitLatency == hitLatency
      ensures numSets == cacheSize / blockSize / associativity
      ensures globalTime == 0 && hits == 0 && misses == 0 && totalCycles == 0
      ensures forall s, w :: 0 <= s < numSets && 0 <= w < associativity ==> sets[s, w] == EmptyLine
    {
      var n := cacheSize / blockSize / associativity;
      this.cacheSize := cacheSize;
      this.blockSize := blockSize;
      this.associativity := associativity;
      this.policy := policy;
      this.hitLatency := hitLatency;
      numSets := n;
      globalTime, hits, misses, totalCycles := 0, 0, 0, 0;
      sets := new Line[n, associativity]((s, w) => EmptyLine);
    }

    /** find_fifo_victim, find_lru_victim and find_lfu_victim: they differ
        only in the key they compare, which `policy` selects. */
    method FindVictim(setIndex: nat) returns (victim: nat)
      requires sets.Length0 == numSets && sets.Length1 == associativity && associativity > 0
      requires setIndex < numSets
      ensures IsVictim(Row(setIndex), victim, policy)
    {
      victim := 0;
      var least := 0;
      var i := 0;
      while i < associativity
        invariant 0 <= i <= associativity
        invariant forall j :: 0 <= j < i ==> sets[setIndex, j].valid
        invariant victim <= i
        invariant i > 0 ==> victim < i && least == Key(sets[setIndex, victim], policy)
        invariant forall j :: 0 <= j < i ==> least <= Key(sets[setIndex, j], policy)
        invariant forall j :: 0 <= j < victim ==> least < Key(sets[setIndex, j], policy)
      {
        var line := sets[setIndex, i];
        if !line.valid {
          return i;
        }
        if i == 0 || Key(line, policy) < least {
          least := Key(line, policy);
          victim := i;
        }
        i := i + 1;
      }
    }

    /** Overwrites one way; every other way of every set keeps its line. */
    method SetWay(setIndex: nat, way: nat, line: Line)
      requires sets.Length0 == numSets && sets.Length1 == associativity
      requires setIndex < numSets && way < associativity
      modifies sets
      ensures Row(setIndex) == old(Row(setIndex))[way := line]
      ensures forall s :: 0 <= s < numSets && s != setIndex ==> Row(s) == old(Row(s))
    {
      sets[setIndex, way] := line;
      assert Row(setIndex) == old(Row(setIndex))[way := line];
      forall s | 0 <= s < numSets && s != setIndex ensures Row(s) == old(Row(s)) {
        assert forall u :: 0 <= u < associativity ==> Row(s)[u] == old(Row(s))[u];
      }
    }

    /** The lookup loop of `access`: the first valid way of the set whose
        tag matches, if any. */
    method FindWay(setIndex: nat, tag: nat) returns (found: bool, way: nat)
      requires sets.Length0 == numSets && sets.Length1 == associativity
      requires setIndex < numSets
      ensures found <==> Holds(Row(setIndex), tag)
      ensures found ==> way < associativity && sets[setIndex, way].valid && sets[setIndex, way].tag == tag
    {
      way := 0;
      while way < associativity
        invariant 0 <= way <= associativity
        invariant forall j :: 0 <= j < way ==> !(sets[setIndex, j].valid && sets[setIndex, j].tag == tag)
      {
        var line := sets[setIndex, way];
        if line.valid && line.tag == tag {
          assert Row(setIndex)[way] == line;
          return true, way;
        }
        way := way + 1;
      }
      found := false;
    }

    /** One access: a hit refreshes the matching line, a miss overwrites the victim. */
    method Access(address: nat) returns (hit: bool)
      requires Valid()
      modifies this, sets
      ensures Valid()
      ensures globalTime == old(globalTime) + 1
      ensures totalCycles == old(totalCycles) + hitLatency
      ensures hit == old(Contains(address))
      ensures hits == old(hits) + (if hit then 1 else 0)
      ensures misses == old(misses) + (if hit then 0 else 1)
      ensures forall s :: 0 <= s < numSets && s != SetIndexOf(address) ==> Row(s) == old(Row(s))
      ensures hit ==> Refreshed(old(Row(SetIndexOf(address))), Row(SetIndexOf(address)), TagOf(address), globalTime)
      ensures !hit ==> Filled(old(Row(SetIndexOf(address))), Row(SetIndexOf(address)), TagOf(address), globalTime, policy)
      ensures Contains(address)
      ensures MostRecent(Row(SetIndexOf(address)), TagOf(address), globalTime)
    {
      var si := SetIndexOf(address);
      var tag := TagOf(address);
      var found, w := FindWay(si, tag);
      if found {
        Refresh(si, tag, w);
      } else {
        Fill(si, tag);
      }
      hit := found;
    }

    /** The hit path of `access`: one more tick and one more hit, and the
        matching way gets the new time and one more use. */
    method Refresh(si: nat, tag: nat, w: nat)
      requires Valid() && si < numSets && w < associativity
      requires sets[si, w].valid && sets[si, w].tag == tag
      modifies this, sets
      ensures Valid()
      ensures globalTime == old(globalTime) + 1 && totalCycles == old(totalCycles) + hitLatency
      ensures hits == old(hits) + 1 && misses == old(misses)
      ensures forall s :: 0 <= s < numSets && s != si ==> Row(s) == old(Row(s))
      ensures Refreshed(old(Row(si)), Row(si), tag, globalTime)
      ensures Holds(Row(si), tag) && MostRecent(Row(si), tag, globalTime)
    {
      ghost var before := Row(si);
      globalTime := globalTime + 1;
      totalCycles := totalCycles + hitLatency;
      var line := sets[si, w];
      assert before[w] == line;
      hits := hits + 1;
      SetWay(si, w, line.(lastUsed := globalTime, frequency := line.frequency + 1));
      RefreshKeepsInvariants(before, w, old(globalTime));
    }

    /** The miss path of `access`: one more tick and one more miss, and the
        policy's victim way is overwritten with a fresh line for `tag`. */
    method Fill(si: nat, tag: nat)
      requires Valid() && si < numSets && !Holds(Row(si), tag)
      modifies this, sets
      ensures Valid()
      ensures globalTime == old(globalTime) + 1 && totalCycles == old(totalCycles) + hitLatency
      ensures hits == old(hits) && misses == old(misses) + 1
      ensures forall s :: 0 <= s < numSets && s != si ==> Row(s) == old(Row(s))
      ensures Filled(old(Row(si)), Row(si), tag, globalTime, policy)
      ensures Holds(Row(si), tag) && MostRecent(Row(si), tag, globalTime)
    {
      ghost var before := Row(si);
      globalTime := globalTime + 1;
      totalCycles := totalCycles + hitLatency;
      misses := misses + 1;
      var victim := FindVictim(si);
      SetWay(si, victim, Line(true, tag, globalTime, globalTime, 1));
      FillKeepsInvariants(before, victim, tag, old(globalTime), policy);
    }
  }
}
