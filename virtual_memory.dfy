/** Demand-paged virtual memory with per-process page tables, a frame table
    and FIFO, LRU or CLOCK replacement (virtual_memory.cpp,
    virtual_memory.h). */
module VirtualMem {
  import opened Scan
  import opened Arith

  datatype PageReplacement = FIFO | LRU | CLOCK

  /** A page table entry; `frame` is -1 until the page is first loaded. */
  datatype Pte = Pte(valid: bool, frame: int, arrival: nat, lastUsed: nat, refBit: bool)

  /** Who occupies a physical frame; `pid == -1` marks the frame free. */
  datatype FrameInfo = FrameInfo(pid: int, vpn: int)

  /** Page contents, copied whole between disk and physical memory. */
  type Page = seq<bv8>

  type Tables = map<int, seq<Pte>>

  const NoProcess: int := -1
  const InvalidPte := Pte(false, -1, 0, 0, false)
  const FreeFrame := FrameInfo(-1, -1)

  function ZeroPage(size: nat): Page
  {
    seq(size, _ => 0)
  }

  predicate InTable(t: Tables, pid: int, vpn: int)
  {
    pid in t && 0 <= vpn < |t[pid]|
  }

  /** Every occupied frame names a valid PTE that points back at it. */
  ghost predicate FramesResident(t: Tables, frames: seq<FrameInfo>)
  {
    forall f :: 0 <= f < |frames| && frames[f].pid != NoProcess ==>
      && InTable(t, frames[f].pid, frames[f].vpn)
      && t[frames[f].pid][frames[f].vpn].valid
      && t[frames[f].pid][frames[f].vpn].frame == f
  }

  /** Every valid PTE names a frame that records it as its occupant. */
  ghost predicate PtesMapped(t: Tables, frames: seq<FrameInfo>)
  {
    forall pid, vpn :: InTable(t, pid, vpn) && t[pid][vpn].valid ==>
      0 <= t[pid][vpn].frame < |frames| && frames[t[pid][vpn].frame] == FrameInfo(pid, vpn)
  }

  /** Occupied frames and valid PTEs are in one-to-one correspondence. */
  ghost predicate Bijection(t: Tables, frames: seq<FrameInfo>)
  {
    FramesResident(t, frames) && PtesMapped(t, frames)
  }

  predicate AllOccupied(frames: seq<FrameInfo>)
  {
    forall f :: 0 <= f < |frames| ==> frames[f].pid != NoProcess
  }

  /** The frame the CLOCK hand points at after moving `k` frames on from
      `h0`, wrapping once past the last frame. */
  function Hand(h0: nat, k: nat, n: nat): (f: nat)
    requires h0 < n && k <= n
    ensures f < n
  {
    if h0 + k < n then h0 + k else h0 + k - n
  }

  /** The PTE of the page resident in frame `f` (an invalid one for a free frame). */
  function ResidentPte(t: Tables, frames: seq<FrameInfo>, f: nat): Pte
    requires f < |frames|
  {
    if InTable(t, frames[f].pid, frames[f].vpn) then t[frames[f].pid][frames[f].vpn] else InvalidPte
  }

  /** The CLOCK reference bit of frame `f`. */
  function RefAt(t: Tables, frames: seq<FrameInfo>, f: nat): bool
    requires f < |frames|
  {
    ResidentPte(t, frames, f).refBit
  }

  /** Per frame, the timestamp FIFO (`arrival`) or LRU (`lastUsed`) minimises. */
  function ResidentKeys(t: Tables, frames: seq<FrameInfo>, lru: bool): (ks: seq<nat>)
    ensures |ks| == |frames|
    ensures forall f :: 0 <= f < |frames| ==>
      ks[f] == if lru then ResidentPte(t, frames, f).lastUsed else ResidentPte(t, frames, f).arrival
  {
    seq(|frames|, f requires 0 <= f < |frames| =>
      if lru then ResidentPte(t, frames, f).lastUsed else ResidentPte(t, frames, f).arrival)
  }

  /** Same processes, same table lengths: only entries change. */
  ghost predicate SameShape(t0: Tables, t1: Tables)
  {
    && t0.Keys == t1.Keys
    && forall pid :: pid in t0 ==> |t1[pid]| == |t0[pid]|
  }

  /** `t1` is `t0` with the reference bits of some valid entries cleared and
      nothing else changed. */
  ghost predicate RefBitsCleared(t0: Tables, t1: Tables)
  {
    && SameShape(t0, t1)
    && forall pid, vpn :: InTable(t0, pid, vpn) ==>
         && t1[pid][vpn] == t0[pid][vpn].(refBit := t1[pid][vpn].refBit)
         && (t1[pid][vpn].refBit ==> t0[pid][vpn].refBit)
         && (!t0[pid][vpn].valid ==> t1[pid][vpn] == t0[pid][vpn])
  }

  function Update(t: Tables, pid: int, vpn: int, e: Pte): Tables
    requires InTable(t, pid, vpn)
  {
    t[pid := t[pid][vpn := e]]
  }

  /** A page hit: `lastUsed := now`, `ref_bit := true`. */
  function Touch(t: Tables, pid: int, vpn: int, now: nat): Tables
    requires InTable(t, pid, vpn)
  {
    Update(t, pid, vpn, t[pid][vpn].(lastUsed := now, refBit := true))
  }

  /** Eviction marks the victim's PTE invalid; its other fields stay. */
  function Invalidate(t: Tables, pid: int, vpn: int): Tables
    requires InTable(t, pid, vpn)
  {
    Update(t, pid, vpn, t[pid][vpn].(valid := false))
  }

  /** A page load: `{true, frame, now, now, true}`. */
  function Install(t: Tables, pid: int, vpn: int, frame: nat, now: nat): Tables
    requires InTable(t, pid, vpn)
  {
    Update(t, pid, vpn, Pte(true, frame, now, now, true))
  }

  function ClearRef(t: Tables, pid: int, vpn: int): Tables
    requires InTable(t, pid, vpn)
  {
    Update(t, pid, vpn, t[pid][vpn].(refBit := false))
  }

  /** The reference bits of all frames, in frame order. */
  ghost function Refs(t: Tables, frames: seq<FrameInfo>): (r: seq<bool>)
    ensures |r| == |frames|
    ensures forall f :: 0 <= f < |frames| ==> r[f] == RefAt(t, frames, f)
  {
    seq(|frames|, f requires 0 <= f < |frames| => RefAt(t, frames, f))
  }

  /** The bits left after a hand starting at `h0` has passed over `k` frames,
      clearing each one's bit. */
  ghost function Swept(r: seq<bool>, h0: nat, k: nat): (r': seq<bool>)
    requires h0 < |r| && k <= |r|
    ensures |r'| == |r|
    decreases k
  {
    if k == 0 then r else Swept(r, h0, k - 1)[Hand(h0, k - 1, |r|) := false]
  }

  /** A sweep clears the frames it passes, sets no bit, and leaves the
      frames it has not reached alone. */
  lemma {:induction false} SweptFrames(r: seq<bool>, h0: nat, k: nat)
    requires h0 < |r| && k <= |r|
    ensures forall j :: 0 <= j < k ==> !Swept(r, h0, k)[Hand(h0, j, |r|)]
    ensures forall f :: 0 <= f < |r| && Swept(r, h0, k)[f] ==> r[f]
    ensures forall f :: 0 <= f < |r| && (forall j :: 0 <= j < k ==> Hand(h0, j, |r|) != f) ==>
      Swept(r, h0, k)[f] == r[f]
    decreases k
  {
    if k > 0 {
      SweptFrames(r, h0, k - 1);
    }
  }

  /** A full lap of the hand clears every reference bit. */
  lemma {:induction false} FullSweepClearsAll(r: seq<bool>, h0: nat)
    requires h0 < |r|
    ensures forall f :: 0 <= f < |r| ==> !Swept(r, h0, |r|)[f]
  {
    SweptFrames(r, h0, |r|);
    forall f | 0 <= f < |r|
      ensures !Swept(r, h0, |r|)[f]
    {
      var j := if f >= h0 then f - h0 else f + |r| - h0;
      assert Hand(h0, j, |r|) == f;
    }
  }

  /** When the hand, `steps` frames into a sweep, meets a set bit: the sweep
      has not yet done a full lap, the bit was set before the sweep began, and
      clearing it is the next sweep step. */
  lemma SweepPasses(r0: seq<bool>, h0: nat, steps: nat, cur: seq<bool>)
    requires h0 < |r0| && steps <= |r0| && cur == Swept(r0, h0, steps)
    requires cur[Hand(h0, steps, |r0|)]
    ensures steps < |r0| && r0[Hand(h0, steps, |r0|)]
    ensures cur[Hand(h0, steps, |r0|) := false] == Swept(r0, h0, steps + 1)
  {
    if steps == |r0| {
      FullSweepClearsAll(r0, h0);
    }
    SweptFrames(r0, h0, steps);
  }

  /** One more step of the hand is one more frame from where it started. */
  lemma HandNext(h0: nat, k: nat, n: nat)
    requires h0 < n && k < n
    ensures Hand(Hand(h0, k, n), 1, n) == Hand(h0, k + 1, n)
  {
  }

  lemma RefBitsClearedTrans(t0: Tables, t1: Tables, t2: Tables)
    requires RefBitsCleared(t0, t1) && RefBitsCleared(t1, t2)
    ensures RefBitsCleared(t0, t2)
  {
  }

  /** Choosing a victim among full frames, with the hand at `h0`: FIFO and
      LRU pick the first frame of least key and change nothing; CLOCK passes
      `steps` frames whose bits were set, clears exactly those bits, and stops
      at `victim`, whose bit is clear. */
  ghost predicate VictimChosen(t0: Tables, frames: seq<FrameInfo>, policy: PageReplacement,
                               h0: nat, victim: nat, steps: nat, t1: Tables)
    requires h0 < |frames|
  {
    if policy == CLOCK then
      && steps <= |frames| && victim == Hand(h0, steps, |frames|)
      && RefBitsCleared(t0, t1)
      && Refs(t1, frames) == Swept(Refs(t0, frames), h0, steps)
      && (forall k :: 0 <= k < steps ==> Refs(t0, frames)[Hand(h0, k, |frames|)])
      && !RefAt(t1, frames, victim)
    else
      && t1 == t0 && steps == 0 && victim < |frames|
      && IsFirstMin(ResidentKeys(t0, frames, policy == LRU), victim)
  }

  /** Clearing reference bits is determined by the bits that result: two
      tables obtained from `t0` that agree on every frame's bit are equal. */
  lemma SweptUnique(t0: Tables, t1: Tables, t2: Tables, frames: seq<FrameInfo>)
    requires Bijection(t0, frames) && RefBitsCleared(t0, t1) && RefBitsCleared(t0, t2)
    requires Refs(t1, frames) == Refs(t2, frames)
    ensures t1 == t2
  {
    forall pid | pid in t0
      ensures t1[pid] == t2[pid]
    {
      forall vpn | 0 <= vpn < |t0[pid]|
        ensures t1[pid][vpn] == t2[pid][vpn]
      {
        if t0[pid][vpn].valid {
          var f := t0[pid][vpn].frame;
          assert RefAt(t1, frames, f) == Refs(t1, frames)[f] == Refs(t2, frames)[f] == RefAt(t2, frames, f);
        }
      }
    }
  }

  /** A CLOCK sweep that stopped after `s1` frames cannot also have passed
      frame `s1`: the bit that stopped it was clear from the start. */
  lemma StepsAgree(t0: Tables, frames: seq<FrameInfo>, h0: nat, v1: nat, s1: nat, t1: Tables, s2: nat)
    requires h0 < |frames| && VictimChosen(t0, frames, CLOCK, h0, v1, s1, t1)
    requires s2 <= |frames| && forall k :: 0 <= k < s2 ==> Refs(t0, frames)[Hand(h0, k, |frames|)]
    ensures s2 <= s1
  {
    var n, r0 := |frames|, Refs(t0, frames);
    if s1 < s2 {
      SweptFrames(r0, h0, s1);
      assert forall j :: 0 <= j < s1 ==> Hand(h0, j, n) != Hand(h0, s1, n);
      assert false;
    }
  }

  /** The victim, the number of frames passed and the resulting tables are
      all determined by the tables, the frames and the hand. */
  lemma VictimChosenUnique(t0: Tables, frames: seq<FrameInfo>, policy: PageReplacement, h0: nat,
                           v1: nat, s1: nat, t1: Tables, v2: nat, s2: nat, t2: Tables)
    requires h0 < |frames| && Bijection(t0, frames)
    requires VictimChosen(t0, frames, policy, h0, v1, s1, t1)
    requires VictimChosen(t0, frames, policy, h0, v2, s2, t2)
    ensures v1 == v2 && s1 == s2 && t1 == t2
  {
    if policy == CLOCK {
      StepsAgree(t0, frames, h0, v1, s1, t1, s2);
      StepsAgree(t0, frames, h0, v2, s2, t2, s1);
      SweptUnique(t0, t1, t2, frames);
    } else {
      FirstMinUnique(ResidentKeys(t0, frames, policy == LRU), v1, v2);
    }
  }

  /** Touching a resident page keeps the bijection. */
  lemma TouchKeepsBijection(t: Tables, frames: seq<FrameInfo>, pid: int, vpn: int, now: nat)
    requires Bijection(t, frames) && InTable(t, pid, vpn)
    ensures Bijection(Touch(t, pid, vpn, now), frames) && SameShape(t, Touch(t, pid, vpn, now))
  {
    var t' := Touch(t, pid, vpn, now);
    forall f | 0 <= f < |frames| && frames[f].pid != NoProcess
      ensures InTable(t', frames[f].pid, frames[f].vpn) && t'[frames[f].pid][frames[f].vpn].valid
      ensures t'[frames[f].pid][frames[f].vpn].frame == f
    {
      if frames[f] != FrameInfo(pid, vpn) {
        assert t'[frames[f].pid][frames[f].vpn] == t[frames[f].pid][frames[f].vpn];
      }
    }
  }

  /** Clearing the reference bit of a resident page changes that frame's bit
      only, and keeps the bijection. */
  lemma {:induction false} ClearRefAt(t: Tables, frames: seq<FrameInfo>, h: nat)
    requires Bijection(t, frames) && h < |frames| && frames[h].pid != NoProcess
    ensures InTable(t, frames[h].pid, frames[h].vpn)
    ensures var t' := ClearRef(t, frames[h].pid, frames[h].vpn);
      && Bijection(t', frames) && RefBitsCleared(t, t')
      && Refs(t', frames) == Refs(t, frames)[h := false]
  {
    var t' := ClearRef(t, frames[h].pid, frames[h].vpn);
    forall f | 0 <= f < |frames| && f != h
      ensures RefAt(t', frames, f) == RefAt(t, frames, f)
    {
      if frames[f].pid != NoProcess {
        assert frames[f] != frames[h];
      } else {
        assert !InTable(t, frames[f].pid, frames[f].vpn) || frames[f] != frames[h];
      }
    }
    forall pid, vpn | InTable(t', pid, vpn) && t'[pid][vpn].valid
      ensures 0 <= t'[pid][vpn].frame < |frames| && frames[t'[pid][vpn].frame] == FrameInfo(pid, vpn)
    {
      assert t'[pid][vpn].frame == t[pid][vpn].frame && t[pid][vpn].valid;
    }
    assert Refs(t', frames) == Refs(t, frames)[h := false];
  }

  /** Loading a page into a free frame keeps the bijection. */
  lemma {:induction false} InstallFreeKeepsBijection(t: Tables, frames: seq<FrameInfo>, pid: int, vpn: int, frame: nat, now: nat)
    requires Bijection(t, frames) && InTable(t, pid, vpn) && !t[pid][vpn].valid
    requires pid != NoProcess && NoProcess !in t && frame < |frames| && frames[frame].pid == NoProcess
    ensures Bijection(Install(t, pid, vpn, frame, now), frames[frame := FrameInfo(pid, vpn)])
  {
    var t' := Install(t, pid, vpn, frame, now);
    var frames' := frames[frame := FrameInfo(pid, vpn)];
    forall f | 0 <= f < |frames'| && frames'[f].pid != NoProcess
      ensures InTable(t', frames'[f].pid, frames'[f].vpn) && t'[frames'[f].pid][frames'[f].vpn].valid
      ensures t'[frames'[f].pid][frames'[f].vpn].frame == f
    {
      if f != frame {
        assert frames[f] != FrameInfo(pid, vpn);
      }
    }
    forall p, v | InTable(t', p, v) && t'[p][v].valid
      ensures 0 <= t'[p][v].frame < |frames'| && frames'[t'[p][v].frame] == FrameInfo(p, v)
    {
      if (p, v) != (pid, vpn) {
        assert t'[p][v] == t[p][v];
        assert t[p][v].frame != frame;
      }
    }
  }

  /** Evicting the occupant of `frame` and loading another page there keeps the bijection. */
  lemma {:induction false} EvictInstallKeepsBijection(t: Tables, frames: seq<FrameInfo>, pid: int, vpn: int, frame: nat, now: nat)
    requires Bijection(t, frames) && InTable(t, pid, vpn) && !t[pid][vpn].valid
    requires pid != NoProcess && frame < |frames| && frames[frame].pid != NoProcess
    ensures InTable(t, frames[frame].pid, frames[frame].vpn)
    ensures var t' := Invalidate(t, frames[frame].pid, frames[frame].vpn);
      InTable(t', pid, vpn) &&
      Bijection(Install(t', pid, vpn, frame, now), frames[frame := FrameInfo(pid, vpn)])
  {
    var victim := frames[frame];
    var t1 := Invalidate(t, victim.pid, victim.vpn);
    var t' := Install(t1, pid, vpn, frame, now);
    var frames' := frames[frame := FrameInfo(pid, vpn)];
    assert victim != FrameInfo(pid, vpn);
    forall f | 0 <= f < |frames'| && frames'[f].pid != NoProcess
      ensures InTable(t', frames'[f].pid, frames'[f].vpn) && t'[frames'[f].pid][frames'[f].vpn].valid
      ensures t'[frames'[f].pid][frames'[f].vpn].frame == f
    {
      if f != frame {
        assert frames[f] != FrameInfo(pid, vpn);
        assert frames[f] != victim;
      }
    }
    forall p, v | InTable(t', p, v) && t'[p][v].valid
      ensures 0 <= t'[p][v].frame < |frames'| && frames'[t'[p][v].frame] == FrameInfo(p, v)
    {
      if (p, v) != (pid, vpn) {
        assert FrameInfo(p, v) != victim;
        assert t'[p][v] == t[p][v];
      }
    }
  }

  class VirtualMemory {
    const pageSize: nat
    const numFrames: nat
    const policy: PageReplacement
    var time: nat
    var pageTables: Tables
    var frameTable: seq<FrameInfo>
    /** One page per virtual page number, shared by all processes. */
    var disk: seq<Page>
    var physicalMemory: seq<Page>
    var clockHand: nat
    var pageHits: nat
    var pageFaults: nat

    ghost predicate Valid()
      reads this
    {
      && pageSize > 0 && numFrames > 0
      && |frameTable| == numFrames && |physicalMemory| == numFrames
      && clockHand < numFrames
      && pageHits + pageFaults == time
      && (forall pid :: pid in pageTables ==> pid != NoProcess && |pageTables[pid]| <= |disk|)
      && Bijection(pageTables, frameTable)
    }

    constructor (numPages: nat, frames: nat, pageSize: nat, policy: PageReplacement)
      requires frames > 0 && pageSize > 0
      ensures Valid()
      ensures this.pageSize == pageSize && numFrames == frames && this.policy == policy
      ensures time == 0 && pageHits == 0 && pageFaults == 0 && clockHand == 0
      ensures pageTables == map[]
      ensures frameTable == seq(frames, _ => FreeFrame)
      ensures physicalMemory == seq(frames, _ => ZeroPage(pageSize))
      ensures disk == seq(numPages, _ => ZeroPage(pageSize))
    {
      this.pageSize := pageSize;
      numFrames := frames;
      this.policy := policy;
      time, pageHits, pageFaults, clockHand := 0, 0, 0, 0;
      pageTables := map[];
      frameTable := seq(frames, _ => FreeFrame);
      physicalMemory := seq(frames, _ => ZeroPage(pageSize));
      disk := seq(numPages, _ => ZeroPage(pageSize));
    }

    /** Installs `numPages` invalid entries for `pid`, replacing any earlier table. */
    method CreateProcess(pid: int, numPages: nat)
      requires Valid() && pid != NoProcess && numPages <= |disk|
      requires forall f :: 0 <= f < |frameTable| ==> frameTable[f].pid != pid
      modifies this`pageTables
      ensures Valid()
      ensures pageTables == old(pageTables)[pid := seq(numPages, _ => InvalidPte)]
      ensures |pageTables[pid]| == numPages && forall v :: 0 <= v < numPages ==> pageTables[pid][v] == InvalidPte
    {
      pageTables := pageTables[pid := seq(numPages, _ => InvalidPte)];
    }

    /** The free-frame scan: the lowest frame whose `pid` is -1, or -1 if every frame is occupied. */
    method FindFreeFrame() returns (frame: int)
      requires |frameTable| == numFrames
      ensures frame == -1 <==> AllOccupied(frameTable)
      ensures frame != -1 ==>
        && 0 <= frame < numFrames && frameTable[frame].pid == NoProcess
        && forall g :: 0 <= g < frame ==> frameTable[g].pid != NoProcess
    {
      frame := -1;
      var i := 0;
      while i < numFrames
        invariant 0 <= i <= numFrames
        invariant forall g :: 0 <= g < i ==> frameTable[g].pid != NoProcess
      {
        if frameTable[i].pid == NoProcess {
          frame := i;
          break;
        }
        i := i + 1;
      }
    }

    /** FIFO and LRU victim selection: the occupied frame whose page has the
        smallest `arrival` (FIFO) or `last_used` (LRU), lowest frame on ties. */
    method ScanVictim() returns (victim: int)
      requires Valid() && AllOccupied(frameTable) && policy != CLOCK
      ensures 0 <= victim < numFrames
      ensures IsFirstMin(ResidentKeys(pageTables, frameTable, policy == LRU), victim)
    {
      ghost var keys := ResidentKeys(pageTables, frameTable, policy == LRU);
      victim := -1;
      var best := 0;
      var i := 0;
      while i < numFrames
        invariant 0 <= i <= numFrames
        invariant victim == -1 <==> i == 0
        invariant -1 <= victim < i
        invariant victim >= 0 ==> best == keys[victim]
        invariant forall j :: 0 <= j < i ==> best <= keys[j]
        invariant forall j :: 0 <= j < victim ==> best < keys[j]
      {
        var f := frameTable[i];
        if f.pid != NoProcess {
          var pte := pageTables[f.pid][f.vpn];
          var key := if policy == FIFO then pte.arrival else pte.lastUsed;
          if victim == -1 || key < best {
            best := key;
            victim := i;
          }
        }
        i := i + 1;
      }
    }

    /** CLOCK victim selection over a full frame table. Starting at
        `clockHand`, a frame whose page has its reference bit set loses the
        bit and is passed over; the first frame found with the bit clear is
        the victim, and the hand stops just past it. `steps` counts the frames
        passed over: a full lap would clear every bit, so the sweep ends
        within one lap. */
    method ClockVictim() returns (victim: nat, ghost steps: nat)
      requires Valid() && AllOccupied(frameTable) && policy == CLOCK
      modifies this`pageTables, this`clockHand
      ensures Valid()
      ensures steps <= numFrames && victim == Hand(old(clockHand), steps, numFrames)
      ensures !RefAt(pageTables, frameTable, victim) && clockHand == Hand(victim, 1, numFrames)
      ensures RefBitsCleared(old(pageTables), pageTables)
      ensures Refs(pageTables, frameTable) == Swept(old(Refs(pageTables, frameTable)), old(clockHand), steps)
      ensures forall k :: 0 <= k < steps ==> old(RefAt(pageTables, frameTable, Hand(clockHand, k, numFrames)))
    {
      ghost var h0 := clockHand;
      ghost var t0 := pageTables;
      ghost var r0 := Refs(pageTables, frameTable);
      var n := numFrames;
      steps := 0;
      while true
        invariant Valid() && AllOccupied(frameTable)
        invariant RefBitsCleared(t0, pageTables)
        invariant steps <= n && clockHand == Hand(h0, steps, n)
        invariant Refs(pageTables, frameTable) == Swept(r0, h0, steps)
        invariant forall k :: 0 <= k < steps ==> r0[Hand(h0, k, n)]
        decreases n - steps
      {
        var hand := clockHand;
        var found := SweepStep(t0, r0, h0, steps);
        if found {
          return hand, steps;
        }
        steps := steps + 1;
      }
    }

    /** One step of the sweep at the frame under the hand, `steps` frames
        into a sweep that began at `h0` over tables `t0` with bits `r0`: an
        unreferenced page is the victim; a referenced one loses its bit. The
        hand moves on either way. */
    method SweepStep(ghost t0: Tables, ghost r0: seq<bool>, ghost h0: nat, ghost steps: nat) returns (found: bool)
      requires Valid() && AllOccupied(frameTable) && RefBitsCleared(t0, pageTables)
      requires h0 < numFrames && steps <= numFrames && |r0| == numFrames
      requires clockHand == Hand(h0, steps, numFrames) && Refs(pageTables, frameTable) == Swept(r0, h0, steps)
      requires forall k :: 0 <= k < steps ==> r0[Hand(h0, k, numFrames)]
      modifies this`pageTables, this`clockHand
      ensures Valid() && RefBitsCleared(t0, pageTables)
      ensures clockHand == Hand(old(clockHand), 1, numFrames)
      ensures found ==> pageTables == old(pageTables) && !RefAt(pageTables, frameTable, old(clockHand))
      ensures !found ==>
        && steps < numFrames && clockHand == Hand(h0, steps + 1, numFrames)
        && Refs(pageTables, frameTable) == Swept(r0, h0, steps + 1)
        && forall k :: 0 <= k < steps + 1 ==> r0[Hand(h0, k, numFrames)]
    {
      ghost var before := pageTables;
      var f := frameTable[clockHand];
      if f.pid != NoProcess {
        var referenced := RefUnderHand();
        if !referenced {
          AdvanceHand();
          return true;
        }
        SweepPasses(r0, h0, steps, Refs(pageTables, frameTable));
        ClearUnderHand();
        RefBitsClearedTrans(t0, before, pageTables);
      }
      HandNext(h0, steps, numFrames);
      AdvanceHand();
      found := false;
    }

    /** Moves the hand to the next frame, wrapping after the last. */
    method AdvanceHand()
      requires Valid()
      modifies this`clockHand
      ensures Valid() && clockHand == Hand(old(clockHand), 1, numFrames)
    {
      WrapStep(clockHand, numFrames);
      clockHand := (clockHand + 1) % numFrames;
    }

    /** The reference bit of the page under the hand. */
    method RefUnderHand() returns (referenced: bool)
      requires Valid() && AllOccupied(frameTable)
      ensures referenced == Refs(pageTables, frameTable)[clockHand]
    {
      var f := frameTable[clockHand];
      referenced := pageTables[f.pid][f.vpn].refBit;
    }

    /** Passing over a frame: clears the reference bit of the page under the hand. */
    method ClearUnderHand()
      requires Valid() && AllOccupied(frameTable)
      modifies this`pageTables
      ensures Valid()
      ensures RefBitsCleared(old(pageTables), pageTables)
      ensures Refs(pageTables, frameTable) == old(Refs(pageTables, frameTable))[clockHand := false]
    {
      var f := frameTable[clockHand];
      ClearRefAt(pageTables, frameTable, clockHand);
      pageTables := ClearRef(pageTables, f.pid, f.vpn);
    }

    /** Picks the frame to evict when none is free, by the configured policy. */
    method FindVictimFrame() returns (victim: nat, ghost steps: nat)
      requires Valid() && AllOccupied(frameTable)
      modifies this`pageTables, this`clockHand
      ensures Valid() && victim < numFrames
      ensures VictimChosen(old(pageTables), frameTable, policy, old(clockHand), victim, steps, pageTables)
      ensures clockHand == if policy == CLOCK then Hand(victim, 1, numFrames) else old(clockHand)
    {
      if policy == CLOCK {
        victim, steps := ClockVictim();
      } else {
        var v := ScanVictim();
        victim, steps := v, 0;
      }
    }

    /** Writes frame `frame` back to the disk slot of page number `vpn`. */
    method PageOut(vpn: nat, frame: nat)
      requires vpn < |disk| && frame < |physicalMemory|
      modifies this`disk
      ensures disk == old(disk)[vpn := physicalMemory[frame]]
    {
      disk := disk[vpn := physicalMemory[frame]];
    }

    /** Loads the disk slot of page number `vpn` into frame `frame`. */
    method PageIn(vpn: nat, frame: nat)
      requires vpn < |disk| && frame < |physicalMemory|
      modifies this`physicalMemory
      ensures physicalMemory == old(physicalMemory)[frame := disk[vpn]]
    {
      physicalMemory := physicalMemory[frame := disk[vpn]];
    }

    /** Loads page `vpn` of `pid` into a frame known to be free. */
    method LoadIntoFree(pid: int, vpn: nat, frame: nat)
      requires Valid() && InTable(pageTables, pid, vpn) && !pageTables[pid][vpn].valid
      requires frame < numFrames && frameTable[frame].pid == NoProcess
      modifies this`pageTables, this`frameTable, this`physicalMemory
      ensures Valid() && SameShape(old(pageTables), pageTables)
      ensures pageTables == Install(old(pageTables), pid, vpn, frame, time)
      ensures frameTable == old(frameTable)[frame := FrameInfo(pid, vpn)]
      ensures physicalMemory == old(physicalMemory)[frame := disk[vpn]]
    {
      InstallFreeKeepsBijection(pageTables, frameTable, pid, vpn, frame, time);
      PageIn(vpn, frame);
      pageTables := Install(pageTables, pid, vpn, frame, time);
      frameTable := frameTable[frame := FrameInfo(pid, vpn)];
    }

    /** Evicts the policy's victim, writing its frame back to the disk slot
        of the victim's page number, and loads page `vpn` of `pid` there.
        `swept` is the tables after the victim search, `steps` the frames the
        CLOCK hand passed. */
    method LoadIntoVictim(pid: int, vpn: nat) returns (frame: nat, ghost swept: Tables, ghost steps: nat)
      requires Valid() && InTable(pageTables, pid, vpn) && !pageTables[pid][vpn].valid
      requires AllOccupied(frameTable)
      modifies this`pageTables, this`frameTable, this`disk, this`physicalMemory, this`clockHand
      ensures Valid() && SameShape(old(pageTables), pageTables) && |disk| == old(|disk|)
      ensures frame < numFrames
      ensures VictimChosen(old(pageTables), old(frameTable), policy, old(clockHand), frame, steps, swept)
      ensures clockHand == if policy == CLOCK then Hand(frame, 1, numFrames) else old(clockHand)
      ensures pageTables[pid][vpn] == Pte(true, frame, time, time, true)
      ensures frameTable == old(frameTable)[frame := FrameInfo(pid, vpn)]
      ensures var victim := old(frameTable[frame]);
        && InTable(swept, victim.pid, victim.vpn)
        && InTable(Invalidate(swept, victim.pid, victim.vpn), pid, vpn)
        && pageTables == Install(Invalidate(swept, victim.pid, victim.vpn), pid, vpn, frame, time)
        && InTable(pageTables, victim.pid, victim.vpn) && !pageTables[victim.pid][victim.vpn].valid
        && 0 <= victim.vpn < |disk|
        && disk == old(disk)[victim.vpn := old(physicalMemory[frame])]
        && physicalMemory == old(physicalMemory)[frame := disk[vpn]]
    {
      frame, steps := FindVictimFrame();
      swept := pageTables;
      ReplaceVictim(pid, vpn, frame);
    }

    /** Writes the occupant of `frame` back to the disk slot of its page
        number, marks its PTE invalid, and loads page `vpn` of `pid` there. */
    method ReplaceVictim(pid: int, vpn: nat, frame: nat)
      requires Valid() && InTable(pageTables, pid, vpn) && !pageTables[pid][vpn].valid
      requires frame < numFrames && frameTable[frame].pid != NoProcess
      modifies this`pageTables, this`frameTable, this`disk, this`physicalMemory
      ensures Valid() && SameShape(old(pageTables), pageTables) && |disk| == old(|disk|)
      ensures var victim := old(frameTable[frame]);
        && InTable(old(pageTables), victim.pid, victim.vpn)
        && InTable(Invalidate(old(pageTables), victim.pid, victim.vpn), pid, vpn)
        && pageTables == Install(Invalidate(old(pageTables), victim.pid, victim.vpn), pid, vpn, frame, time)
        && 0 <= victim.vpn < |disk|
        && disk == old(disk)[victim.vpn := old(physicalMemory[frame])]
        && physicalMemory == old(physicalMemory)[frame := disk[vpn]]
      ensures frameTable == old(frameTable)[frame := FrameInfo(pid, vpn)]
    {
      var victim := frameTable[frame];
      PageOut(victim.vpn, frame);
      EvictInstallKeepsBijection(pageTables, frameTable, pid, vpn, frame, time);
      pageTables := Invalidate(pageTables, victim.pid, victim.vpn);
      PageIn(vpn, frame);
      pageTables := Install(pageTables, pid, vpn, frame, time);
      frameTable := frameTable[frame := FrameInfo(pid, vpn)];
    }

    /** Translates `va` for process `pid`, loading the page on a fault. */
    method Translate(pid: int, va: nat) returns (pa: nat, ghost swept: Tables, ghost steps: nat)
      requires Valid() && pid in pageTables && va / pageSize < |pageTables[pid]|
      modifies this
      ensures Valid() && SameShape(old(pageTables), pageTables) && |disk| == old(|disk|)
      ensures time == old(time) + 1
      ensures var vpn := va / pageSize; var e := pageTables[pid][vpn];
        && e.valid && 0 <= e.frame < numFrames
        && pa == e.frame * pageSize + va % pageSize
        && frameTable[e.frame] == FrameInfo(pid, vpn)
      ensures pa % pageSize == va % pageSize
      // Page hit: only the PTE's lastUsed and ref_bit change.
      ensures old(pageTables[pid][va / pageSize].valid) ==>
        && pageHits == old(pageHits) + 1 && pageFaults == old(pageFaults)
        && pageTables == Touch(old(pageTables), pid, va / pageSize, time)
        && frameTable == old(frameTable) && clockHand == old(clockHand)
        && disk == old(disk) && physicalMemory == old(physicalMemory)
      // Page fault: the page is loaded into a frame and its PTE rewritten,
      ensures !old(pageTables[pid][va / pageSize].valid) ==>
        && pageFaults == old(pageFaults) + 1 && pageHits == old(pageHits)
        && pageTables[pid][va / pageSize] == Pte(true, pa / pageSize, time, time, true)
        && frameTable == old(frameTable)[pa / pageSize := FrameInfo(pid, va / pageSize)]
        && physicalMemory == old(physicalMemory)[pa / pageSize := disk[va / pageSize]]
      // ... the lowest free frame when there is one,
      ensures !old(pageTables[pid][va / pageSize].valid) && !old(AllOccupied(frameTable)) ==>
        && old(frameTable[pa / pageSize]).pid == NoProcess
        && (forall g :: 0 <= g < pa / pageSize ==> old(frameTable[g]).pid != NoProcess)
        && pageTables == Install(old(pageTables), pid, va / pageSize, pa / pageSize, time)
        && disk == old(disk) && clockHand == old(clockHand)
      // ... otherwise a victim's frame, after writing the victim back.
      ensures !old(pageTables[pid][va / pageSize].valid) && old(AllOccupied(frameTable)) ==>
        && VictimChosen(old(pageTables), old(frameTable), policy, old(clockHand), pa / pageSize, steps, swept)
        && clockHand == (if policy == CLOCK then Hand(pa / pageSize, 1, numFrames) else old(clockHand))
        && var victim := old(frameTable[pa / pageSize]);
        && InTable(swept, victim.pid, victim.vpn)
        && InTable(Invalidate(swept, victim.pid, victim.vpn), pid, va / pageSize)
        && pageTables == Install(Invalidate(swept, victim.pid, victim.vpn), pid, va / pageSize, pa / pageSize, time)
        && !pageTables[victim.pid][victim.vpn].valid
        && 0 <= victim.vpn < |disk|
        && disk == old(disk)[victim.vpn := old(physicalMemory[pa / pageSize])]
    {
      var vpn := va / pageSize;
      var offset := va % pageSize;
      var frame: nat;
      if pageTables[pid][vpn].valid {
        frame := pageTables[pid][vpn].frame;
        swept, steps := pageTables, 0;
        ServeHit(pid, vpn);
      } else {
        frame, swept, steps := ServeFault(pid, vpn);
      }
      pa := frame * pageSize + offset;
      FrameOffset(frame, pageSize, offset);
    }

    /** The hit path of `translate`: one more tick and one more hit, and the
        PTE records the use. */
    method ServeHit(pid: int, vpn: nat)
      requires Valid() && InTable(pageTables, pid, vpn) && pageTables[pid][vpn].valid
      modifies this`time, this`pageHits, this`pageTables
      ensures Valid() && SameShape(old(pageTables), pageTables)
      ensures time == old(time) + 1 && pageHits == old(pageHits) + 1
      ensures pageTables == Touch(old(pageTables), pid, vpn, time)
      ensures var e := pageTables[pid][vpn];
        e.valid && e.frame == old(pageTables[pid][vpn].frame) && 0 <= e.frame < numFrames
        && frameTable[e.frame] == FrameInfo(pid, vpn)
    {
      time := time + 1;
      pageHits := pageHits + 1;
      TouchKeepsBijection(pageTables, frameTable, pid, vpn, time);
      pageTables := Touch(pageTables, pid, vpn, time);
    }

    /** The fault path of `translate`: one more tick and one more fault, and
        the page is loaded into the lowest free frame or, when every frame is
        taken, into the policy's victim frame. */
    method ServeFault(pid: int, vpn: nat) returns (frame: nat, ghost swept: Tables, ghost steps: nat)
      requires Valid() && InTable(pageTables, pid, vpn) && !pageTables[pid][vpn].valid
      modifies this`time, this`pageFaults, this`pageTables, this`frameTable, this`disk,
        this`physicalMemory, this`clockHand
      ensures Valid() && SameShape(old(pageTables), pageTables) && |disk| == old(|disk|)
      ensures time == old(time) + 1 && pageFaults == old(pageFaults) + 1
      ensures frame < numFrames
      ensures pageTables[pid][vpn] == Pte(true, frame, time, time, true)
      ensures frameTable == old(frameTable)[frame := FrameInfo(pid, vpn)]
      ensures physicalMemory == old(physicalMemory)[frame := disk[vpn]]
      ensures !old(AllOccupied(frameTable)) ==>
        && old(frameTable[frame]).pid == NoProcess
        && (forall g :: 0 <= g < frame ==> old(frameTable[g]).pid != NoProcess)
        && pageTables == Install(old(pageTables), pid, vpn, frame, time)
        && disk == old(disk) && clockHand == old(clockHand)
      ensures old(AllOccupied(frameTable)) ==>
        && VictimChosen(old(pageTables), old(frameTable), policy, old(clockHand), frame, steps, swept)
        && clockHand == (if policy == CLOCK then Hand(frame, 1, numFrames) else old(clockHand))
        && var victim := old(frameTable[frame]);
        && InTable(swept, victim.pid, victim.vpn)
        && InTable(Invalidate(swept, victim.pid, victim.vpn), pid, vpn)
        && pageTables == Install(Invalidate(swept, victim.pid, victim.vpn), pid, vpn, frame, time)
        && InTable(pageTables, victim.pid, victim.vpn) && !pageTables[victim.pid][victim.vpn].valid
        && 0 <= victim.vpn < |disk|
        && disk == old(disk)[victim.vpn := old(physicalMemory[frame])]
    {
      time := time + 1;
      pageFaults := pageFaults + 1;
      var free := FindFreeFrame();
      if free == -1 {
        frame, swept, steps := LoadIntoVictim(pid, vpn);
      } else {
        frame, swept, steps := free, pageTables, 0;
        LoadIntoFree(pid, vpn, frame);
      }
    }
  }

  /** A physical address splits back into its frame and the virtual offset. */
  lemma FrameOffset(frame: nat, pageSize: nat, offset: nat)
    requires offset < pageSize
    ensures (frame * pageSize + offset) / pageSize == frame
    ensures (frame * pageSize + offset) % pageSize == offset
  {
    DivModUnique(frame * pageSize + offset, pageSize, frame, offset);
  }
}
