/** The simulator's two drivers that carry logic: the three-level cache
    cascade (main.cpp, cache mode and virtual-memory mode) and, in
    virtual-memory mode, the translation that feeds it. */
module Simulator {
  import opened CacheSim
  import opened VirtualMem

  /** Where one cascade access was resolved. */
  datatype Level = L1Hit | L2Hit | L3Hit | MemoryAccess

  /** Cycles charged for going all the way to main memory. */
  const RamLatency: nat := 100

  /** Latency the cascade adds up for an access resolved at `level`. */
  function CascadeCost(level: Level, lat1: nat, lat2: nat, lat3: nat): nat
  {
    match level
    case L1Hit => lat1
    case L2Hit => lat1 + lat2
    case L3Hit => lat1 + lat2 + lat3
    case MemoryAccess => lat1 + lat2 + lat3 + RamLatency
  }

  /** The effect of the cascade on the set of an address in one cache. When
      the probe hit, the line is refreshed once. When it `missed`, the victim
      is filled and the re-access then refreshes the new line. */
  ghost predicate SetEffect(before: seq<Line>, after: seq<Line>, tag: nat, now: nat, p: Policy, missed: bool)
  {
    if missed then
      now > 0 && exists mid :: Filled(before, mid, tag, now - 1, p) && Refreshed(mid, after, tag, now)
    else Refreshed(before, after, tag, now)
  }

  /** What the cascade did to cache `c` for `addr`, from sets `rows` at
      time `time`: one access, or a missed probe and its re-access; no other
      set changed, and the line of `addr` is the most recent in its set. */
  ghost predicate Touched(c: Cache, rows: seq<seq<Line>>, time: nat, addr: nat, missed: bool)
    reads c, c.sets
  {
    && c.Valid() && |rows| == c.numSets
    && c.globalTime == time + (if missed then 2 else 1)
    && (forall s :: 0 <= s < c.numSets && s != c.SetIndexOf(addr) ==> c.Row(s) == rows[s])
    && SetEffect(rows[c.SetIndexOf(addr)], c.Row(c.SetIndexOf(addr)), c.TagOf(addr), c.globalTime, c.policy, missed)
    && MostRecent(c.Row(c.SetIndexOf(addr)), c.TagOf(addr), c.globalTime)
  }

  /** The three cache levels and the cycle total the driver accumulates. */
  class CacheHierarchy {
    const l1: Cache
    const l2: Cache
    const l3: Cache
    var totalCycles: nat

    ghost predicate Valid()
      reads this, l1, l1.sets, l2, l2.sets, l3, l3.sets
    {
      && l1 != l2 && l2 != l3 && l1 != l3
      && l1.sets != l2.sets && l2.sets != l3.sets && l1.sets != l3.sets
      && l1.Valid() && l2.Valid() && l3.Valid()
    }

    /** The level the cascade resolves `addr` at, judged on the current contents. */
    ghost function Resolve(addr: nat): Level
      reads this, l1, l1.sets, l2, l2.sets, l3, l3.sets
      requires Valid()
    {
      if l1.Contains(addr) then L1Hit
      else if l2.Contains(addr) then L2Hit
      else if l3.Contains(addr) then L3Hit
      else MemoryAccess
    }

    /** The "init" command: three caches sharing a block size and a policy. */
    constructor Init(c1: nat, c2: nat, c3: nat, blockSize: nat, a1: nat, a2: nat, a3: nat,
                     lat1: nat, lat2: nat, lat3: nat, policy: Policy)
      requires blockSize > 0 && a1 > 0 && a2 > 0 && a3 > 0
      requires c1 / blockSize / a1 > 0 && c2 / blockSize / a2 > 0 && c3 / blockSize / a3 > 0
      ensures Valid() && fresh(l1) && fresh(l2) && fresh(l3)
      ensures fresh(l1.sets) && fresh(l2.sets) && fresh(l3.sets)
      ensures l1.cacheSize == c1 && l2.cacheSize == c2 && l3.cacheSize == c3
      ensures l1.blockSize == blockSize && l2.blockSize == blockSize && l3.blockSize == blockSize
      ensures l1.associativity == a1 && l2.associativity == a2 && l3.associativity == a3
      ensures l1.numSets == c1 / blockSize / a1 && l2.numSets == c2 / blockSize / a2 && l3.numSets == c3 / blockSize / a3
      ensures l1.hitLatency == lat1 && l2.hitLatency == lat2 && l3.hitLatency == lat3
      ensures l1.policy == policy && l2.policy == policy && l3.policy == policy
      ensures totalCycles == 0
      ensures forall a: nat :: Resolve(a) == MemoryAccess
    {
      l1 := new Cache(c1, blockSize, a1, policy, lat1);
      l2 := new Cache(c2, blockSize, a2, policy, lat2);
      l3 := new Cache(c3, blockSize, a3, policy, lat3);
      totalCycles := 0;
    }

    /** The fixed configuration of virtual-memory mode: 32 KiB 4-way L1
        (1 cycle), 256 KiB 8-way L2 (5 cycles), 2 MiB 16-way L3 (20 cycles),
        64-byte blocks, LRU everywhere. */
    constructor Standard()
      ensures Valid() && fresh(l1) && fresh(l2) && fresh(l3)
      ensures fresh(l1.sets) && fresh(l2.sets) && fresh(l3.sets)
      ensures l1.cacheSize == 32 * 1024 && l2.cacheSize == 256 * 1024 && l3.cacheSize == 2 * 1024 * 1024
      ensures l1.blockSize == 64 && l2.blockSize == 64 && l3.blockSize == 64
      ensures l1.numSets == 128 && l2.numSets == 512 && l3.numSets == 2048
      ensures l1.associativity == 4 && l2.associativity == 8 && l3.associativity == 16
      ensures l1.hitLatency == 1 && l2.hitLatency == 5 && l3.hitLatency == 20
      ensures l1.policy == Policy.LRU && l2.policy == Policy.LRU && l3.policy == Policy.LRU
      ensures totalCycles == 0
      ensures forall a: nat :: Resolve(a) == MemoryAccess
    {
      l1 := new Cache(32 * 1024, 64, 4, Policy.LRU, 1);
      l2 := new Cache(256 * 1024, 64, 8, Policy.LRU, 5);
      l3 := new Cache(2 * 1024 * 1024, 64, 16, Policy.LRU, 20);
      totalCycles := 0;
    }

    /** One cascade access: probe L1, L2, L3 in order, charge the latencies
        of every level probed (plus main memory on a full miss), then
        re-access the shallower levels. Each re-access finds the line that
        the level's own missed probe already installed, so it counts as a
        hit there: a level missed by the probe gains one miss and one hit. */
    method Access(addr: nat) returns (level: Level)
      requires Valid()
      modifies this, l1, l1.sets, l2, l2.sets, l3, l3.sets
      ensures Valid()
      ensures level == old(Resolve(addr))
      ensures totalCycles == old(totalCycles) + CascadeCost(level, l1.hitLatency, l2.hitLatency, l3.hitLatency)
      ensures l1.Contains(addr)
      ensures level != L1Hit ==> l2.Contains(addr)
      ensures level == L3Hit || level == MemoryAccess ==> l3.Contains(addr)
      // L1 is probed every time; a missed probe is followed by a refill hit.
      ensures l1.hits == old(l1.hits) + 1
      ensures l1.misses == old(l1.misses) + (if level == L1Hit then 0 else 1)
      // L2 is probed unless L1 hit.
      ensures level == L1Hit ==> unchanged(l2, l2.sets)
      ensures level != L1Hit ==> l2.hits == old(l2.hits) + 1
      ensures level != L1Hit ==> l2.misses == old(l2.misses) + (if level == L2Hit then 0 else 1)
      // L3 is probed only when L1 and L2 both miss.
      ensures level == L1Hit || level == L2Hit ==> unchanged(l3, l3.sets)
      ensures level == L3Hit || level == MemoryAccess ==> l3.hits == old(l3.hits) + 1
      ensures level == L3Hit || level == MemoryAccess ==>
        l3.misses == old(l3.misses) + (if level == L3Hit then 0 else 1)
      // Each probed level: its other sets unchanged, the set of `addr`
      // refreshed (or filled and refreshed), the line most recent.
      ensures Touched(l1, old(l1.Rows()), old(l1.globalTime), addr, level != L1Hit)
      ensures level != L1Hit ==> Touched(l2, old(l2.Rows()), old(l2.globalTime), addr, level != L2Hit)
      ensures level == L3Hit || level == MemoryAccess ==>
        Touched(l3, old(l3.Rows()), old(l3.globalTime), addr, level == MemoryAccess)
    {
      var hit1 := l1.Access(addr);
      if hit1 {
        totalCycles := totalCycles + l1.hitLatency;
        return L1Hit;
      }
      label probed:
      level := BelowL1(addr);
      ghost var si := l1.SetIndexOf(addr);
      assert Filled(old(l1.Row(si)), old@probed(l1.Row(si)), l1.TagOf(addr), l1.globalTime - 1, l1.policy);
    }

    /** The cascade after L1 missed (and so already holds `addr`): probe L2,
        refill L1 on an L2 hit. */
    method BelowL1(addr: nat) returns (level: Level)
      requires Valid() && l1.Contains(addr)
      modifies this, l1, l1.sets, l2, l2.sets, l3, l3.sets
      ensures Valid()
      ensures level == (if old(l2.Contains(addr)) then L2Hit else if old(l3.Contains(addr)) then L3Hit else MemoryAccess)
      ensures totalCycles == old(totalCycles) + CascadeCost(level, l1.hitLatency, l2.hitLatency, l3.hitLatency)
      ensures l1.Contains(addr) && l2.Contains(addr)
      ensures level != L2Hit ==> l3.Contains(addr)
      ensures l1.hits == old(l1.hits) + 1 && l1.misses == old(l1.misses)
      ensures l2.hits == old(l2.hits) + 1
      ensures l2.misses == old(l2.misses) + (if level == L2Hit then 0 else 1)
      ensures level == L2Hit ==> unchanged(l3, l3.sets)
      ensures level != L2Hit ==> l3.hits == old(l3.hits) + 1
      ensures level != L2Hit ==> l3.misses == old(l3.misses) + (if level == L3Hit then 0 else 1)
      ensures Touched(l1, old(l1.Rows()), old(l1.globalTime), addr, false)
      ensures Touched(l2, old(l2.Rows()), old(l2.globalTime), addr, level != L2Hit)
      ensures level != L2Hit ==> Touched(l3, old(l3.Rows()), old(l3.globalTime), addr, level == MemoryAccess)
    {
      var hit2 := l2.Access(addr);
      if hit2 {
        FromL2(addr);
        return L2Hit;
      }
      label probed:
      level := BelowL2(addr);
      ghost var si := l2.SetIndexOf(addr);
      assert Filled(old(l2.Row(si)), old@probed(l2.Row(si)), l2.TagOf(addr), l2.globalTime - 1, l2.policy);
    }

    /** The L2 hit after L1 missed (and so already holds `addr`): charge
        both latencies and re-access L1. */
    method FromL2(addr: nat)
      requires Valid() && l1.Contains(addr)
      modifies this, l1, l1.sets
      ensures Valid()
      ensures totalCycles == old(totalCycles) + l1.hitLatency + l2.hitLatency
      ensures l1.Contains(addr)
      ensures l1.hits == old(l1.hits) + 1 && l1.misses == old(l1.misses)
      ensures Touched(l1, old(l1.Rows()), old(l1.globalTime), addr, false)
    {
      totalCycles := totalCycles + l1.hitLatency + l2.hitLatency;
      var refill1 := l1.Access(addr);
      assert refill1;
    }

    /** The cascade after L1 and L2 missed (both now hold `addr`): probe L3,
        then refill L2 and L1, or on a full miss L3, L2 and L1. */
    method BelowL2(addr: nat) returns (level: Level)
      requires Valid() && l1.Contains(addr) && l2.Contains(addr)
      modifies this, l1, l1.sets, l2, l2.sets, l3, l3.sets
      ensures Valid()
      ensures level == (if old(l3.Contains(addr)) then L3Hit else MemoryAccess)
      ensures totalCycles == old(totalCycles) + CascadeCost(level, l1.hitLatency, l2.hitLatency, l3.hitLatency)
      ensures l1.Contains(addr) && l2.Contains(addr) && l3.Contains(addr)
      ensures l1.hits == old(l1.hits) + 1 && l1.misses == old(l1.misses)
      ensures l2.hits == old(l2.hits) + 1 && l2.misses == old(l2.misses)
      ensures l3.hits == old(l3.hits) + 1
      ensures l3.misses == old(l3.misses) + (if level == L3Hit then 0 else 1)
      ensures Touched(l1, old(l1.Rows()), old(l1.globalTime), addr, false)
      ensures Touched(l2, old(l2.Rows()), old(l2.globalTime), addr, false)
      ensures Touched(l3, old(l3.Rows()), old(l3.globalTime), addr, level == MemoryAccess)
    {
      var hit3 := l3.Access(addr);
      if hit3 {
        totalCycles := totalCycles + l1.hitLatency + l2.hitLatency + l3.hitLatency;
        RefillL2L1(addr);
        return L3Hit;
      }
      label probed:
      FromMemory(addr);
      ghost var si := l3.SetIndexOf(addr);
      assert Filled(old(l3.Row(si)), old@probed(l3.Row(si)), l3.TagOf(addr), l3.globalTime - 1, l3.policy);
      level := MemoryAccess;
    }

    /** The full miss after all three probes missed (and so all three hold
        `addr`): charge main memory, then re-access L3, L2 and L1. */
    method FromMemory(addr: nat)
      requires Valid() && l1.Contains(addr) && l2.Contains(addr) && l3.Contains(addr)
      modifies this, l1, l1.sets, l2, l2.sets, l3, l3.sets
      ensures Valid()
      ensures totalCycles == old(totalCycles) + l1.hitLatency + l2.hitLatency + l3.hitLatency + RamLatency
      ensures l1.Contains(addr) && l2.Contains(addr) && l3.Contains(addr)
      ensures l1.hits == old(l1.hits) + 1 && l1.misses == old(l1.misses)
      ensures l2.hits == old(l2.hits) + 1 && l2.misses == old(l2.misses)
      ensures l3.hits == old(l3.hits) + 1 && l3.misses == old(l3.misses)
      ensures Touched(l1, old(l1.Rows()), old(l1.globalTime), addr, false)
      ensures Touched(l2, old(l2.Rows()), old(l2.globalTime), addr, false)
      ensures Touched(l3, old(l3.Rows()), old(l3.globalTime), addr, false)
    {
      totalCycles := totalCycles + l1.hitLatency + l2.hitLatency + l3.hitLatency + RamLatency;
      var refill3 := l3.Access(addr);
      assert refill3;
      RefillL2L1(addr);
    }

    /** Re-access L2 and then L1; both already hold `addr`, so both count a hit. */
    method RefillL2L1(addr: nat)
      requires Valid() && l1.Contains(addr) && l2.Contains(addr)
      modifies l1, l1.sets, l2, l2.sets
      ensures Valid()
      ensures l1.Contains(addr) && l2.Contains(addr)
      ensures l1.hits == old(l1.hits) + 1 && l1.misses == old(l1.misses)
      ensures l2.hits == old(l2.hits) + 1 && l2.misses == old(l2.misses)
      ensures Touched(l1, old(l1.Rows()), old(l1.globalTime), addr, false)
      ensures Touched(l2, old(l2.Rows()), old(l2.globalTime), addr, false)
    {
      var refill2 := l2.Access(addr);
      var refill1 := l1.Access(addr);
      assert refill2 && refill1;
    }

    /** Accessing an address twice in a row: the second access is an L1 hit
        that costs the L1 latency alone. */
    method AccessTwice(addr: nat) returns (first: Level, second: Level)
      requires Valid()
      modifies this, l1, l1.sets, l2, l2.sets, l3, l3.sets
      ensures Valid()
      ensures first == old(Resolve(addr)) && second == L1Hit
      ensures totalCycles == old(totalCycles)
        + CascadeCost(first, l1.hitLatency, l2.hitLatency, l3.hitLatency) + l1.hitLatency
    {
      first := Access(addr);
      second := Access(addr);
    }
  }

  /** The result of an "access <pid> <va>" command in virtual-memory mode. */
  datatype Outcome = InvalidPid | Accessed(pa: nat, level: Level)

  /** Virtual-memory mode: a pager whose processes 0 .. numProcesses-1 each
      own `pagesPerProcess` pages, feeding physical addresses into the
      fixed three-level hierarchy. */
  class VmSimulation {
    const vm: VirtualMemory
    const caches: CacheHierarchy
    const numProcesses: nat
    const pagesPerProcess: nat

    ghost predicate Valid()
      reads this, vm, caches, caches.l1, caches.l1.sets, caches.l2, caches.l2.sets, caches.l3, caches.l3.sets
    {
      && vm.Valid() && caches.Valid()
      && forall pid :: 0 <= pid < numProcesses ==> pid in vm.pageTables && |vm.pageTables[pid]| == pagesPerProcess
    }

    /** Builds the pager (disk of `pagesPerProcess` pages), creates every
        process with all pages unloaded, then the standard hierarchy. */
    constructor (numProcesses: nat, pagesPerProcess: nat, frames: nat, pageSize: nat, policy: PageReplacement)
      requires frames > 0 && pageSize > 0
      ensures Valid() && fresh(vm) && fresh(caches)
      ensures fresh(caches.l1) && fresh(caches.l2) && fresh(caches.l3)
      ensures fresh(caches.l1.sets) && fresh(caches.l2.sets) && fresh(caches.l3.sets)
      ensures this.numProcesses == numProcesses && this.pagesPerProcess == pagesPerProcess
      ensures vm.numFrames == frames && vm.pageSize == pageSize && vm.policy == policy
      ensures forall pid :: pid in vm.pageTables <==> 0 <= pid < numProcesses
      ensures forall pid, v :: 0 <= pid < numProcesses && 0 <= v < pagesPerProcess ==> vm.pageTables[pid][v] == InvalidPte
      // The pager starts with every frame free, memory and disk zero-filled,
      // and its clock, counters and hand at zero.
      ensures vm.frameTable == seq(frames, _ => FreeFrame)
      ensures vm.physicalMemory == seq(frames, _ => ZeroPage(pageSize))
      ensures vm.disk == seq(pagesPerProcess, _ => ZeroPage(pageSize))
      ensures vm.time == 0 && vm.pageHits == 0 && vm.pageFaults == 0 && vm.clockHand == 0
      // The standard hierarchy, empty.
      ensures caches.l1.cacheSize == 32 * 1024 && caches.l2.cacheSize == 256 * 1024 && caches.l3.cacheSize == 2 * 1024 * 1024
      ensures caches.l1.blockSize == 64 && caches.l2.blockSize == 64 && caches.l3.blockSize == 64
      ensures caches.l1.numSets == 128 && caches.l2.numSets == 512 && caches.l3.numSets == 2048
      ensures caches.l1.associativity == 4 && caches.l2.associativity == 8 && caches.l3.associativity == 16
      ensures caches.l1.hitLatency == 1 && caches.l2.hitLatency == 5 && caches.l3.hitLatency == 20
      ensures caches.l1.policy == Policy.LRU && caches.l2.policy == Policy.LRU && caches.l3.policy == Policy.LRU
      ensures caches.totalCycles == 0
      ensures forall a: nat :: caches.Resolve(a) == MemoryAccess
    {
      var v := new VirtualMemory(pagesPerProcess, frames, pageSize, policy);
      var pid := 0;
      while pid < numProcesses
        invariant 0 <= pid <= numProcesses
        invariant v.Valid() && v.frameTable == seq(frames, _ => FreeFrame)
        invariant v.numFrames == frames && v.pageSize == pageSize && v.policy == policy
        invariant v.physicalMemory == seq(frames, _ => ZeroPage(pageSize))
        invariant v.disk == seq(pagesPerProcess, _ => ZeroPage(pageSize))
        invariant v.time == 0 && v.pageHits == 0 && v.pageFaults == 0 && v.clockHand == 0
        invariant forall p :: p in v.pageTables <==> 0 <= p < pid
        invariant forall p :: 0 <= p < pid ==> v.pageTables[p] == seq(pagesPerProcess, _ => InvalidPte)
        modifies v
      {
        v.CreateProcess(pid, pagesPerProcess);
        pid := pid + 1;
      }
      vm := v;
      caches := new CacheHierarchy.Standard();
      this.numProcesses := numProcesses;
      this.pagesPerProcess := pagesPerProcess;
    }

    /** Rejects a pid outside 0 .. numProcesses-1; otherwise translates the
        virtual address and runs the cache cascade on the physical one. */
    method Access(pid: int, va: nat) returns (r: Outcome, ghost swept: Tables, ghost steps: nat)
      requires Valid()
      requires 0 <= pid < numProcesses ==> va / vm.pageSize < pagesPerProcess
      modifies vm, caches, caches.l1, caches.l1.sets, caches.l2, caches.l2.sets, caches.l3, caches.l3.sets
      ensures Valid()
      ensures r == InvalidPid <==> !(0 <= pid < numProcesses)
      ensures r == InvalidPid ==> unchanged(vm) && unchanged(caches, caches.l1, caches.l1.sets, caches.l2, caches.l2.sets, caches.l3, caches.l3.sets)
      // The translation, as `VirtualMemory.Translate` gives it.
      ensures r.Accessed? ==>
        var e := vm.pageTables[pid][va / vm.pageSize];
        && e.valid && r.pa == e.frame * vm.pageSize + va % vm.pageSize
        && vm.frameTable[e.frame] == FrameInfo(pid, va / vm.pageSize)
      ensures r.Accessed? ==> vm.time == old(vm.time) + 1
      // A page hit.
      ensures r.Accessed? && old(vm.pageTables[pid][va / vm.pageSize].valid) ==>
        && vm.pageHits == old(vm.pageHits) + 1 && vm.pageFaults == old(vm.pageFaults)
        && vm.pageTables == Touch(old(vm.pageTables), pid, va / vm.pageSize, vm.time)
        && vm.frameTable == old(vm.frameTable) && vm.clockHand == old(vm.clockHand)
        && vm.disk == old(vm.disk) && vm.physicalMemory == old(vm.physicalMemory)
      // A page fault: the page is loaded into a frame and its entry rewritten,
      ensures r.Accessed? && !old(vm.pageTables[pid][va / vm.pageSize].valid) ==>
        && vm.pageFaults == old(vm.pageFaults) + 1 && vm.pageHits == old(vm.pageHits)
        && vm.pageTables[pid][va / vm.pageSize] == Pte(true, r.pa / vm.pageSize, vm.time, vm.time, true)
        && vm.frameTable == old(vm.frameTable)[r.pa / vm.pageSize := FrameInfo(pid, va / vm.pageSize)]
        && vm.physicalMemory == old(vm.physicalMemory)[r.pa / vm.pageSize := vm.disk[va / vm.pageSize]]
      // ... the lowest free frame when there is one,
      ensures r.Accessed? && !old(vm.pageTables[pid][va / vm.pageSize].valid) && !old(AllOccupied(vm.frameTable)) ==>
        && old(vm.frameTable[r.pa / vm.pageSize]).pid == NoProcess
        && (forall g :: 0 <= g < r.pa / vm.pageSize ==> old(vm.frameTable[g]).pid != NoProcess)
        && vm.pageTables == Install(old(vm.pageTables), pid, va / vm.pageSize, r.pa / vm.pageSize, vm.time)
        && vm.disk == old(vm.disk) && vm.clockHand == old(vm.clockHand)
      // ... otherwise the policy's victim, after writing it back.
      ensures r.Accessed? && !old(vm.pageTables[pid][va / vm.pageSize].valid) && old(AllOccupied(vm.frameTable)) ==>
        && VictimChosen(old(vm.pageTables), old(vm.frameTable), vm.policy, old(vm.clockHand), r.pa / vm.pageSize, steps, swept)
        && vm.clockHand == (if vm.policy == CLOCK then Hand(r.pa / vm.pageSize, 1, vm.numFrames) else old(vm.clockHand))
        && var victim := old(vm.frameTable[r.pa / vm.pageSize]);
        && vm.pageTables == Install(Invalidate(swept, victim.pid, victim.vpn), pid, va / vm.pageSize, r.pa / vm.pageSize, vm.time)
        && 0 <= victim.vpn < |vm.disk|
        && vm.disk == old(vm.disk)[victim.vpn := old(vm.physicalMemory[r.pa / vm.pageSize])]
      // The cascade on the physical address, as `CacheHierarchy.Access` gives it.
      ensures r.Accessed? ==>
        && r.level == old(caches.Resolve(r.pa))
        && caches.totalCycles == old(caches.totalCycles)
             + CascadeCost(r.level, caches.l1.hitLatency, caches.l2.hitLatency, caches.l3.hitLatency)
        && caches.l1.Contains(r.pa)
        && caches.l1.hits == old(caches.l1.hits) + 1
        && caches.l1.misses == old(caches.l1.misses) + (if r.level == L1Hit then 0 else 1)
        && Touched(caches.l1, old(caches.l1.Rows()), old(caches.l1.globalTime), r.pa, r.level != L1Hit)
      ensures r.Accessed? && r.level == L1Hit ==> unchanged(caches.l2, caches.l2.sets)
      ensures r.Accessed? && r.level != L1Hit ==>
        && caches.l2.Contains(r.pa)
        && caches.l2.hits == old(caches.l2.hits) + 1
        && caches.l2.misses == old(caches.l2.misses) + (if r.level == L2Hit then 0 else 1)
        && Touched(caches.l2, old(caches.l2.Rows()), old(caches.l2.globalTime), r.pa, r.level != L2Hit)
      ensures r.Accessed? && (r.level == L1Hit || r.level == L2Hit) ==> unchanged(caches.l3, caches.l3.sets)
      ensures r.Accessed? && (r.level == L3Hit || r.level == MemoryAccess) ==>
        && caches.l3.Contains(r.pa)
        && caches.l3.hits == old(caches.l3.hits) + 1
        && caches.l3.misses == old(caches.l3.misses) + (if r.level == L3Hit then 0 else 1)
        && Touched(caches.l3, old(caches.l3.Rows()), old(caches.l3.globalTime), r.pa, r.level == MemoryAccess)
    {
      if pid < 0 || pid >= numProcesses {
        return InvalidPid, map[], 0;
      }
      var pa: nat;
      pa, swept, steps := vm.Translate(pid, va);
      var level := caches.Access(pa);
      r := Accessed(pa, level);
    }
  }
}
