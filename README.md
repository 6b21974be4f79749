# Memory hierarchy simulator, modelled in Dafny

This project models the core of a teaching simulator of a computer's memory
system, and proves properties of the model. The simulator has five parts:

- **Set-associative caches** (`cache.cpp`). A cache has `numSets` sets of
  `associativity` ways each. The block number of an address gives the set
  index and the tag. A hit refreshes the line's use time and use count. A miss
  fills the lowest invalid way, or else the way with the least key: arrival
  time under FIFO, last use under LRU, use count under LFU, the lowest way
  among equals. Every access ticks the cache clock and adds the hit latency.
- **The three-level cascade** (`main.cpp`). It probes L1, L2 and L3 in turn
  and charges the latency of every level probed, plus 100 cycles for main
  memory on a full miss. It then re-accesses the shallower levels. Cache mode
  builds the three caches from the `init` command. Virtual-memory mode uses a
  fixed configuration: 32 KiB 4-way, 256 KiB 8-way and 2 MiB 16-way caches,
  64-byte blocks, LRU.
- **Demand paging** (`virtual_memory.cpp`). There is one page table per
  process and one frame table. A page hit updates the entry's use time and
  reference bit. A page fault takes the lowest free frame. When no frame is
  free, it evicts a victim, chosen by FIFO or LRU (the least timestamp) or by
  CLOCK (a sweeping hand that clears reference bits). The victim is written
  back to disk before the new page is loaded.
- **A contiguous allocator** (`memory.cpp`). It keeps a list of blocks and
  allocates by first, best or worst fit, splitting the chosen block. Freeing
  a block merges it with free list neighbours. All instances share three
  request counters.
- **A buddy allocator** (`buddy.cpp`). It keeps free sets per order. An
  allocation takes the lowest free address of the lowest non-empty order that
  is large enough, then splits it down. Deallocation merges a block with its
  free buddy upward.

The Dafny modules follow those files:

| file | module | models |
|---|---|---|
| `cache.dfy` | `CacheSim` | `cache.cpp`: class `Cache` over an `array2` of lines |
| `hierarchy.dfy` | `Simulator` | `main.cpp`: `CacheHierarchy` (the cascade) and `VmSimulation` (virtual-memory mode) |
| `virtual_memory.dfy` | `VirtualMem` | `virtual_memory.cpp`: class `VirtualMemory` |
| `memory.dfy` | `Contiguous` | `memory.cpp`: class `PhysicalMemory` and the shared counters |
| `buddy.dfy` | `Buddy` | `buddy.cpp`: class `BuddyAllocator` |
| `scan.dfy`, `arith.dfy` | `Scan`, `Arith` | shared definitions: the first minimum of a sequence, facts about division |

Two behaviours of the code are easy to miss:

- The re-accesses of the cascade (main.cpp:224-240) count as **hits**. A
  level whose probe missed has already installed the line, so its re-access
  finds it. `Simulator.CacheHierarchy.Access` proves this: a level that
  missed gains one miss and one hit.
- The buddy allocator takes its minimum block from the user unchecked
  (main.cpp:286-292). Its block sizes are that minimum doubled, so they are
  powers of two only when the minimum is. This is where the buddy finding
  below comes from.

The allocator classes run the code as written, including both findings
below. The corrected definitions stand beside them, with their properties
proved.

Each class's invariant `Valid()` holds what the source keeps implicitly:
- Cache: the hit and miss counters sum to the clock, and the valid ways of a
  set carry distinct tags.
- Paging: occupied frames and valid page-table entries correspond one to one.
- Contiguous allocator: the block sizes add up to the memory size, and the
  used ids are distinct and below the next id. The blocks need not lie back
  to back, since the split as written breaks that.
- Buddy allocator: the top order is the one `get_order` gives for the total
  size.

## Model

| member | source | states |
|---|---|---|
| `CacheSim.SetIndex` | cache.cpp:22-25 | the set index of an address is always a valid set |
| `CacheSim.Tag` | cache.cpp:27-30 | the tag is the block number divided by the number of sets, rounded down |
| `CacheSim.AddressDecomposition` | cache.cpp:22-30 | tag times the number of sets plus the set index is exactly the block number |
| `CacheSim.SameLineIffSameBlock` | cache.cpp:22-30 | two addresses map to the same set and tag if and only if they lie in the same block |
| `CacheSim.VictimUnique` | cache.cpp:33-90 | the victim rule (lowest invalid way, else the lowest way with the least key) names at most one way |
| `CacheSim.LruSparesMostRecent` | cache.cpp:53-70 | with two or more ways, LRU never evicts the line used most recently |
| `CacheSim.RefreshKeepsInvariants` | cache.cpp:101-110 | a hit keeps tags distinct and no timestamp in the future, and leaves the touched line the most recent |
| `CacheSim.FillKeepsInvariants` | cache.cpp:113-131 | a miss on an absent tag that overwrites the victim keeps tags distinct and leaves the new line resident and most recent |
| `CacheSim.Cache.constructor` | cache.cpp:4-20 | `numSets` is the cache size divided by block size and associativity; every way starts invalid and all counters are zero |
| `CacheSim.Cache.FindVictim` | cache.cpp:33-90 | the returned way is the policy's victim: the lowest invalid way, or else the first way whose FIFO, LRU or LFU key is least |
| `CacheSim.Cache.FindWay` | cache.cpp:100-110 | reports a hit if and only if a valid way of the set carries the tag, and returns that way |
| `CacheSim.Cache.Refresh` | cache.cpp:94-110 | the hit path: one more tick and hit, the matching way gets the new time and one more use, and every other set is unchanged |
| `CacheSim.Cache.Fill` | cache.cpp:94-131 | the miss path: one more tick and miss, the victim way becomes a new line for the tag, and every other set is unchanged |
| `CacheSim.Cache.Access` | cache.cpp:92-132 | the result is a hit exactly when the block was resident; afterwards it is resident and most recent, the counters and cycles advance, and the invariant holds |
| `Simulator.CacheHierarchy.Init` | main.cpp:191-199 | the init command builds three empty caches with the given cache sizes, shared block size, ways, latencies and one policy, each with cache size / block size / ways sets, so every address misses everywhere, and resets the cycle total |
| `Simulator.CacheHierarchy.Standard` | main.cpp:406-428 | the fixed configuration has 32 KiB, 256 KiB and 2 MiB caches with 64-byte blocks, hence 128, 512 and 2048 sets, 4, 8 and 16 ways, latencies 1, 5 and 20, LRU, and starts empty |
| `Simulator.CacheHierarchy.Access` | main.cpp:217-243 | the access resolves at the first level holding the block; the cycles charged are that level's cascade cost; each probed level ends up holding the block, with one more hit and, if its probe missed, one more miss; in each probed level no other set changes, the block's set is refreshed (or filled with the victim rule and then refreshed), and the block's line is the most recent; unprobed levels are untouched |
| `Simulator.CacheHierarchy.BelowL1` | main.cpp:222-243 | after an L1 miss: the L2 hit and the refill of L1, or the deeper cascade, with the counters and the per-set effect of each level |
| `Simulator.CacheHierarchy.FromL2` | main.cpp:222-227 | an L2 hit charges the L1 and L2 latencies and re-accesses L1, which counts a hit and refreshes only the block's set |
| `Simulator.CacheHierarchy.BelowL2` | main.cpp:228-243 | after L1 and L2 missed: the L3 hit or the memory access, then the refill of L2 and L1, with the counters and the per-set effect of each level |
| `Simulator.CacheHierarchy.FromMemory` | main.cpp:235-242 | a full miss charges main memory and re-accesses L3, L2 and L1, each counting a hit and refreshing only the block's set |
| `Simulator.CacheHierarchy.RefillL2L1` | main.cpp:231-232 | re-accessing L2 and L1 after they missed counts one hit in each and no miss, and refreshes only the block's set, leaving its line the most recent |
| `Simulator.CacheHierarchy.AccessTwice` | main.cpp:217-243 | the second of two back-to-back accesses to an address is an L1 hit that costs the L1 latency alone |
| `Simulator.VmSimulation.constructor` | main.cpp:393-428 | builds the pager with every frame free, zero-filled memory and disk and all counters and the hand at zero, creates processes 0 to n-1 with every page unloaded, and builds the standard hierarchy (32 KiB, 256 KiB and 2 MiB with 64-byte blocks, 128, 512 and 2048 sets, 4, 8 and 16 ways, latencies 1, 5 and 20, LRU), empty and with zero cycles |
| `Simulator.VmSimulation.Access` | main.cpp:451-486 | rejects a pid outside 0 to n-1 and changes nothing; otherwise translates the address, with the page hit or fault, the counters, the new page tables and the victim exactly as `Translate` gives them, and runs the cascade on the physical address, with each level's counters and per-set effect as `CacheHierarchy.Access` gives them |
| `VirtualMem.SweptFrames` | virtual_memory.cpp:67-79 | a sweep of k frames clears exactly the frames the hand passed, and sets no bit |
| `VirtualMem.FullSweepClearsAll` | virtual_memory.cpp:67-79 | a full lap of the hand clears every reference bit, so the CLOCK search always ends |
| `VirtualMem.SweepPasses` | virtual_memory.cpp:67-79 | a set bit under the hand means the sweep has not yet done a full lap, and clearing that bit is the next sweep step |
| `VirtualMem.TouchKeepsBijection` | virtual_memory.cpp:102-107 | a page hit keeps frames and valid entries in one-to-one correspondence |
| `VirtualMem.ClearRefAt` | virtual_memory.cpp:76 | clearing the bit of the page under the hand changes that frame's bit only, and keeps the correspondence |
| `VirtualMem.InstallFreeKeepsBijection` | virtual_memory.cpp:129-137 | loading a page into a free frame keeps the correspondence |
| `VirtualMem.EvictInstallKeepsBijection` | virtual_memory.cpp:121-137 | invalidating the victim's entry and loading the new page into its frame keeps the correspondence |
| `VirtualMem.FrameOffset` | virtual_memory.cpp:97-106 | a physical address splits back into its frame number and the virtual offset |
| `VirtualMem.VirtualMemory.constructor` | virtual_memory.cpp:7-22 | no process, every frame free, memory and disk zero-filled, all counters and the hand at zero |
| `VirtualMem.VirtualMemory.CreateProcess` | virtual_memory.cpp:25-28 | installs a table of invalid entries for the pid, replacing any earlier one |
| `VirtualMem.VirtualMemory.FindFreeFrame` | virtual_memory.cpp:112-118 | returns the lowest free frame, and -1 if and only if every frame is occupied |
| `VirtualMem.VirtualMemory.ScanVictim` | virtual_memory.cpp:32-64 | FIFO and LRU pick the first frame whose page has the least arrival or last-use time |
| `VirtualMem.VirtualMemory.ClockVictim` | virtual_memory.cpp:67-79 | CLOCK stops within one lap at a frame whose bit is clear; the bits of the frames passed were set and are now cleared, nothing else changes, and the hand rests one past the victim |
| `VirtualMem.VirtualMemory.SweepStep` | virtual_memory.cpp:68-78 | one step of the sweep: stop at a clear bit, or clear it and move on, keeping the sweep's record |
| `VirtualMem.VirtualMemory.AdvanceHand` | virtual_memory.cpp:78 | the hand moves one frame on, wrapping after the last |
| `VirtualMem.VirtualMemory.RefUnderHand` | virtual_memory.cpp:70-71 | reads the reference bit of the page under the hand |
| `VirtualMem.VirtualMemory.ClearUnderHand` | virtual_memory.cpp:76 | clears the bit under the hand and no other |
| `VirtualMem.VictimChosenUnique` | virtual_memory.cpp:30-80 | the victim rule of each policy determines the victim, the number of frames the hand sweeps and the tables that result |
| `VirtualMem.SweptUnique` | virtual_memory.cpp:67-79 | a sweep that only clears reference bits is determined by the bits it leaves |
| `VirtualMem.StepsAgree` | virtual_memory.cpp:67-79 | the CLOCK hand never sweeps past a frame whose bit was clear, so it stops at the first one |
| `VirtualMem.VirtualMemory.FindVictimFrame` | virtual_memory.cpp:30-80 | returns the policy's victim: under FIFO and LRU nothing changes and the victim is the first frame whose page has the least arrival or last-use time; under CLOCK the victim is the first frame from the hand whose bit is clear, the bits passed are cleared and nothing else changes, and the hand rests one past the victim |
| `VirtualMem.VirtualMemory.PageOut` | virtual_memory.cpp:82-85 | the frame's contents replace the disk slot of the page number |
| `VirtualMem.VirtualMemory.PageIn` | virtual_memory.cpp:87-90 | the disk slot of the page number replaces the frame's contents |
| `VirtualMem.VirtualMemory.LoadIntoFree` | virtual_memory.cpp:129-137 | a fault served by a free frame installs the entry, records the occupant and loads the page |
| `VirtualMem.VirtualMemory.LoadIntoVictim` | virtual_memory.cpp:121-137 | a fault with every frame occupied evicts the policy's victim, as `FindVictimFrame` chooses it; the page tables become the swept tables with the victim's entry invalidated and the new entry installed; the victim is written back and the new page loaded |
| `VirtualMem.VirtualMemory.ReplaceVictim` | virtual_memory.cpp:123-137 | the write-back, invalidation and load for a chosen victim frame |
| `VirtualMem.VirtualMemory.ServeHit` | virtual_memory.cpp:94-107 | a page hit: one more tick and hit, the entry is touched and still maps to a frame that records it |
| `VirtualMem.VirtualMemory.ServeFault` | virtual_memory.cpp:94-139 | a page fault: one more tick and fault; the lowest free frame is used if there is one, else the policy's victim is evicted and written back, with the page tables given exactly as for `LoadIntoVictim`; the page is loaded and the entry installed |
| `VirtualMem.VirtualMemory.Translate` | virtual_memory.cpp:92-140 | the returned address is the entry's frame times the page size plus the offset; the entry is valid and its frame records the page; hit and fault paths as above, including the victim and the page tables after an eviction |
| `Contiguous.FitsUnique` | memory.cpp:17-125 | first, best and worst fit each name at most one block |
| `Contiguous.PlaceAsWritten` | memory.cpp:24-40 | allocation as the code does it: blocks outside the chosen one stay in place; an exact fit becomes the used block; otherwise the free remainder comes first and the used piece, at the chosen block's start, after it |
| `Contiguous.PlaceEffect` | memory.cpp:24-40 | allocation as written keeps the total size and distinct ids and adds exactly the new id |
| `Contiguous.Place` | memory.cpp:35-39 | the corrected split: blocks outside the chosen one stay in place and the used piece, at the chosen block's start, comes first |
| `Contiguous.PlaceReorders` | memory.cpp:35-39 | the corrected split holds the same blocks as the split as written, with the two halves swapped |
| `Contiguous.PlaceTiles` | memory.cpp:35-39 | the corrected split keeps the blocks back to back in address order |
| `Contiguous.Release` | memory.cpp:127-157 | deallocation removes at most two blocks; the freed block ends up free, at its own position or merged into a free predecessor; no block before it or after its successor changes |
| `Contiguous.ReleaseEffect` | memory.cpp:127-157 | deallocation keeps the total size and distinct ids and removes exactly the freed id |
| `Contiguous.FreeAtEffect` | memory.cpp:133-134 | marking a used block free removes its id and keeps the total |
| `Contiguous.MergeNextEffect` | memory.cpp:136-142 | merging with a free successor keeps the total and the used ids |
| `Contiguous.MergePrevEffect` | memory.cpp:144-153 | merging into a free predecessor keeps the total and the used ids |
| `Contiguous.ReleaseTiles` | memory.cpp:127-157 | on blocks lying back to back, deallocation keeps them so, and each merge joins blocks adjacent in memory; with the corrected split the blocks always lie back to back |
| `Contiguous.SplitOrderLosesAddresses` | memory.cpp:35-39 | with the split as written, allocating and freeing 10 bytes of a 100-byte memory leaves one block claiming [10, 110); with the corrected split the memory is restored |
| `Contiguous.IndexOfUsed` | memory.cpp:129-131 | the position of the first used block with the id, or -1 exactly when no used block has it |
| `Contiguous.AllocStats.constructor` | memory.cpp:5-7 | the three shared counters start at zero |
| `Contiguous.PhysicalMemory.constructor` | memory.cpp:9-15 | one free block covering the whole memory, and the next id is 1 |
| `Contiguous.PhysicalMemory.FirstFitIndex` | memory.cpp:20-22 | the first free block large enough, or -1 exactly when none fits |
| `Contiguous.PhysicalMemory.BestFitIndex` | memory.cpp:50-61 | a smallest fitting block, the earliest among equals, or -1 exactly when none fits |
| `Contiguous.PhysicalMemory.WorstFitIndex` | memory.cpp:89-101 | a largest fitting block, the earliest among equals, or -1 exactly when none fits |
| `Contiguous.PhysicalMemory.Commit` | memory.cpp:24-40 | the success path: takes the next id, counts a success and places the request with the split as written |
| `Contiguous.PhysicalMemory.AllocateFirstFit` | memory.cpp:17-46 | counts the request; fails with -1 and changes no block exactly when nothing fits; otherwise places the request in the first-fit block under a new id |
| `Contiguous.PhysicalMemory.AllocateBestFit` | memory.cpp:48-85 | the same, in the best-fit block |
| `Contiguous.PhysicalMemory.AllocateWorstFit` | memory.cpp:87-125 | the same, in the worst-fit block |
| `Contiguous.PhysicalMemory.FindUsed` | memory.cpp:129-131 | the scan finds the first used block with the id |
| `Contiguous.PhysicalMemory.Deallocate` | memory.cpp:127-157 | an unknown id changes nothing; otherwise the first used block with the id is freed and merged, the id disappears, and the invariant (sizes add up to the memory, distinct ids) holds |
| `Buddy.BlockSize` | buddy.cpp:24-27 | a block of any order holds at least the minimum block |
| `Buddy.BlockSizeIncreasing` | buddy.cpp:24-27 | higher orders have strictly larger blocks |
| `Buddy.BlockSizeCompose` | buddy.cpp:24-27 | with a power-of-two minimum block, order sizes are powers of two |
| `Buddy.OrderFrom` | buddy.cpp:12-22 | the counting loop ends at an order whose block holds the size while the previous one does not |
| `Buddy.Order` | buddy.cpp:12-22 | the order returned holds the size, and the order below it does not |
| `Buddy.OrderIsLeast` | buddy.cpp:12-22 | no lower order holds the size, and the order with both properties is unique |
| `Buddy.GetOrder` | buddy.cpp:12-22 | the loop computes that least order |
| `Buddy.XorBuddy` | buddy.cpp:29-34 | the buddy computed by XOR differs from the block's own address exactly when the block size is not zero |
| `Buddy.XorSelfInverse` | buddy.cpp:29-34 | XOR with the same value twice gives back the original |
| `Buddy.XorPow2` | buddy.cpp:29-34 | XOR with a power of two adds it or subtracts it according to that bit |
| `Buddy.XorBuddyInvolutive` | buddy.cpp:29-34 | the XOR buddy of the XOR buddy is the address itself |
| `Buddy.XorBuddyIsBuddy` | buddy.cpp:29-34 | with a power-of-two minimum block, the XOR buddy is the other half of the parent block |
| `Buddy.XorBuddyMisses` | buddy.cpp:29-34 | with minimum block 3, the XOR buddy of the block at 9 is 10, which is not block-aligned; the true buddy is 6; freeing order-0 blocks 6 and then 9 leaves both on the order-0 list |
| `Buddy.BuddyPairs` | buddy.cpp:29-34 | for an aligned block, the buddy is aligned, the buddy of the buddy is the block, and the lower of the two starts the parent block |
| `Buddy.Available` | buddy.cpp:40-46 | the order reached is the lowest non-empty order at or above the request's, or one past the top when all are empty |
| `Buddy.Least` | buddy.cpp:48 | the address taken is the smallest free address of that order |
| `Buddy.SplitDown` | buddy.cpp:48-56 | the last split leaves the buddy of the block kept free at the requested order |
| `Buddy.SplitDownEffect` | buddy.cpp:48-56 | splitting from order `cur` down to `order` adds exactly the upper half at each order in between, and changes nothing else |
| `Buddy.Coalesce` | buddy.cpp:66-79 | the merge loop climbs from the block's order, never past the top order, and only towards lower addresses |
| `Buddy.CoalesceFrame` | buddy.cpp:66-79 | the merge loop only takes buddies out, only at the orders it climbs through, and leaves every other order alone |
| `Buddy.CoalesceBelow` | buddy.cpp:66-79 | the merge loop leaves every order below the freed block's alone |
| `Buddy.Released` | buddy.cpp:61-80 | after a free, the block, merged or not, is free at its order or above, at its address or below, and the orders below its own are untouched |
| `Buddy.CoalesceChain` | buddy.cpp:66-79 | freeing the order-j block at 0 while every upper half above it is free merges all the way to the top order |
| `Buddy.RoundTrip` | buddy.cpp:36-79 | on a fresh allocator, allocating any size that fits and freeing it restores a single free block at 0 of the top order |
| `Buddy.BuddyAllocator.constructor` | buddy.cpp:6-10 | the top order is the least one whose block covers the total size, and the whole memory is one free block at 0 |
| `Buddy.BuddyAllocator.Allocate` | buddy.cpp:36-59 | out of memory, with nothing changed, exactly when no order from the request's up has a free block; otherwise the lowest free address of the lowest such order is taken, split down and recorded |
| `Buddy.BuddyAllocator.SplitFrom` | buddy.cpp:50-56 | the split loop leaves the free lists that `SplitDown` gives |
| `Buddy.BuddyAllocator.Deallocate` | buddy.cpp:61-80 | invalid, with nothing changed, exactly when the address is not allocated; otherwise the record is removed and the block merged upward with free XOR buddies |
| `Buddy.BuddyAllocator.AllocateThenFree` | buddy.cpp:36-80 | on a fresh allocator, an allocation returns address 0, and freeing it restores the initial free lists |

## Left out

- Menus, command parsing, printing, the statistics output and every `dump`
  function are left out. Only the state they read is modelled.
- Page contents are modelled as sequences of bytes, copied whole. The byte
  copy itself (`memcpy`) is not modelled.
- Integers are unbounded. The model has no 64-bit wrap-around of the clocks,
  cycle totals or addresses, and no overflow of `min_block_size << order`.
- Undefined behaviour in the source is excluded by preconditions:
  - `CacheSim.Cache.constructor`: requires a non-zero block size and
    associativity, and at least one set. The source would divide by zero.
  - `VirtualMem.VirtualMemory.constructor`: requires at least one frame and
    a non-zero page size.
  - `Simulator.VmSimulation.constructor`: requires the same, since it builds
    the pager with the frame count and page size it is given.
  - `VirtualMem.VirtualMemory.Translate`: requires a known pid and a page
    number inside its table. The source indexes past the end otherwise.
  - `Simulator.VmSimulation.Access`: requires the page number of a valid pid
    to be in range, for the same reason. Only the pid is checked in the source.
  - `VirtualMem.VirtualMemory.CreateProcess`: requires that the pid is not
    -1, the marker of a free frame, that the pid owns no frame, and that its
    table is no longer than the disk. Re-creating a
    process with resident pages would leave frames pointing at entries that
    are gone.
  - `Buddy.GetOrder` and `Buddy.BuddyAllocator.constructor`: require a
    non-zero minimum block. With a zero minimum block the source loops
    forever for any non-zero size. The constructor calls it on the total
    size. For size 0 the source returns order 0; the model leaves that case
    out.
- The `UINT64_MAX` starting value of the FIFO, LRU and LFU scans is replaced
  by "take the first candidate". The two differ only when a key reaches
  2^64-1.
- The static request counters of `memory.cpp` are modelled as one
  `AllocStats` object that every allocation updates.
- `std::list` is modelled as a sequence, and `std::set` and `std::map` as
  Dafny sets and maps.
- Map entries that `operator[]` creates empty are not modelled. A missing
  buddy order reads as an empty set. These entries are visible only in
  `dump`.
- The buddy allocator's exceptions are modelled as results: `OutOfMemory`
  for allocation, `InvalidFree` for deallocation.
- The disk is modelled as in the source: one slot per page number, shared
  by all processes.
- `Buddy.BuddyAllocator.Allocate`, `Buddy.BuddyAllocator.Deallocate`: they do
  not prove that free and allocated blocks never overlap after arbitrary
  sequences of calls. The state after each call is given exactly; overlap
  freedom is proved only for the round trip from a fresh allocator.
- Cache lines carry metadata only. The source does not store the cached
  data either.

## Findings

| source | as written | input that shows it | evidently intended | confidence | as-written member | corrected member |
|---|---|---|---|---|---|---|
| memory.cpp:35-39 | a split inserts the free remainder in front of the used piece, although the piece has the lower address | a fresh 100-byte memory: allocate 10 bytes by first fit, then free them; the merge leaves one free block claiming [10, 110), so bytes 0-9 are lost and the block runs past the end | the used piece first, then the remainder, so that list neighbours are memory neighbours, as `Contiguous.Place` does | high, not executed | `Contiguous.SplitOrderLosesAddresses` | `Contiguous.PlaceTiles` |
| buddy.cpp:29-34 | the buddy is the address XOR the block size | minimum block 3: the order-0 block at 9 gets buddy 9 XOR 3 = 10, which is not a block boundary; its real buddy is 6, so blocks 6 and 9 never merge | the other half of the parent block: add the block size when the block index is even, subtract it when odd, as `Buddy.BuddyOf` does | medium, not executed | `Buddy.XorBuddyMisses` | `Buddy.BuddyPairs` |

The first finding affects every split. A free remainder sits before its used
piece, so the piece merges with a free block that lies after it in memory.
`Contiguous.PhysicalMemory` runs the split as written. The corrected split
keeps the blocks back to back: `Contiguous.PlaceTiles` and
`Contiguous.ReleaseTiles` prove it for every allocation and deallocation.

The second finding matters only when the minimum block is not a power of
two. `Buddy.BuddyAllocator` merges with the XOR buddy, as written. The source comment assumes one, but the simulator reads the minimum
block from the user without checking it. `Buddy.XorBuddyIsBuddy` proves that
both rules agree for power-of-two minimum blocks.
