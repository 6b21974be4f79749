/** The buddy allocator (buddy.cpp, include/buddy.h): blocks of
    `min_block_size << order` bytes, free addresses kept per order, splitting
    on allocation and merging with the buddy on deallocation. */
module Buddy {
  import opened Arith

  /** `min_block_size << k`: the minimum block doubled `k` times. */
  function BlockSize(minBlock: nat, k: nat): (s: nat)
    ensures s >= minBlock
    decreases k
  {
    if k == 0 then minBlock else 2 * BlockSize(minBlock, k - 1)
  }

  /** Larger orders have strictly larger blocks. */
  lemma {:induction false} BlockSizeIncreasing(minBlock: nat, j: nat, k: nat)
    requires minBlock > 0 && j < k
    ensures BlockSize(minBlock, j) < BlockSize(minBlock, k)
    decreases k
  {
    if j < k - 1 {
      BlockSizeIncreasing(minBlock, j, k - 1);
    }
  }

  /** A power-of-two minimum block `2^j` has blocks `2^(j + k)`. */
  lemma {:induction false} BlockSizeCompose(j: nat, k: nat)
    ensures BlockSize(BlockSize(1, j), k) == BlockSize(1, j + k)
    decreases k
  {
    if k > 0 {
      BlockSizeCompose(j, k - 1);
    }
  }

  /** The counting loop of `get_order`, continued from order `k`. */
  function OrderFrom(minBlock: nat, size: nat, k: nat): (r: nat)
    requires minBlock > 0 && (k == 0 || BlockSize(minBlock, k - 1) < size)
    ensures r >= k && BlockSize(minBlock, r) >= size
    ensures r == 0 || BlockSize(minBlock, r - 1) < size
    decreases size - BlockSize(minBlock, k)
  {
    if BlockSize(minBlock, k) >= size then k else OrderFrom(minBlock, size, k + 1)
  }

  /** `get_order(size)`: the least order whose block holds `size` bytes. */
  function Order(minBlock: nat, size: nat): (k: nat)
    requires minBlock > 0
    ensures BlockSize(minBlock, k) >= size
    ensures k == 0 || BlockSize(minBlock, k - 1) < size
  {
    OrderFrom(minBlock, size, 0)
  }

  /** No smaller order holds `size` bytes, and any order meeting the two
      conditions of `Order` is `Order`. */
  lemma OrderIsLeast(minBlock: nat, size: nat, j: nat)
    requires minBlock > 0
    ensures j < Order(minBlock, size) ==> BlockSize(minBlock, j) < size
    ensures BlockSize(minBlock, j) >= size && (j == 0 || BlockSize(minBlock, j - 1) < size) ==>
      j == Order(minBlock, size)
  {
    var k := Order(minBlock, size);
    if j + 1 < k {
      BlockSizeIncreasing(minBlock, j, k - 1);
    }
    if k + 1 < j {
      BlockSizeIncreasing(minBlock, k, j - 1);
    }
  }

  /** `get_order` as the loop it is. */
  method GetOrder(minBlock: nat, size: nat) returns (order: nat)
    requires minBlock > 0
    ensures order == Order(minBlock, size)
  {
    order := 0;
    var block := minBlock;
    while block < size
      invariant block == BlockSize(minBlock, order)
      invariant order == 0 || BlockSize(minBlock, order - 1) < size
      decreases size - block
    {
      block := block * 2;
      order := order + 1;
    }
    OrderIsLeast(minBlock, size, order);
  }

  /** Bitwise exclusive or of two naturals, bit by bit from the lowest. */
  function Xor(a: nat, b: nat): nat
    decreases a + b
  {
    if a == 0 then b
    else if b == 0 then a
    else 2 * Xor(a / 2, b / 2) + (if a % 2 == b % 2 then 0 else 1)
  }

  lemma {:induction false} XorSelf(a: nat)
    ensures Xor(a, a) == 0
    decreases a
  {
    if a > 0 {
      XorSelf(a / 2);
    }
  }

  /** Exclusive or with the same value twice gives back the original. */
  lemma {:induction false} XorSelfInverse(a: nat, b: nat)
    ensures Xor(Xor(a, b), b) == a
    decreases a + b
  {
    if a == 0 {
      XorSelf(b);
    } else if b != 0 {
      var c := Xor(a, b);
      XorSelfInverse(a / 2, b / 2);
      assert c / 2 == Xor(a / 2, b / 2);
      assert c % 2 == if a % 2 == b % 2 then 0 else 1;
    }
  }

  lemma DivHalf(a: nat, y: nat)
    requires y > 0
    ensures (a / 2) / y == a / (2 * y)
  {
    var q, r1, r2 := (a / 2) / y, (a / 2) % y, a % 2;
    assert a / 2 == q * y + r1;
    assert 2 * (q * y) == q * (2 * y);
    DivModUnique(a, 2 * y, q, 2 * r1 + r2);
  }

  /** Exclusive or leaves a value unchanged only with zero. */
  lemma {:induction false} XorFixed(a: nat, b: nat)
    ensures Xor(a, b) == a <==> b == 0
    decreases a + b
  {
    if a != 0 && b != 0 {
      XorFixed(a / 2, b / 2);
    }
  }

  /** Exclusive or with 1 flips the lowest bit. */
  lemma XorOne(a: nat)
    ensures Xor(a, 1) == if a % 2 == 0 then a + 1 else a - 1
  {
    if a > 0 {
      assert Xor(a / 2, 0) == a / 2;
    }
  }

  /** Exclusive or with `2^k` flips bit `k`: it adds `2^k` when that bit is
      clear and subtracts it when it is set. */
  lemma {:induction false} XorPow2(a: nat, k: nat)
    ensures Xor(a, BlockSize(1, k)) ==
      if a / BlockSize(1, k) % 2 == 0 then a + BlockSize(1, k) else a - BlockSize(1, k)
    decreases k
  {
    var p := BlockSize(1, k);
    if k == 0 {
      assert p == 1 && a / p == a;
      XorOne(a);
    } else if a == 0 {
      DivModUnique(a, p, 0, 0);
    } else {
      var h := BlockSize(1, k - 1);
      assert p == 2 * h && p / 2 == h && p % 2 == 0;
      assert Xor(a, p) == 2 * Xor(a / 2, h) + a % 2;
      XorPow2(a / 2, k - 1);
      Recombine(a, h, Xor(a / 2, h));
    }
  }

  /** Flipping bit `j` of `a / 2` and shifting back flips bit `j + 1` of `a`. */
  lemma Recombine(a: nat, h: nat, x: int)
    requires h > 0
    requires x == if a / 2 / h % 2 == 0 then a / 2 + h else a / 2 - h
    ensures 2 * x + a % 2 == if a / (2 * h) % 2 == 0 then a + 2 * h else a - 2 * h
  {
    DivHalf(a, h);
  }

  /** `get_buddy` as written: `addr ^ (min_block_size << order)`. */
  function XorBuddy(addr: nat, minBlock: nat, k: nat): (b: nat)
    ensures b == addr <==> BlockSize(minBlock, k) == 0
  {
    XorFixed(addr, BlockSize(minBlock, k));
    Xor(addr, BlockSize(minBlock, k))
  }

  /** Buddies pair up: the XOR buddy of the XOR buddy is the address itself. */
  lemma XorBuddyInvolutive(addr: nat, minBlock: nat, k: nat)
    ensures XorBuddy(XorBuddy(addr, minBlock, k), minBlock, k) == addr
  {
    XorSelfInverse(addr, BlockSize(minBlock, k));
  }

  /** The buddy of the order-`k` block at `addr`: the other half of the
      order-`k + 1` block that contains it. */
  function BuddyOf(addr: nat, minBlock: nat, k: nat): nat
    requires minBlock > 0
  {
    var bs := BlockSize(minBlock, k);
    if addr / bs % 2 == 0 then addr + bs
    else
      MulAtLeast(addr / bs, bs);
      addr - bs
  }

  /** The two halves `lo` and `lo + bs` of a block of `2 * bs` bytes at
      `lo`: their quotients by `bs` are even and odd, and both are aligned. */
  lemma HalvesOf(lo: nat, bs: nat, p: nat)
    requires bs > 0 && lo == p * (2 * bs)
    ensures lo / bs % 2 == 0 && (lo + bs) / bs % 2 == 1
    ensures lo % bs == 0 && (lo + bs) % bs == 0 && lo % (2 * bs) == 0
  {
    assert lo == (2 * p) * bs;
    DivModUnique(lo, bs, 2 * p, 0);
    assert lo + bs == (2 * p + 1) * bs;
    DivModUnique(lo + bs, bs, 2 * p + 1, 0);
    DivModUnique(lo, 2 * bs, p, 0);
  }

  /** For an aligned block, the buddy is aligned, its buddy is the block
      again, and the lower of the two starts their common parent block. */
  lemma BuddyPairs(addr: nat, minBlock: nat, k: nat)
    requires minBlock > 0 && addr % BlockSize(minBlock, k) == 0
    ensures BuddyOf(addr, minBlock, k) % BlockSize(minBlock, k) == 0
    ensures BuddyOf(BuddyOf(addr, minBlock, k), minBlock, k) == addr
    ensures (if addr < BuddyOf(addr, minBlock, k) then addr else BuddyOf(addr, minBlock, k))
      % BlockSize(minBlock, k + 1) == 0
  {
    var bs := BlockSize(minBlock, k);
    assert BlockSize(minBlock, k + 1) == 2 * bs;
    var q := addr / bs;
    assert addr == q * bs;
    var p := q / 2;
    if q % 2 == 0 {
      assert q == 2 * p;
      MulAssoc(p, bs);
      HalvesOf(addr, bs, p);
      assert BuddyOf(addr, minBlock, k) == addr + bs;
      assert BuddyOf(addr + bs, minBlock, k) == addr;
    } else {
      assert q == 2 * p + 1;
      assert addr - bs == (2 * p) * bs;
      MulAssoc(p, bs);
      HalvesOf(addr - bs, bs, p);
      assert BuddyOf(addr, minBlock, k) == addr - bs;
      assert BuddyOf(addr - bs, minBlock, k) == addr;
    }
  }

  lemma MulAssoc(p: int, bs: int)
    ensures (2 * p) * bs == p * (2 * bs)
  {
  }

  /** With a power-of-two minimum block the XOR buddy is the buddy. */
  lemma XorBuddyIsBuddy(addr: nat, j: nat, k: nat)
    ensures XorBuddy(addr, BlockSize(1, j), k) == BuddyOf(addr, BlockSize(1, j), k)
  {
    BlockSizeCompose(j, k);
    XorPow2(addr, j + k);
  }

  /** With a minimum block of 3 the XOR buddy of the order-0 block at 9 is
      10, not a block boundary; its buddy is the block at 6. So with order-0
      blocks at 6 and 9 allocated, freeing 6 and then 9 leaves both on the
      order-0 list instead of merging them into the order-1 block at 6. */
  lemma XorBuddyMisses()
    ensures XorBuddy(9, 3, 0) == 10 && 10 % BlockSize(3, 0) != 0
    ensures BuddyOf(9, 3, 0) == 6 && BuddyOf(6, 3, 0) == 9
    ensures Released(map[], 6, 0, 3, 2) == map[0 := {6}]
    ensures Released(map[0 := {6}], 9, 0, 3, 2) == map[0 := {6, 9}]
  {
    assert Xor(2, 0) == 2;
    assert Xor(4, 1) == 2 * Xor(2, 0) + 1;
    assert Xor(9, 3) == 2 * Xor(4, 1);
    assert Xor(1, 0) == 1;
    assert Xor(3, 1) == 2 * Xor(1, 0);
    assert Xor(6, 3) == 2 * Xor(3, 1) + 1;
    assert XorBuddy(6, 3, 0) == 5;
    assert Coalesce(map[], 6, 0, 3, 2) == (map[], 6, 0);
    assert Coalesce(map[0 := {6}], 9, 0, 3, 2) == (map[0 := {6}], 9, 0);
    assert FreeIn(map[], 0) + {6} == {6};
    assert Released(map[], 6, 0, 3, 2) == map[][0 := {6}];
    assert FreeIn(map[0 := {6}], 0) + {9} == {6, 9};
    assert Released(map[0 := {6}], 9, 0, 3, 2) == map[0 := {6}][0 := {6, 9}];
  }

  /** The free addresses of order `k`; an order with no entry has none. */
  function FreeIn(lists: map<nat, set<nat>>, k: nat): set<nat>
  {
    if k in lists then lists[k] else {}
  }

  /** The lowest order from `k` to `maxOrder` with a free block, or
      `maxOrder + 1` when there is none. */
  function Available(lists: map<nat, set<nat>>, k: nat, maxOrder: nat): (r: nat)
    ensures k <= r && (k <= maxOrder + 1 ==> r <= maxOrder + 1)
    ensures r <= maxOrder ==> FreeIn(lists, r) != {}
    ensures forall j :: k <= j < r && j <= maxOrder ==> FreeIn(lists, j) == {}
    decreases maxOrder + 1 - k
  {
    if k > maxOrder then k
    else if FreeIn(lists, k) != {} then k
    else Available(lists, k + 1, maxOrder)
  }

  /** The smallest element of a non-empty set: `*set.begin()`. */
  function Least(s: set<nat>): (m: nat)
    requires s != {}
    ensures m in s && forall y :: y in s ==> m <= y
  {
    LeastExists(s);
    var m :| m in s && forall y :: y in s ==> m <= y;
    m
  }

  lemma LeastExists(s: set<nat>)
    requires s != {}
    ensures exists m :: m in s && forall y :: y in s ==> m <= y
  {
    var m := LeastOf(s);
  }

  /** A smallest element, found by taking one element out at a time. */
  lemma LeastOf(s: set<nat>) returns (m: nat)
    requires s != {}
    ensures m in s && forall y :: y in s ==> m <= y
    decreases |s|
  {
    var x :| x in s;
    var rest := s - {x};
    m := x;
    if rest != {} {
      var m' := LeastOf(rest);
      m := if x < m' then x else m';
    }
    forall y | y in s
      ensures m <= y
    {
      if y != x {
        assert y in rest;
      }
    }
  }

  /** The split loop of `allocate`, from order `cur` down to `order`: each
      step inserts the upper half `addr + BlockSize(cur - 1)` at order `cur - 1`. */
  function SplitDown(lists: map<nat, set<nat>>, addr: nat, minBlock: nat, cur: nat, order: nat)
    : (r: map<nat, set<nat>>)
    requires order <= cur
    // The last split leaves the buddy of the block kept free at `order`.
    ensures order < cur ==> addr + BlockSize(minBlock, order) in FreeIn(r, order)
    decreases cur - order
  {
    if cur == order then lists
    else
      var k := cur - 1;
      SplitDown(lists[k := FreeIn(lists, k) + {addr + BlockSize(minBlock, k)}], addr, minBlock, k, order)
  }

  /** Splitting adds one upper half at each order in `[order, cur)` and
      changes no other order. */
  lemma {:induction false} SplitDownEffect(lists: map<nat, set<nat>>, addr: nat, minBlock: nat, cur: nat, order: nat, k: nat)
    requires order <= cur
    ensures FreeIn(SplitDown(lists, addr, minBlock, cur, order), k) ==
      if order <= k < cur then FreeIn(lists, k) + {addr + BlockSize(minBlock, k)} else FreeIn(lists, k)
    decreases cur - order
  {
    if cur > order {
      var j := cur - 1;
      SplitDownEffect(lists[j := FreeIn(lists, j) + {addr + BlockSize(minBlock, j)}], addr, minBlock, j, order, k);
    }
  }

  /** The merge loop of `deallocate` from order `k`: while below `maxOrder`
      and the XOR buddy is free at this order, take the buddy out and
      continue from the lower of the two one order up. Yields the lists, the
      address and the order it stops at. */
  function Coalesce(lists: map<nat, set<nat>>, addr: nat, k: nat, minBlock: nat, maxOrder: nat)
    : (r: (map<nat, set<nat>>, nat, nat))
    // It climbs from `k`, never past `maxOrder`, only towards lower addresses.
    ensures k <= r.2 && (k <= maxOrder ==> r.2 <= maxOrder) && r.1 <= addr
    decreases maxOrder - k
  {
    if k < maxOrder && XorBuddy(addr, minBlock, k) in FreeIn(lists, k) then
      var buddy := XorBuddy(addr, minBlock, k);
      Coalesce(lists[k := FreeIn(lists, k) - {buddy}], if addr < buddy then addr else buddy, k + 1, minBlock, maxOrder)
    else (lists, addr, k)
  }

  /** Merging only takes buddies out, and only at the orders it climbs
      through; every other order keeps its free set. */
  lemma {:induction false} CoalesceFrame(lists: map<nat, set<nat>>, addr: nat, k: nat, minBlock: nat, maxOrder: nat, j: nat)
    ensures var (l, _, o) := Coalesce(lists, addr, k, minBlock, maxOrder);
      && (k <= j < o ==> FreeIn(l, j) <= FreeIn(lists, j))
      && (j < k || o <= j ==> FreeIn(l, j) == FreeIn(lists, j))
    decreases maxOrder - k
  {
    if k < maxOrder && XorBuddy(addr, minBlock, k) in FreeIn(lists, k) {
      var buddy := XorBuddy(addr, minBlock, k);
      CoalesceFrame(lists[k := FreeIn(lists, k) - {buddy}], if addr < buddy then addr else buddy, k + 1, minBlock, maxOrder, j);
    }
  }

  /** Merging from order `k` leaves every order below `k` alone. */
  lemma CoalesceBelow(lists: map<nat, set<nat>>, addr: nat, k: nat, minBlock: nat, maxOrder: nat)
    ensures forall j: nat :: j < k ==> FreeIn(Coalesce(lists, addr, k, minBlock, maxOrder).0, j) == FreeIn(lists, j)
  {
    forall j: nat | j < k
      ensures FreeIn(Coalesce(lists, addr, k, minBlock, maxOrder).0, j) == FreeIn(lists, j)
    {
      CoalesceFrame(lists, addr, k, minBlock, maxOrder, j);
    }
  }

  /** The free lists after `deallocate` of a block of order `k` at `addr`. */
  function Released(lists: map<nat, set<nat>>, addr: nat, k: nat, minBlock: nat, maxOrder: nat)
    : (r: map<nat, set<nat>>)
    // The freed block, merged or not, is free at its order or above, at its
    // address or below; the orders under it are untouched.
    ensures exists o, a :: k <= o && a <= addr && a in FreeIn(r, o)
    ensures forall j: nat :: j < k ==> FreeIn(r, j) == FreeIn(lists, j)
  {
    CoalesceBelow(lists, addr, k, minBlock, maxOrder);
    var (l, a, o) := Coalesce(lists, addr, k, minBlock, maxOrder);
    assert a in FreeIn(l[o := FreeIn(l, o) + {a}], o);
    l[o := FreeIn(l, o) + {a}]
  }

  /** A block at 0 of order `j` whose upper halves `BlockSize(k)` are free at
      every order `k` from `j` to `maxOrder - 1` merges all the way up. */
  lemma {:induction false} CoalesceChain(lists: map<nat, set<nat>>, minBlock: nat, j: nat, maxOrder: nat)
    requires j <= maxOrder
    requires forall k :: j <= k < maxOrder ==> FreeIn(lists, k) == {BlockSize(minBlock, k)}
    ensures var (l, a, o) := Coalesce(lists, 0, j, minBlock, maxOrder);
      && a == 0 && o == maxOrder
      && (forall k :: j <= k < maxOrder ==> FreeIn(l, k) == {})
      && (forall k: nat :: k < j || k >= maxOrder ==> FreeIn(l, k) == FreeIn(lists, k))
    decreases maxOrder - j
  {
    if j < maxOrder {
      assert XorBuddy(0, minBlock, j) == BlockSize(minBlock, j);
      var lists' := lists[j := FreeIn(lists, j) - {BlockSize(minBlock, j)}];
      CoalesceChain(lists', minBlock, j + 1, maxOrder);
    }
  }

  /** From a fresh allocator, allocating `size` bytes and freeing the block
      restores the single free block at 0 of order `maxOrder`. */
  lemma RoundTrip(minBlock: nat, maxOrder: nat, size: nat)
    requires minBlock > 0 && Order(minBlock, size) <= maxOrder
    ensures var initial := map[maxOrder := {0}];
      var order := Order(minBlock, size);
      && Available(initial, order, maxOrder) == maxOrder
      && Least(FreeIn(initial, maxOrder)) == 0
      && var split := SplitDown(initial[maxOrder := FreeIn(initial, maxOrder) - {0}], 0, minBlock, maxOrder, order);
         forall k: nat :: FreeIn(Released(split, 0, order, minBlock, maxOrder), k) == if k == maxOrder then {0} else {}
  {
    var initial := map[maxOrder := {0}];
    var order := Order(minBlock, size);
    var start := initial[maxOrder := FreeIn(initial, maxOrder) - {0}];
    var split := SplitDown(start, 0, minBlock, maxOrder, order);
    forall k: nat | true
      ensures FreeIn(split, k) == if order <= k < maxOrder then {BlockSize(minBlock, k)} else {}
    {
      SplitDownEffect(start, 0, minBlock, maxOrder, order, k);
    }
    CoalesceChain(split, minBlock, order, maxOrder);
    var (l, a, o) := Coalesce(split, 0, order, minBlock, maxOrder);
    var released := Released(split, 0, order, minBlock, maxOrder);
    assert released == l[maxOrder := FreeIn(l, maxOrder) + {0}];
    forall k: nat
      ensures FreeIn(released, k) == if k == maxOrder then {0} else {}
    {
      if k != maxOrder {
        assert FreeIn(released, k) == FreeIn(l, k);
      }
    }
  }

  datatype AllocResult = OutOfMemory | Allocated(addr: nat)
  datatype FreeResult = InvalidFree | Freed

  class BuddyAllocator {
    const totalSize: nat
    const minBlockSize: nat
    const maxOrder: nat
    var freeLists: map<nat, set<nat>>
    /** Allocated address to its order. */
    var allocations: map<nat, nat>

    ghost predicate Valid()
      reads this
    {
      minBlockSize > 0 && maxOrder == Order(minBlockSize, totalSize)
    }

    /** The free addresses of order `k`. */
    function Free(k: nat): set<nat>
      reads this
    {
      FreeIn(freeLists, k)
    }

    /** `max_order = get_order(total)`; the whole memory is one free block at
        0, the least block of the doubling series that covers `total`. */
    constructor (total: nat, minBlock: nat)
      requires minBlock > 0
      ensures Valid() && totalSize == total && minBlockSize == minBlock
      ensures maxOrder == Order(minBlock, total) && BlockSize(minBlock, maxOrder) >= total
      ensures freeLists == map[maxOrder := {0}] && allocations == map[]
    {
      totalSize := total;
      minBlockSize := minBlock;
      var k := GetOrder(minBlock, total);
      maxOrder := k;
      freeLists := map[k := {0}];
      allocations := map[];
    }

    /** Finds the lowest non-empty order at or above the request's order,
        takes its lowest address, splits it down to the request's order and
        records the allocation; "Out of memory" when every such list is empty. */
    method Allocate(size: nat) returns (r: AllocResult)
      requires Valid()
      modifies this`freeLists, this`allocations
      ensures var order := Order(minBlockSize, size);
        var top := Available(old(freeLists), order, maxOrder);
        && (r == OutOfMemory <==> top > maxOrder)
        && (r == OutOfMemory ==> freeLists == old(freeLists) && allocations == old(allocations))
        && (r.Allocated? ==>
              && r.addr == Least(old(Free(top)))
              && allocations == old(allocations)[r.addr := order]
              && freeLists == SplitDown(old(freeLists)[top := old(Free(top)) - {r.addr}], r.addr, minBlockSize, top, order))
    {
      var order := GetOrder(minBlockSize, size);
      var cur := order;
      while cur <= maxOrder && Free(cur) == {}
        invariant order <= cur
        invariant Available(freeLists, cur, maxOrder) == Available(freeLists, order, maxOrder)
        decreases maxOrder + 1 - cur
      {
        cur := cur + 1;
      }
      if cur > maxOrder {
        return OutOfMemory;
      }
      var addr := Least(Free(cur));
      freeLists := freeLists[cur := Free(cur) - {addr}];
      SplitFrom(addr, cur, order);
      allocations := allocations[addr := order];
      r := Allocated(addr);
    }

    /** The split loop of `allocate`: the block at `addr` of order `top` is
        halved down to `order`, each upper half going to its order's free set. */
    method SplitFrom(addr: nat, top: nat, order: nat)
      requires order <= top
      modifies this`freeLists
      ensures freeLists == SplitDown(old(freeLists), addr, minBlockSize, top, order)
    {
      var cur := top;
      while cur > order
        invariant order <= cur <= top
        invariant SplitDown(freeLists, addr, minBlockSize, cur, order) == SplitDown(old(freeLists), addr, minBlockSize, top, order)
        decreases cur
      {
        cur := cur - 1;
        var buddy := addr + BlockSize(minBlockSize, cur);
        freeLists := freeLists[cur := Free(cur) + {buddy}];
      }
    }

    /** Frees the block at `addr`, merging it with free buddies upward;
        "Invalid free" when `addr` is not allocations. */
    method Deallocate(addr: nat) returns (r: FreeResult)
      requires Valid()
      modifies this`freeLists, this`allocations
      ensures r == InvalidFree <==> addr !in old(allocations)
      ensures r == InvalidFree ==> freeLists == old(freeLists) && allocations == old(allocations)
      ensures r == Freed ==>
        && allocations == old(allocations) - {addr}
        && freeLists == Released(old(freeLists), addr, old(allocations)[addr], minBlockSize, maxOrder)
    {
      if addr !in allocations {
        return InvalidFree;
      }
      var order := allocations[addr];
      allocations := allocations - {addr};
      ghost var goal := Coalesce(freeLists, addr, order, minBlockSize, maxOrder);
      var a := addr;
      while order < maxOrder
        modifies this`freeLists
        invariant Coalesce(freeLists, a, order, minBlockSize, maxOrder) == goal
        decreases maxOrder - order
      {
        var buddy := XorBuddy(a, minBlockSize, order);
        if buddy !in Free(order) {
          break;
        }
        freeLists := freeLists[order := Free(order) - {buddy}];
        a := if a < buddy then a else buddy;
        order := order + 1;
      }
      freeLists := freeLists[order := Free(order) + {a}];
      r := Freed;
    }

    /** Allocation followed by freeing the same block, on a fresh allocator. */
    method AllocateThenFree(size: nat) returns (addr: nat)
      requires Valid() && freeLists == map[maxOrder := {0}] && allocations == map[]
      requires Order(minBlockSize, size) <= maxOrder
      modifies this`freeLists, this`allocations
      ensures addr == 0 && allocations == map[]
      ensures forall k :: Free(k) == if k == maxOrder then {0} else {}
    {
      RoundTrip(minBlockSize, maxOrder, size);
      var r := Allocate(size);
      addr := r.addr;
      var f := Deallocate(addr);
      assert allocations == map[0 := Order(minBlockSize, size)] - {0};
    }
  }
}
