/** The contiguous allocator (memory.cpp, memory.h): an ordered list of
    blocks, first/best/worst-fit allocation that splits a block, and
    deallocation that merges a freed block with its list neighbours. */
module Contiguous {

  /** The id carried by free blocks. */
  const NoId: int := -1

  /** A block of the list: `[start, start + size)`, free or used by `id`. */
  datatype Block = Block(start: nat, size: nat, free: bool, id: int)

  /** The sum of the sizes of all blocks. */
  function Total(bs: seq<Block>): nat
  {
    if bs == [] then 0 else bs[0].size + Total(bs[1..])
  }

  /** The ids of the used blocks. */
  function UsedIds(bs: seq<Block>): set<int>
  {
    if bs == [] then {} else (if bs[0].free then {} else {bs[0].id}) + UsedIds(bs[1..])
  }

  /** No id is carried by two used blocks. */
  predicate Distinct(bs: seq<Block>)
  {
    bs == [] || ((bs[0].free || bs[0].id !in UsedIds(bs[1..])) && Distinct(bs[1..]))
  }

  /** Sizes, used ids and distinctness of a concatenation. */
  lemma {:induction false} Append(a: seq<Block>, b: seq<Block>)
    ensures Total(a + b) == Total(a) + Total(b)
    ensures UsedIds(a + b) == UsedIds(a) + UsedIds(b)
    ensures Distinct(a + b) <==> Distinct(a) && Distinct(b) && UsedIds(a) !! UsedIds(b)
  {
    if a == [] {
      assert a + b == b;
    } else {
      assert (a + b)[1..] == a[1..] + b;
      Append(a[1..], b);
    }
  }

  lemma Splice(a: seq<Block>, m: seq<Block>, c: seq<Block>)
    ensures Total(a + m + c) == Total(a) + Total(m) + Total(c)
    ensures UsedIds(a + m + c) == UsedIds(a) + UsedIds(m) + UsedIds(c)
    ensures Distinct(a + m + c) <==>
      && Distinct(a) && Distinct(m) && Distinct(c)
      && UsedIds(a) !! UsedIds(m) && UsedIds(a) !! UsedIds(c) && UsedIds(m) !! UsedIds(c)
  {
    Append(a + m, c);
    Append(a, m);
  }

  lemma Single(x: Block)
    ensures Total([x]) == x.size
    ensures UsedIds([x]) == if x.free then {} else {x.id}
    ensures Distinct([x])
  {
    assert [x][1..] == [];
  }

  lemma Pair(x: Block, y: Block)
    ensures Total([x, y]) == x.size + y.size
    ensures UsedIds([x, y]) == UsedIds([x]) + UsedIds([y])
    ensures Distinct([x, y]) <==> x.free || y.free || x.id != y.id
  {
    assert [x, y] == [x] + [y];
    Append([x], [y]);
    Single(x);
    Single(y);
  }

  /** Splits `bs` around position `i`. */
  lemma Around(bs: seq<Block>, i: nat)
    requires i < |bs|
    ensures bs == bs[..i] + [bs[i]] + bs[i + 1..]
    ensures Total(bs) == Total(bs[..i]) + bs[i].size + Total(bs[i + 1..])
    ensures UsedIds(bs) == UsedIds(bs[..i]) + UsedIds([bs[i]]) + UsedIds(bs[i + 1..])
    ensures Distinct(bs) <==>
      && Distinct(bs[..i]) && Distinct(bs[i + 1..])
      && UsedIds(bs[..i]) !! UsedIds([bs[i]]) && UsedIds(bs[..i]) !! UsedIds(bs[i + 1..])
      && UsedIds([bs[i]]) !! UsedIds(bs[i + 1..])
  {
    AroundOne(bs, i);
    Splice(bs[..i], [bs[i]], bs[i + 1..]);
  }

  lemma UpdateSplit(bs: seq<Block>, i: nat, x: Block)
    requires i < |bs|
    ensures bs[i := x] == bs[..i] + [x] + bs[i + 1..]
  {
  }

  lemma AroundOne(bs: seq<Block>, i: nat)
    requires i < |bs|
    ensures bs == bs[..i] + [bs[i]] + bs[i + 1..]
  {
  }

  /** Replacing the middle part `m` of a list by `m2`. */
  lemma Swap(a: seq<Block>, m: seq<Block>, m2: seq<Block>, c: seq<Block>)
    requires Distinct(a + m + c) && Distinct(m2)
    requires UsedIds(m2) !! UsedIds(a) && UsedIds(m2) !! UsedIds(c)
    ensures Total(a + m2 + c) + Total(m) == Total(a + m + c) + Total(m2)
    ensures UsedIds(a + m + c) == UsedIds(a) + UsedIds(m) + UsedIds(c)
    ensures UsedIds(a + m2 + c) == UsedIds(a) + UsedIds(m2) + UsedIds(c)
    ensures UsedIds(m) !! UsedIds(a) && UsedIds(m) !! UsedIds(c)
    ensures Distinct(a + m2 + c)
  {
    Splice(a, m, c);
    Splice(a, m2, c);
  }

  /** The blocks lie back to back in list order, the first one at `from`:
      the list is ordered by address and covers `[from, from + Total(bs))`. */
  predicate Tiles(bs: seq<Block>, from: nat)
  {
    bs == [] || (bs[0].start == from && Tiles(bs[1..], from + bs[0].size))
  }

  lemma {:induction false} TilesAppend(a: seq<Block>, b: seq<Block>, from: nat)
    ensures Tiles(a + b, from) <==> Tiles(a, from) && Tiles(b, from + Total(a))
  {
    if a == [] {
      assert a + b == b;
    } else {
      assert (a + b)[1..] == a[1..] + b;
      TilesAppend(a[1..], b, from + a[0].size);
    }
  }

  lemma TilesPair(x: Block, y: Block, from: nat)
    ensures Tiles([x], from) <==> x.start == from
    ensures Tiles([x, y], from) <==> x.start == from && y.start == from + x.size
  {
    assert [x][1..] == [];
    assert [x, y][1..] == [y];
    assert [y][1..] == [];
    assert Tiles([y], from + x.size) <==> y.start == from + x.size;
  }

  lemma TilesSplice(a: seq<Block>, m: seq<Block>, c: seq<Block>, from: nat)
    ensures Tiles(a + m + c, from) <==>
      Tiles(a, from) && Tiles(m, from + Total(a)) && Tiles(c, from + Total(a) + Total(m))
  {
    TilesAppend(a + m, c, from);
    TilesAppend(a, m, from);
    Append(a, m);
  }

  /** Replacing the middle part `m` of a tiled list by a part `m2` of the
      same extent keeps the tiling. */
  lemma TilesSwap(a: seq<Block>, m: seq<Block>, m2: seq<Block>, c: seq<Block>, from: nat)
    requires Tiles(a + m + c, from) && Total(m2) == Total(m)
    requires Tiles(m, from + Total(a)) ==> Tiles(m2, from + Total(a))
    ensures Tiles(a + m2 + c, from)
  {
    TilesSplice(a, m, c, from);
    TilesSplice(a, m2, c, from);
  }

  predicate Fits(b: Block, req: nat)
  {
    b.free && b.size >= req
  }

  ghost predicate NoFit(bs: seq<Block>, req: nat)
  {
    forall j :: 0 <= j < |bs| ==> !Fits(bs[j], req)
  }

  /** First fit: the first block in list order that is free and large enough. */
  ghost predicate IsFirstFit(bs: seq<Block>, req: nat, i: int)
  {
    && 0 <= i < |bs| && Fits(bs[i], req)
    && forall j :: 0 <= j < i ==> !Fits(bs[j], req)
  }

  /** Best fit: a smallest fitting block, the earliest among equals. */
  ghost predicate IsBestFit(bs: seq<Block>, req: nat, i: int)
  {
    && 0 <= i < |bs| && Fits(bs[i], req)
    && (forall j :: 0 <= j < |bs| && Fits(bs[j], req) ==> bs[i].size <= bs[j].size)
    && (forall j :: 0 <= j < i && Fits(bs[j], req) ==> bs[i].size < bs[j].size)
  }

  /** Worst fit: a largest fitting block, the earliest among equals. */
  ghost predicate IsWorstFit(bs: seq<Block>, req: nat, i: int)
  {
    && 0 <= i < |bs| && Fits(bs[i], req)
    && (forall j :: 0 <= j < |bs| && Fits(bs[j], req) ==> bs[i].size >= bs[j].size)
    && (forall j :: 0 <= j < i && Fits(bs[j], req) ==> bs[i].size > bs[j].size)
  }

  /** Each strategy names at most one block. */
  lemma FitsUnique(bs: seq<Block>, req: nat, i: int, k: int)
    ensures IsFirstFit(bs, req, i) && IsFirstFit(bs, req, k) ==> i == k
    ensures IsBestFit(bs, req, i) && IsBestFit(bs, req, k) ==> i == k
    ensures IsWorstFit(bs, req, i) && IsWorstFit(bs, req, k) ==> i == k
  {
    if IsBestFit(bs, req, i) && IsBestFit(bs, req, k) {
      assert bs[i].size <= bs[k].size && bs[k].size <= bs[i].size;
    }
    if IsWorstFit(bs, req, i) && IsWorstFit(bs, req, k) {
      assert bs[i].size >= bs[k].size && bs[k].size >= bs[i].size;
    }
  }

  /** Block `b` marked used by `id`, as an exact fit leaves it. */
  function Claimed(b: Block, id: int): Block
  {
    b.(free := false, id := id)
  }

  /** The free remainder `[start + req, start + size)` of a split. */
  function Remainder(b: Block, req: nat): Block
    requires req <= b.size
  {
    Block(b.start + req, b.size - req, true, NoId)
  }

  /** The used piece `[start, start + req)` of a split. */
  function Piece(b: Block, req: nat, id: int): Block
  {
    Block(b.start, req, false, id)
  }

  /** The corrected split: an exact fit is marked used in place; otherwise
      the block is replaced by the used piece followed by the free remainder,
      so the list stays in address order. */
  function Place(bs: seq<Block>, i: nat, req: nat, id: int): (r: seq<Block>)
    requires i < |bs| && Fits(bs[i], req)
    ensures |r| == |bs| + (if bs[i].size == req then 0 else 1)
    ensures r[..i] == bs[..i] && r[|r| - (|bs| - i - 1)..] == bs[i + 1..]
    // The used piece takes the start of the chosen block.
    ensures r[i] == Block(bs[i].start, req, false, id)
  {
    if bs[i].size == req then bs[..i] + [Claimed(bs[i], id)] + bs[i + 1..]
    else bs[..i] + [Piece(bs[i], req, id), Remainder(bs[i], req)] + bs[i + 1..]
  }

  /** Allocating `req` bytes of block `i` for `id`, as the allocator does
      it: an exact fit is marked used in place; otherwise the block is
      replaced by the free remainder followed by the used piece, although
      the piece starts lower. */
  function PlaceAsWritten(bs: seq<Block>, i: nat, req: nat, id: int): (r: seq<Block>)
    requires i < |bs| && Fits(bs[i], req)
    ensures |r| == |bs| + (if bs[i].size == req then 0 else 1)
    ensures r[..i] == bs[..i] && r[|r| - (|bs| - i - 1)..] == bs[i + 1..]
    // The used piece takes the start of the chosen block but comes last.
    ensures r[|r| - |bs| + i] == Block(bs[i].start, req, false, id)
    ensures bs[i].size > req ==> r[i] == Block(bs[i].start + req, bs[i].size - req, true, NoId)
  {
    if bs[i].size == req then bs[..i] + [Claimed(bs[i], id)] + bs[i + 1..]
    else bs[..i] + [Remainder(bs[i], req), Piece(bs[i], req, id)] + bs[i + 1..]
  }

  /** Allocation keeps the total size, adds exactly the new id and keeps ids
      distinct. */
  lemma PlaceEffect(bs: seq<Block>, i: nat, req: nat, id: int)
    requires i < |bs| && Fits(bs[i], req) && Distinct(bs) && id !in UsedIds(bs)
    ensures Total(PlaceAsWritten(bs, i, req, id)) == Total(bs)
    ensures UsedIds(PlaceAsWritten(bs, i, req, id)) == UsedIds(bs) + {id}
    ensures Distinct(PlaceAsWritten(bs, i, req, id))
  {
    var b := bs[i];
    Around(bs, i);
    Single(b);
    if b.size == req {
      Single(Claimed(b, id));
      Swap(bs[..i], [b], [Claimed(b, id)], bs[i + 1..]);
    } else {
      var rest, used := Remainder(b, req), Piece(b, req, id);
      Pair(rest, used);
      Single(rest);
      Single(used);
      Swap(bs[..i], [b], [rest, used], bs[i + 1..]);
    }
  }

  /** The corrected split holds the same blocks as the split as written;
      only the two halves trade places. */
  lemma PlaceReorders(bs: seq<Block>, i: nat, req: nat, id: int)
    requires i < |bs| && Fits(bs[i], req)
    ensures bs[i].size == req ==> Place(bs, i, req, id) == PlaceAsWritten(bs, i, req, id)
    ensures bs[i].size > req ==>
      var w := PlaceAsWritten(bs, i, req, id);
      i + 1 < |w| && Place(bs, i, req, id) == w[i := w[i + 1]][i + 1 := w[i]]
    ensures multiset(Place(bs, i, req, id)) == multiset(PlaceAsWritten(bs, i, req, id))
  {
    if bs[i].size > req {
      var w := PlaceAsWritten(bs, i, req, id);
      assert Place(bs, i, req, id) == w[i := w[i + 1]][i + 1 := w[i]];
    }
  }

  /** `it->free = true; it->id = -1`. */
  function FreeAt(bs: seq<Block>, i: nat): seq<Block>
    requires i < |bs|
  {
    bs[i := bs[i].(free := true, id := NoId)]
  }

  /** `x` grown by the size of `y`, as a merge leaves it. */
  function Joined(x: Block, y: Block): Block
  {
    x.(size := x.size + y.size)
  }

  /** Absorbs the list successor of block `i` into it when the successor is free. */
  function MergeNext(bs: seq<Block>, i: nat): (r: seq<Block>)
    requires i < |bs|
    ensures i < |r|
  {
    if i + 1 < |bs| && bs[i + 1].free then
      bs[..i] + [Joined(bs[i], bs[i + 1])] + bs[i + 2..]
    else bs
  }

  /** Absorbs block `i` into its list predecessor when the predecessor is free. */
  function MergePrev(bs: seq<Block>, i: nat): seq<Block>
    requires i < |bs|
  {
    if 0 < i && bs[i - 1].free then
      bs[..i - 1] + [Joined(bs[i - 1], bs[i])] + bs[i + 1..]
    else bs
  }

  /** Deallocation of the used block at `i`: free it, merge with the
      successor, then with the predecessor. */
  function Release(bs: seq<Block>, i: nat): (r: seq<Block>)
    requires i < |bs|
    ensures |bs| - 2 <= |r| <= |bs|
    // The freed block lands at `i`, or at `i - 1` when the predecessor was
    // free; nothing before it changes.
    ensures var at := if 0 < i && bs[i - 1].free then i - 1 else i;
      at < |r| && r[at].free && r[..at] == bs[..at]
    // Nothing after the successor changes.
    ensures i + 2 <= |bs| ==> r[|r| - (|bs| - i - 2)..] == bs[i + 2..]
  {
    MergePrev(MergeNext(FreeAt(bs, i), i), i)
  }

  lemma FreeAtEffect(bs: seq<Block>, i: nat)
    requires i < |bs| && !bs[i].free && Distinct(bs)
    ensures Total(FreeAt(bs, i)) == Total(bs)
    ensures UsedIds(FreeAt(bs, i)) == UsedIds(bs) - {bs[i].id}
    ensures Distinct(FreeAt(bs, i)) && FreeAt(bs, i)[i].free
  {
    var f := bs[i].(free := true, id := NoId);
    AroundOne(bs, i);
    UpdateSplit(bs, i, f);
    Single(f);
    Single(bs[i]);
    Swap(bs[..i], [bs[i]], [f], bs[i + 1..]);
  }

  /** Replacing two adjacent free blocks by one free block of their joint
      size keeps the total, the used ids and their distinctness. */
  lemma JoinFree(a: seq<Block>, x: Block, y: Block, c: seq<Block>)
    requires x.free && y.free && Distinct(a + [x, y] + c)
    ensures var merged := Joined(x, y);
      && Total(a + [merged] + c) == Total(a + [x, y] + c)
      && UsedIds(a + [merged] + c) == UsedIds(a + [x, y] + c)
      && Distinct(a + [merged] + c)
  {
    var merged := Joined(x, y);
    Pair(x, y);
    Single(x);
    Single(y);
    Single(merged);
    Swap(a, [x, y], [merged], c);
  }

  lemma AroundPair(bs: seq<Block>, i: nat)
    requires i + 1 < |bs|
    ensures bs == bs[..i] + [bs[i], bs[i + 1]] + bs[i + 2..]
  {
  }

  /** Merging a free block with a free successor keeps the total and the used ids. */
  lemma MergeNextEffect(bs: seq<Block>, i: nat)
    requires i < |bs| && bs[i].free && Distinct(bs)
    ensures var r := MergeNext(bs, i);
      Total(r) == Total(bs) && UsedIds(r) == UsedIds(bs) && Distinct(r) && r[i].free
  {
    if i + 1 < |bs| && bs[i + 1].free {
      AroundPair(bs, i);
      JoinFree(bs[..i], bs[i], bs[i + 1], bs[i + 2..]);
      assert MergeNext(bs, i)[i] == Joined(bs[i], bs[i + 1]);
    }
  }

  /** Merging a free block into a free predecessor keeps the total and the used ids. */
  lemma MergePrevEffect(bs: seq<Block>, i: nat)
    requires i < |bs| && bs[i].free && Distinct(bs)
    ensures var r := MergePrev(bs, i);
      Total(r) == Total(bs) && UsedIds(r) == UsedIds(bs) && Distinct(r)
  {
    if 0 < i && bs[i - 1].free {
      AroundPair(bs, i - 1);
      JoinFree(bs[..i - 1], bs[i - 1], bs[i], bs[i + 1..]);
    }
  }

  /** Deallocation keeps the total size and removes exactly the freed id. */
  lemma ReleaseEffect(bs: seq<Block>, i: nat)
    requires i < |bs| && !bs[i].free && Distinct(bs)
    ensures Total(Release(bs, i)) == Total(bs)
    ensures UsedIds(Release(bs, i)) == UsedIds(bs) - {bs[i].id}
    ensures Distinct(Release(bs, i))
  {
    FreeAtEffect(bs, i);
    MergeNextEffect(FreeAt(bs, i), i);
    MergePrevEffect(MergeNext(FreeAt(bs, i), i), i);
  }

  /** The corrected split keeps the blocks back to back. */
  lemma PlaceTiles(bs: seq<Block>, i: nat, req: nat, id: int, from: nat)
    requires i < |bs| && Fits(bs[i], req) && Tiles(bs, from)
    ensures Tiles(Place(bs, i, req, id), from)
  {
    var b := bs[i];
    var at := from + Total(bs[..i]);
    AroundOne(bs, i);
    Single(b);
    TilesPair(b, b, at);
    if b.size == req {
      Single(Claimed(b, id));
      TilesPair(Claimed(b, id), b, at);
      TilesSwap(bs[..i], [b], [Claimed(b, id)], bs[i + 1..], from);
    } else {
      var used, rest := Piece(b, req, id), Remainder(b, req);
      Pair(used, rest);
      Single(used);
      Single(rest);
      TilesPair(used, rest, at);
      TilesSwap(bs[..i], [b], [used, rest], bs[i + 1..], from);
    }
  }

  lemma FreeAtTiles(bs: seq<Block>, i: nat, from: nat)
    requires i < |bs| && Tiles(bs, from)
    ensures Tiles(FreeAt(bs, i), from)
  {
    var f := bs[i].(free := true, id := NoId);
    var at := from + Total(bs[..i]);
    AroundOne(bs, i);
    UpdateSplit(bs, i, f);
    Single(f);
    Single(bs[i]);
    TilesPair(bs[i], f, at);
    TilesPair(f, f, at);
    TilesSwap(bs[..i], [bs[i]], [f], bs[i + 1..], from);
  }

  /** Merging the blocks at `i` and `i + 1` keeps the blocks back to back. */
  lemma JoinTiles(bs: seq<Block>, i: nat, from: nat)
    requires i + 1 < |bs| && Tiles(bs, from)
    ensures Tiles(bs[..i] + [Joined(bs[i], bs[i + 1])] + bs[i + 2..], from)
  {
    var x, y := bs[i], bs[i + 1];
    var at := from + Total(bs[..i]);
    AroundPair(bs, i);
    Pair(x, y);
    Single(Joined(x, y));
    TilesPair(x, y, at);
    TilesPair(Joined(x, y), y, at);
    TilesSwap(bs[..i], [x, y], [Joined(x, y)], bs[i + 2..], from);
  }

  /** Deallocation keeps blocks that lie back to back so, and then a merge
      always joins blocks that are adjacent in memory. With the corrected
      split the blocks always lie back to back. */
  lemma ReleaseTiles(bs: seq<Block>, i: nat, from: nat)
    requires i < |bs| && Tiles(bs, from)
    ensures Tiles(Release(bs, i), from)
  {
    FreeAtTiles(bs, i, from);
    var f := FreeAt(bs, i);
    if i + 1 < |f| && f[i + 1].free {
      JoinTiles(f, i, from);
    }
    var g := MergeNext(f, i);
    if 0 < i && g[i - 1].free {
      JoinTiles(g, i - 1, from);
      assert i - 1 + 2 == i + 1;
    }
  }

  /** With the split as written, allocating 10 bytes of a fresh 100-byte
      memory and freeing them leaves one free block claiming `[10, 110)`:
      the first 10 bytes are lost and the block runs past the end. With the
      piece in front, the same two steps restore the fresh memory. */
  lemma SplitOrderLosesAddresses()
    ensures var initial := [Block(0, 100, true, NoId)];
      var asWritten := Release(PlaceAsWritten(initial, 0, 10, 1), 1);
      && Tiles(initial, 0)
      && asWritten == [Block(10, 100, true, NoId)]
      && !Tiles(asWritten, 0)
      && asWritten[0].start + asWritten[0].size > Total(initial)
      && Release(Place(initial, 0, 10, 1), 0) == initial
  {
    var initial := [Block(0, 100, true, NoId)];
    var rest, used := Block(10, 90, true, NoId), Block(0, 10, false, 1);
    assert PlaceAsWritten(initial, 0, 10, 1) == [rest, used];
    assert FreeAt([rest, used], 1) == [rest, Block(0, 10, true, NoId)];
    assert Place(initial, 0, 10, 1) == [used, rest];
    assert FreeAt([used, rest], 0) == [Block(0, 10, true, NoId), rest];
    Single(initial[0]);
    TilesPair(initial[0], initial[0], 0);
    TilesPair(Block(10, 100, true, NoId), initial[0], 0);
  }

  /** Position of the first used block carrying `id`, or -1. */
  function IndexOfUsed(bs: seq<Block>, id: int): (r: int)
    ensures r == -1 <==> id !in UsedIds(bs)
    ensures r != -1 ==> 0 <= r < |bs| && !bs[r].free && bs[r].id == id
    ensures r != -1 ==> forall j :: 0 <= j < r ==> bs[j].free || bs[j].id != id
  {
    if bs == [] then -1
    else if !bs[0].free && bs[0].id == id then 0
    else
      var r := IndexOfUsed(bs[1..], id);
      if r == -1 then -1 else r + 1
  }

  /** The three allocation counters, shared by every allocator instance. */
  class AllocStats {
    var requests: nat
    var success: nat
    var failure: nat

    ghost predicate Valid()
      reads this
    {
      requests == success + failure
    }

    constructor ()
      ensures Valid() && requests == 0 && success == 0 && failure == 0
    {
      requests, success, failure := 0, 0, 0;
    }
  }

  class PhysicalMemory {
    const totalSize: nat
    var blocks: seq<Block>
    var nextId: int

    ghost predicate Valid()
      reads this
    {
      && Total(blocks) == totalSize
      && nextId >= 1
      && Distinct(blocks)
      && forall x :: x in UsedIds(blocks) ==> 1 <= x < nextId
    }

    /** One free block covering the whole memory. */
    constructor (size: nat)
      ensures Valid() && totalSize == size
      ensures blocks == [Block(0, size, true, NoId)] && nextId == 1
    {
      totalSize := size;
      blocks := [Block(0, size, true, NoId)];
      nextId := 1;
      new;
      assert blocks[1..] == [];
    }

    method FirstFitIndex(req: nat) returns (i: int)
      ensures i == -1 <==> NoFit(blocks, req)
      ensures i != -1 ==> IsFirstFit(blocks, req, i)
    {
      i := 0;
      while i < |blocks|
        invariant 0 <= i <= |blocks|
        invariant forall j :: 0 <= j < i ==> !Fits(blocks[j], req)
      {
        if blocks[i].free && blocks[i].size >= req {
          return;
        }
        i := i + 1;
      }
      i := -1;
    }

    method BestFitIndex(req: nat) returns (best: int)
      ensures best == -1 <==> NoFit(blocks, req)
      ensures best != -1 ==> IsBestFit(blocks, req, best)
    {
      best := -1;
      var i := 0;
      while i < |blocks|
        invariant 0 <= i <= |blocks| && -1 <= best < i
        invariant best == -1 <==> forall j :: 0 <= j < i ==> !Fits(blocks[j], req)
        invariant best != -1 ==> Fits(blocks[best], req)
        invariant best != -1 ==> forall j :: 0 <= j < i && Fits(blocks[j], req) ==> blocks[best].size <= blocks[j].size
        invariant best != -1 ==> forall j :: 0 <= j < best && Fits(blocks[j], req) ==> blocks[best].size < blocks[j].size
      {
        if blocks[i].free && blocks[i].size >= req {
          if best == -1 || blocks[i].size < blocks[best].size {
            best := i;
          }
        }
        i := i + 1;
      }
    }

    method WorstFitIndex(req: nat) returns (worst: int)
      ensures worst == -1 <==> NoFit(blocks, req)
      ensures worst != -1 ==> IsWorstFit(blocks, req, worst)
    {
      worst := -1;
      var i := 0;
      while i < |blocks|
        invariant 0 <= i <= |blocks| && -1 <= worst < i
        invariant worst == -1 <==> forall j :: 0 <= j < i ==> !Fits(blocks[j], req)
        invariant worst != -1 ==> Fits(blocks[worst], req)
        invariant worst != -1 ==> forall j :: 0 <= j < i && Fits(blocks[j], req) ==> blocks[worst].size >= blocks[j].size
        invariant worst != -1 ==> forall j :: 0 <= j < worst && Fits(blocks[j], req) ==> blocks[worst].size > blocks[j].size
      {
        if blocks[i].free && blocks[i].size >= req {
          if worst == -1 || blocks[i].size > blocks[worst].size {
            worst := i;
          }
        }
        i := i + 1;
      }
    }

    /** The success path shared by the three strategies: take the next id,
        count a success, and place the request in block `i`. */
    method Commit(i: nat, req: nat, stats: AllocStats) returns (id: int)
      requires Valid() && i < |blocks| && Fits(blocks[i], req)
      modifies this`blocks, this`nextId, stats`success
      ensures Valid()
      ensures id == old(nextId) && nextId == id + 1 && id >= 1
      ensures blocks == PlaceAsWritten(old(blocks), i, req, id)
      ensures UsedIds(blocks) == old(UsedIds(blocks)) + {id}
      ensures stats.success == old(stats.success) + 1
    {
      id := nextId;
      nextId := nextId + 1;
      stats.success := stats.success + 1;
      PlaceEffect(blocks, i, req, id);
      blocks := PlaceAsWritten(blocks, i, req, id);
    }

    method AllocateFirstFit(req: nat, stats: AllocStats) returns (id: int)
      requires Valid() && stats.Valid()
      modifies this`blocks, this`nextId, stats
      ensures Valid() && stats.Valid()
      ensures stats.requests == old(stats.requests) + 1
      ensures id == -1 <==> old(NoFit(blocks, req))
      ensures id == -1 ==>
        && blocks == old(blocks) && nextId == old(nextId)
        && stats.failure == old(stats.failure) + 1 && stats.success == old(stats.success)
      ensures id != -1 ==>
        && id == old(nextId) && nextId == id + 1
        && stats.success == old(stats.success) + 1 && stats.failure == old(stats.failure)
        && UsedIds(blocks) == old(UsedIds(blocks)) + {id}
        && exists i :: IsFirstFit(old(blocks), req, i) && blocks == PlaceAsWritten(old(blocks), i, req, id)
    {
      stats.requests := stats.requests + 1;
      var i := FirstFitIndex(req);
      if i == -1 {
        stats.failure := stats.failure + 1;
        return -1;
      }
      id := Commit(i, req, stats);
    }

    method AllocateBestFit(req: nat, stats: AllocStats) returns (id: int)
      requires Valid() && stats.Valid()
      modifies this`blocks, this`nextId, stats
      ensures Valid() && stats.Valid()
      ensures stats.requests == old(stats.requests) + 1
      ensures id == -1 <==> old(NoFit(blocks, req))
      ensures id == -1 ==>
        && blocks == old(blocks) && nextId == old(nextId)
        && stats.failure == old(stats.failure) + 1 && stats.success == old(stats.success)
      ensures id != -1 ==>
        && id == old(nextId) && nextId == id + 1
        && stats.success == old(stats.success) + 1 && stats.failure == old(stats.failure)
        && UsedIds(blocks) == old(UsedIds(blocks)) + {id}
        && exists i :: IsBestFit(old(blocks), req, i) && blocks == PlaceAsWritten(old(blocks), i, req, id)
    {
      stats.requests := stats.requests + 1;
      var best := BestFitIndex(req);
      if best == -1 {
        stats.failure := stats.failure + 1;
        return -1;
      }
      id := Commit(best, req, stats);
    }

    method AllocateWorstFit(req: nat, stats: AllocStats) returns (id: int)
      requires Valid() && stats.Valid()
      modifies this`blocks, this`nextId, stats
      ensures Valid() && stats.Valid()
      ensures stats.requests == old(stats.requests) + 1
      ensures id == -1 <==> old(NoFit(blocks, req))
      ensures id == -1 ==>
        && blocks == old(blocks) && nextId == old(nextId)
        && stats.failure == old(stats.failure) + 1 && stats.success == old(stats.success)
      ensures id != -1 ==>
        && id == old(nextId) && nextId == id + 1
        && stats.success == old(stats.success) + 1 && stats.failure == old(stats.failure)
        && UsedIds(blocks) == old(UsedIds(blocks)) + {id}
        && exists i :: IsWorstFit(old(blocks), req, i) && blocks == PlaceAsWritten(old(blocks), i, req, id)
    {
      stats.requests := stats.requests + 1;
      var worst := WorstFitIndex(req);
      if worst == -1 {
        stats.failure := stats.failure + 1;
        return -1;
      }
      id := Commit(worst, req, stats);
    }

    /** The scan of `deallocate`: the first used block carrying `id`, or -1. */
    method FindUsed(id: int) returns (i: int)
      ensures i == IndexOfUsed(blocks, id)
    {
      i := 0;
      while i < |blocks|
        invariant 0 <= i <= |blocks|
        invariant forall j :: 0 <= j < i ==> blocks[j].free || blocks[j].id != id
      {
        if !blocks[i].free && blocks[i].id == id {
          Around(blocks, i);
          Single(blocks[i]);
          return;
        }
        i := i + 1;
      }
      i := -1;
    }

    /** Frees the used block carrying `id` and merges it with free list
        neighbours; an id no used block carries changes nothing. */
    method Deallocate(id: int)
      requires Valid()
      modifies this`blocks
      ensures Valid()
      ensures UsedIds(blocks) == old(UsedIds(blocks)) - {id}
      ensures id !in old(UsedIds(blocks)) ==> blocks == old(blocks)
      ensures id in old(UsedIds(blocks)) ==> blocks == Release(old(blocks), IndexOfUsed(old(blocks), id))
    {
      var i := FindUsed(id);
      if i == -1 {
        return;
      }
      ReleaseEffect(blocks, i);
      blocks := FreeAt(blocks, i);
      blocks := MergeNext(blocks, i);
      blocks := MergePrev(blocks, i);
    }
  }
}
