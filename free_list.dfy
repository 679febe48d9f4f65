/**
 * Memory blocks and the intrusive free lists threaded through them, shared by both
 * allocators (src/mem/allocator.rs and src/stable_memory_allocator.rs).
 *
 * The heap is a map from a block's offset to its header: payload size, allocated flag
 * and the two link words a free block keeps at the start of its payload.  Every block
 * carries OVERHEAD bytes of metadata on each side, so a block at offset `o` is followed
 * physically by the block at `o + size + 2 * OVERHEAD`.  A ghost `layout` sequence lists
 * the blocks in address order; a ghost `list` sequence lists one free list from head to
 * tail.
 */
module FreeList {
  import opened Common

  /** Bytes of block metadata on each side of a payload. */
  const OVERHEAD: nat := 8

  /** A block header; `prev` and `next` are meaningful only while the block is free. */
  datatype Block = Block(size: nat, isAllocated: bool, prev: int, next: int)

  type Heap = map<int, Block>

  /** The offset just past block `o`, where its right physical neighbour starts. */
  function End(h: Heap, o: int): (r: int)
    requires o in h
    ensures r >= o + 2 * OVERHEAD
  {
    o + h[o].size + 2 * OVERHEAD
  }

  /** `layout` lists exactly the blocks of `h`. */
  ghost predicate Covers(h: Heap, layout: seq<int>)
  {
    (forall i :: 0 <= i < |layout| ==> layout[i] in h) && (forall o :: o in h ==> o in layout)
  }

  /** The blocks of `layout`, in order, fill `[start, end)`: each starts where the one before it ends. */
  ghost predicate Tiles(h: Heap, layout: seq<int>, start: int, end: int)
    decreases |layout|
  {
    if layout == [] then start == end
    else layout[0] == start && start in h && Tiles(h, layout[1..], End(h, start), end)
  }

  /** `layout` is every block of `h` in address order, and the blocks tile `[start, end)`. */
  ghost predicate Tiled(h: Heap, layout: seq<int>, start: int, end: int)
  {
    Covers(h, layout) && Tiles(h, layout, start, end)
  }

  /** Two heaps with the same blocks of the same sizes; flags and links may differ. */
  ghost predicate SameSizes(h: Heap, h': Heap)
  {
    h.Keys == h'.Keys && forall o :: o in h ==> h'[o].size == h[o].size
  }

  /** Every allocated block of `h` is still there, unchanged, in `h'`. */
  ghost predicate Kept(h: Heap, h': Heap)
  {
    forall x :: x in h && h[x].isAllocated ==> x in h' && h'[x] == h[x]
  }

  /** `h'` has the blocks of `h` with their sizes and flags; only links may differ. */
  ghost predicate Mirrors(h: Heap, h': Heap)
  {
    SameSizes(h, h') && forall x :: x in h ==> h'[x].isAllocated == h[x].isAllocated
  }

  /** What a tiling says position by position: blocks ascend, consecutive ones touch, all lie in `[start, end)`. */
  lemma {:induction false} TilesFacts(h: Heap, layout: seq<int>, start: int, end: int)
    requires Tiles(h, layout, start, end)
    ensures start <= end
    ensures forall i :: 0 <= i < |layout| ==> layout[i] in h && start <= layout[i] && End(h, layout[i]) <= end
    ensures forall i, j :: 0 <= i < j < |layout| ==> End(h, layout[i]) <= layout[j]
    ensures forall i, j :: 0 <= i && j == i + 1 && j < |layout| ==> layout[j] == End(h, layout[i])
    ensures layout != [] ==> layout[0] == start && End(h, layout[|layout| - 1]) == end
    decreases |layout|
  {
    if layout != [] {
      var t := layout[1..];
      TilesFacts(h, t, End(h, start), end);
      forall i | 0 <= i < |layout|
        ensures layout[i] in h && start <= layout[i] && End(h, layout[i]) <= end
      {
        if i > 0 {
          assert layout[i] == t[i - 1];
        }
      }
      forall i, j | 0 <= i < j < |layout| ensures End(h, layout[i]) <= layout[j] {
        assert layout[j] == t[j - 1];
        if i > 0 {
          assert layout[i] == t[i - 1];
        }
      }
      forall i, j | 0 <= i && j == i + 1 && j < |layout| ensures layout[j] == End(h, layout[i]) {
        assert layout[j] == t[i];
        if i > 0 {
          assert layout[i] == t[i - 1];
        }
      }
      if t != [] {
        assert layout[|layout| - 1] == t[|t| - 1];
      }
    }
  }

  /** Blocks are listed once by the layout. */
  lemma TiledDistinct(h: Heap, layout: seq<int>, start: int, end: int)
    requires Tiles(h, layout, start, end)
    ensures forall i, j :: 0 <= i < |layout| && 0 <= j < |layout| && layout[i] == layout[j] ==> i == j
  {
    TilesFacts(h, layout, start, end);
  }

  /** The physical right neighbour of the block at index `i`. */
  lemma TiledNext(h: Heap, layout: seq<int>, start: int, end: int, i: nat)
    requires Tiled(h, layout, start, end) && i < |layout|
    ensures i + 1 < |layout| ==> End(h, layout[i]) in h && End(h, layout[i]) == layout[i + 1]
    ensures i + 1 == |layout| ==> End(h, layout[i]) == end && end !in h
  {
    TilesFacts(h, layout, start, end);
    if i + 1 < |layout| {
      assert layout[i + 1] in h;
    }
    forall o | o in h ensures o < end {
      var j :| 0 <= j < |layout| && layout[j] == o;
    }
  }

  /** The physical left neighbour of the block at index `i` is the one block ending at it. */
  lemma TiledPrev(h: Heap, layout: seq<int>, start: int, end: int, i: nat)
    requires Tiled(h, layout, start, end) && i < |layout|
    ensures i > 0 ==> layout[i - 1] in h && End(h, layout[i - 1]) == layout[i]
    ensures forall p :: p in h && End(h, p) == layout[i] ==> i > 0 && p == layout[i - 1]
  {
    TilesFacts(h, layout, start, end);
    forall j | 0 <= j < |layout| && j + 1 != i ensures End(h, layout[j]) != layout[i] {
      if j + 1 < i {
        assert layout[j + 1] == End(h, layout[j]);
        assert End(h, layout[j + 1]) <= layout[i];
      }
    }
    forall p | p in h && End(h, p) == layout[i]
      ensures i > 0 && p == layout[i - 1]
    {
      var j :| 0 <= j < |layout| && layout[j] == p;
    }
  }

  /** A tiling of `[start, end)` is not disturbed by changes outside it or to anything but sizes. */
  lemma {:induction false} TilesFrame(h: Heap, h': Heap, layout: seq<int>, start: int, end: int)
    requires Tiles(h, layout, start, end)
    requires forall x :: x in h && start <= x < end ==> x in h' && h'[x].size == h[x].size
    ensures Tiles(h', layout, start, end)
    decreases |layout|
  {
    if layout != [] {
      TilesFacts(h, layout[1..], End(h, start), end);
      assert start < End(h, start) <= end;
      TilesFrame(h, h', layout[1..], End(h, start), end);
    }
  }

  /** The tiling depends only on which blocks exist and their sizes. */
  lemma TiledSizes(h: Heap, h': Heap, layout: seq<int>, start: int, end: int)
    requires Tiled(h, layout, start, end) && SameSizes(h, h')
    ensures Tiled(h', layout, start, end)
  {
    TilesFrame(h, h', layout, start, end);
  }

  /** Merging the first two blocks of a tiling. */
  lemma TilesMergeFirst(h: Heap, layout: seq<int>, start: int, end: int, b: Block)
    requires Tiles(h, layout, start, end) && 1 < |layout| && start in h && layout[1] in h
    requires b.size == h[start].size + h[layout[1]].size + 2 * OVERHEAD
    ensures Tiles((h - {layout[1]})[start := b], RemoveAt(layout, 1), start, end)
  {
    var n := layout[1];
    var h' := (h - {n})[start := b];
    assert Tiles(h, layout[1..], End(h, start), end);
    assert n == End(h, start);
    var t := layout[2..];
    assert layout[1..][1..] == t;
    assert Tiles(h, t, End(h, n), end);
    assert End(h', start) == End(h, n);
    TilesFrame(h, h', t, End(h, n), end);
    var l' := RemoveAt(layout, 1);
    assert l' == [start] + t;
    assert l'[1..] == t;
  }

  /** Merging the blocks at `i` and `i + 1` into one block at the first offset keeps the tiles. */
  lemma {:induction false} TilesMerge(h: Heap, layout: seq<int>, start: int, end: int, i: nat, b: Block)
    requires Tiles(h, layout, start, end) && i + 1 < |layout| && layout[i] in h && layout[i + 1] in h
    requires b.size == h[layout[i]].size + h[layout[i + 1]].size + 2 * OVERHEAD
    ensures Tiles((h - {layout[i + 1]})[layout[i] := b], RemoveAt(layout, i + 1), start, end)
    decreases i
  {
    if i == 0 {
      TilesMergeFirst(h, layout, start, end, b);
    } else {
      var h' := (h - {layout[i + 1]})[layout[i] := b];
      var t := layout[1..];
      assert t[i - 1] == layout[i] && t[i] == layout[i + 1];
      TilesMerge(h, t, End(h, start), end, i - 1, b);
      assert start < layout[i] && start < layout[i + 1] by {
        TilesFacts(h, layout, start, end);
      }
      var l' := RemoveAt(layout, i + 1);
      RemoveAtTail(layout, i + 1);
      assert l'[1..] == RemoveAt(t, i);
      assert End(h', start) == End(h, start);
    }
  }

  /** Merging two neighbours keeps the whole tiling. */
  lemma TiledMerge(h: Heap, layout: seq<int>, start: int, end: int, i: nat, b: Block)
    requires Tiled(h, layout, start, end) && i + 1 < |layout| && layout[i] in h && layout[i + 1] in h
    requires b.size == h[layout[i]].size + h[layout[i + 1]].size + 2 * OVERHEAD
    ensures Tiled((h - {layout[i + 1]})[layout[i] := b], RemoveAt(layout, i + 1), start, end)
  {
    TilesMerge(h, layout, start, end, i, b);
    TiledDistinct(h, layout, start, end);
    var o := layout[i];
    var n := layout[i + 1];
    var h' := (h - {n})[o := b];
    var l' := RemoveAt(layout, i + 1);
    RemoveAtIndex(layout, i + 1);
    forall j | 0 <= j < |l'| ensures l'[j] in h' {
      if j <= i {
        assert l'[j] == layout[j];
      } else {
        assert l'[j] == layout[j + 1];
      }
    }
    forall x | x in h' ensures x in l' {
      var j :| 0 <= j < |layout| && layout[j] == x;
      if j <= i {
        assert l'[j] == x;
      } else {
        assert l'[j - 1] == x;
      }
    }
  }

  /** Splitting the first block of a tiling. */
  lemma TilesSplitFirst(h: Heap, layout: seq<int>, start: int, end: int, front: Block, rest: Block)
    requires Tiles(h, layout, start, end) && layout != [] && start in h
    requires front.size + rest.size + 2 * OVERHEAD == h[start].size
    ensures Tiles(h[start := front][start + front.size + 2 * OVERHEAD := rest],
                  InsertAt(layout, 1, start + front.size + 2 * OVERHEAD), start, end)
  {
    var r := start + front.size + 2 * OVERHEAD;
    var h' := h[start := front][r := rest];
    var t := layout[1..];
    assert Tiles(h, t, End(h, start), end);
    assert r < End(h, start);
    TilesFrame(h, h', t, End(h, start), end);
    assert End(h', r) == End(h, start);
    var l' := InsertAt(layout, 1, r);
    assert l' == [start, r] + t;
    assert l'[1..] == [r] + t;
    assert ([r] + t)[1..] == t;
  }

  /** Splitting block `i` into a front block and the rest keeps the tiles; the rest starts where the front ends. */
  lemma {:induction false} TilesSplit(h: Heap, layout: seq<int>, start: int, end: int, i: nat, front: Block, rest: Block)
    requires Tiles(h, layout, start, end) && i < |layout| && layout[i] in h
    requires front.size + rest.size + 2 * OVERHEAD == h[layout[i]].size
    ensures Tiles(h[layout[i] := front][layout[i] + front.size + 2 * OVERHEAD := rest],
                  InsertAt(layout, i + 1, layout[i] + front.size + 2 * OVERHEAD), start, end)
    decreases i
  {
    if i == 0 {
      TilesSplitFirst(h, layout, start, end, front, rest);
    } else {
      var o := layout[i];
      var r := o + front.size + 2 * OVERHEAD;
      var h' := h[o := front][r := rest];
      var t := layout[1..];
      assert t[i - 1] == o;
      TilesSplit(h, t, End(h, start), end, i - 1, front, rest);
      assert start < o by {
        TilesFacts(h, layout, start, end);
      }
      var l' := InsertAt(layout, i + 1, r);
      InsertAtTail(layout, i + 1, r);
      assert l'[1..] == InsertAt(t, i, r);
      assert End(h', start) == End(h, start);
    }
  }

  /** An offset strictly inside a block of a tiling is not a block. */
  lemma TilesInterior(h: Heap, layout: seq<int>, start: int, end: int, i: nat, x: int)
    requires Tiled(h, layout, start, end) && i < |layout|
    requires layout[i] < x < End(h, layout[i])
    ensures x !in h
  {
    TilesFacts(h, layout, start, end);
    forall j | 0 <= j < |layout| ensures layout[j] != x {
      if j < i {
        assert End(h, layout[j]) <= layout[i];
      } else if j > i {
        assert End(h, layout[i]) <= layout[j];
      }
    }
  }

  /** Splitting a block keeps the whole tiling; the rest's offset was not a block before. */
  lemma TiledSplit(h: Heap, layout: seq<int>, start: int, end: int, i: nat, front: Block, rest: Block)
    requires Tiled(h, layout, start, end) && i < |layout| && layout[i] in h
    requires front.size + rest.size + 2 * OVERHEAD == h[layout[i]].size
    ensures layout[i] + front.size + 2 * OVERHEAD !in h
    ensures Tiled(h[layout[i] := front][layout[i] + front.size + 2 * OVERHEAD := rest],
                  InsertAt(layout, i + 1, layout[i] + front.size + 2 * OVERHEAD), start, end)
  {
    var o := layout[i];
    var r := o + front.size + 2 * OVERHEAD;
    TilesInterior(h, layout, start, end, i, r);
    TilesSplit(h, layout, start, end, i, front, rest);
    SplitCovers(h, layout, i, r, front, rest);
  }

  /** Adding the block `r` right after index `i` keeps the layout covering the heap. */
  lemma SplitCovers(h: Heap, layout: seq<int>, i: nat, r: int, front: Block, rest: Block)
    requires Covers(h, layout) && i < |layout|
    ensures Covers(h[layout[i] := front][r := rest], InsertAt(layout, i + 1, r))
  {
    var o := layout[i];
    var h' := h[o := front][r := rest];
    var l' := InsertAt(layout, i + 1, r);
    InsertAtIndex(layout, i + 1, r);
    forall j | 0 <= j < |l'| ensures l'[j] in h' {
      if j <= i {
        assert l'[j] == layout[j];
      } else if j > i + 1 {
        assert l'[j] == layout[j - 1];
      }
    }
    forall x | x in h' ensures x in l' {
      if x != r {
        var j :| 0 <= j < |layout| && layout[j] == x;
        if j <= i {
          assert l'[j] == x;
        } else {
          assert l'[j + 1] == x;
        }
      } else {
        assert l'[i + 1] == r;
      }
    }
  }

  /** A block laid over freshly grown memory at `end` extends the tiles. */
  lemma {:induction false} TilesAppend(h: Heap, layout: seq<int>, start: int, end: int, b: Block)
    requires Tiles(h, layout, start, end)
    ensures Tiles(h[end := b], layout + [end], start, end + b.size + 2 * OVERHEAD)
    decreases |layout|
  {
    var h' := h[end := b];
    if layout == [] {
      var one: seq<int> := [end];
      assert one[1..] == [];
    } else {
      var t := layout[1..];
      TilesFacts(h, layout, start, end);
      TilesAppend(h, t, End(h, start), end, b);
      assert start < end;
      assert (layout + [end])[1..] == t + [end];
    }
  }

  /** A block laid over freshly grown memory extends the whole tiling. */
  lemma TiledAppend(h: Heap, layout: seq<int>, start: int, end: int, b: Block)
    requires Tiled(h, layout, start, end)
    ensures end !in h
    ensures Tiled(h[end := b], layout + [end], start, end + b.size + 2 * OVERHEAD)
  {
    TilesAppend(h, layout, start, end, b);
    assert end !in h by {
      TilesFacts(h, layout, start, end);
      assert forall j :: 0 <= j < |layout| ==> layout[j] != end;
    }
    var l' := layout + [end];
    assert forall j :: 0 <= j < |layout| ==> l'[j] == layout[j];
  }

  /** No offset is listed twice. */
  ghost predicate Distinct(s: seq<int>)
  {
    forall i, j :: 0 <= i < j < |s| ==> s[i] != s[j]
  }

  /** Inserting a new offset keeps a list free of repeats. */
  lemma DistinctInsert(s: seq<int>, k: nat, b: int)
    requires Distinct(s) && k <= |s| && b !in s
    ensures Distinct(InsertAt(s, k, b))
  {
    var s' := InsertAt(s, k, b);
    InsertAtIndex(s, k, b);
    forall i, j | 0 <= i < j < |s'| ensures s'[i] != s'[j] {
      if i != k && j != k {
        assert s'[i] == s[if i < k then i else i - 1];
        assert s'[j] == s[if j < k then j else j - 1];
      }
    }
  }

  /**
   * `list` is a doubly linked list threaded through the link words of `h`: `head` names its
   * first block (or is `empty`), the first block's `prev` is `sentinel`, the last block's
   * `next` is `empty`, and every block on it is a distinct free block.
   */
  ghost predicate Linked(h: Heap, list: seq<int>, head: int, sentinel: int, empty: int)
  {
    head == (if list == [] then empty else list[0]) &&
    Distinct(list) &&
    (forall i :: 0 <= i < |list| ==> list[i] in h && !h[list[i]].isAllocated) &&
    (list != [] ==> h[list[0]].prev == sentinel && h[list[|list| - 1]].next == empty) &&
    (forall i, j :: 0 <= i && j == i + 1 && j < |list| ==> h[list[i]].next == list[j] && h[list[j]].prev == list[i])
  }

  /** Removing an offset keeps a list free of repeats. */
  lemma DistinctRemove(s: seq<int>, k: nat)
    requires Distinct(s) && k < |s|
    ensures Distinct(RemoveAt(s, k)) && s[k] !in RemoveAt(s, k)
  {
    var s' := RemoveAt(s, k);
    RemoveAtIndex(s, k);
    forall i, j | 0 <= i < j < |s'| ensures s'[i] != s'[j] {
      assert s'[i] == s[if i < k then i else i + 1];
      assert s'[j] == s[if j < k then j else j + 1];
    }
    forall i | 0 <= i < |s'| ensures s'[i] != s[k] {
      assert s'[i] == s[if i < k then i else i + 1];
    }
  }

  /** Membership after removing position `k` of a list without repeats. */
  lemma InRemoveAt(s: seq<int>, k: nat, x: int)
    requires Distinct(s) && k < |s|
    ensures x in RemoveAt(s, k) <==> x in s && x != s[k]
  {
    DistinctRemove(s, k);
    RemoveAtIndex(s, k);
    if x in s && x != s[k] {
      var j := IndexOf(s, x);
      assert RemoveAt(s, k)[if j < k then j else j - 1] == x;
    }
  }

  /** Membership after inserting `b` at position `k`. */
  lemma InInsertAt(s: seq<int>, k: nat, b: int, x: int)
    requires k <= |s|
    ensures x in InsertAt(s, k, b) <==> x in s || x == b
  {
    InsertAtIndex(s, k, b);
    if x in s {
      var j := IndexOf(s, x);
      assert InsertAt(s, k, b)[if j < k then j else j + 1] == x;
    }
  }

  /** Position `j` of `list` holds a free block linked to its neighbours on the list. */
  ghost predicate LinkedSlot(h: Heap, list: seq<int>, j: int, sentinel: int, empty: int)
    requires 0 <= j < |list|
  {
    list[j] in h && !h[list[j]].isAllocated &&
    h[list[j]].prev == (if j == 0 then sentinel else list[j - 1]) &&
    h[list[j]].next == (if j == |list| - 1 then empty else list[j + 1])
  }

  /** A list without repeats whose every position is linked to its neighbours is linked. */
  lemma LinkedByPosition(h: Heap, list: seq<int>, head: int, sentinel: int, empty: int)
    requires head == (if list == [] then empty else list[0]) && Distinct(list)
    requires forall j :: 0 <= j < |list| ==> LinkedSlot(h, list, j, sentinel, empty)
    ensures Linked(h, list, head, sentinel, empty)
  {
    forall i | 0 <= i < |list| ensures list[i] in h && !h[list[i]].isAllocated {
      assert LinkedSlot(h, list, i, sentinel, empty);
    }
    forall i, j | 0 <= i && j == i + 1 && j < |list|
      ensures h[list[i]].next == list[j] && h[list[j]].prev == list[i]
    {
      assert LinkedSlot(h, list, i, sentinel, empty) && LinkedSlot(h, list, j, sentinel, empty);
    }
    if list != [] {
      assert LinkedSlot(h, list, 0, sentinel, empty);
      assert LinkedSlot(h, list, |list| - 1, sentinel, empty);
    }
  }

  /** The list survives any change to blocks that are not on it. */
  lemma LinkedFrame(h: Heap, h': Heap, list: seq<int>, head: int, sentinel: int, empty: int)
    requires Linked(h, list, head, sentinel, empty)
    requires forall x :: x in list ==> x in h' && h'[x] == h[x]
    ensures Linked(h', list, head, sentinel, empty)
  {
  }

  /** The position of `x` in `s`. */
  function IndexOf<T(==)>(s: seq<T>, x: T): (r: nat)
    requires x in s
    ensures r < |s| && s[r] == x
    ensures forall j :: 0 <= j < r ==> s[j] != x
  {
    if s[0] == x then 0 else 1 + IndexOf(s[1..], x)
  }

  /** The link words after splicing block `list[k]` out: its neighbours on the list point at each other. */
  function Unlink(h: Heap, list: seq<int>, k: nat, sentinel: int, empty: int): (r: Heap)
    requires k < |list|
    ensures SameSizes(h, r)
    ensures forall x :: x in h ==> r[x].isAllocated == h[x].isAllocated
    ensures forall x :: x in h && (k == 0 || x != list[k - 1]) && (k == |list| - 1 || x != list[k + 1]) ==> r[x] == h[x]
  {
    var p := if k == 0 then sentinel else list[k - 1];
    var n := if k == |list| - 1 then empty else list[k + 1];
    map x | x in h ::
      if 0 < k && x == p then h[x].(next := n)
      else if k < |list| - 1 && x == n then h[x].(prev := p)
      else h[x]
  }

  /** The links of the block at position `i` of a linked list. */
  lemma LinkedAt(h: Heap, list: seq<int>, head: int, sentinel: int, empty: int, i: nat)
    requires Linked(h, list, head, sentinel, empty) && i < |list|
    ensures list[i] in h && !h[list[i]].isAllocated
    ensures h[list[i]].prev == (if i == 0 then sentinel else list[i - 1])
    ensures h[list[i]].next == (if i == |list| - 1 then empty else list[i + 1])
  {
    if i > 0 {
      assert h[list[i - 1]].next == list[i] && h[list[i]].prev == list[i - 1];
    }
    if i < |list| - 1 {
      assert h[list[i]].next == list[i + 1] && h[list[i + 1]].prev == list[i];
    }
  }

  /** One position of the list after `Unlink`: a free block whose links name its new neighbours. */
  lemma UnlinkAt(h: Heap, list: seq<int>, k: nat, sentinel: int, empty: int, j: nat, x: int)
    requires k < |list| && j < |list| - 1 && Distinct(list)
    requires forall i :: 0 <= i < |list| ==> list[i] in h
    requires x == list[if j < k then j else j + 1] && !h[x].isAllocated
    requires h[x].prev == (if j < k then (if j == 0 then sentinel else list[j - 1]) else list[j])
    requires h[x].next == (if j < k then list[j + 1] else if j + 1 == |list| - 1 then empty else list[j + 2])
    ensures RemoveAt(list, k)[j] == x
    ensures !Unlink(h, list, k, sentinel, empty)[x].isAllocated
    ensures Unlink(h, list, k, sentinel, empty)[x].prev == (if j == 0 then sentinel else RemoveAt(list, k)[j - 1])
    ensures Unlink(h, list, k, sentinel, empty)[x].next == (if j == |list| - 2 then empty else RemoveAt(list, k)[j + 1])
  {
    var h' := Unlink(h, list, k, sentinel, empty);
    var l' := RemoveAt(list, k);
    RemoveAtIndex(list, k);
    if j < k - 1 {
      assert x != list[k - 1];
      assert k < |list| - 1 ==> x != list[k + 1];
      assert h'[x] == h[x];
      assert l'[j + 1] == list[j + 1];
    } else if j == k - 1 {
      assert k < |list| - 1 ==> x != list[k + 1];
      assert h'[x] == h[x].(next := if k == |list| - 1 then empty else list[k + 1]);
      if k < |list| - 1 {
        assert l'[j + 1] == list[k + 1];
      }
    } else if j == k {
      assert 0 < k ==> x != list[k - 1];
      assert h'[x] == h[x].(prev := if k == 0 then sentinel else list[k - 1]);
      if j + 1 < |list| - 1 {
        assert l'[j + 1] == list[j + 2];
      }
    } else {
      assert x != list[k + 1];
      assert 0 < k ==> x != list[k - 1];
      assert h'[x] == h[x];
      assert l'[j - 1] == list[j];
      if j + 1 < |list| - 1 {
        assert l'[j + 1] == list[j + 2];
      }
    }
    if 0 < j < k {
      assert l'[j - 1] == list[j - 1];
    }
  }

  /** `Unlink` touches only the neighbours of `list[k]`, and neither of them is `list[k]` or off the list. */
  lemma UnlinkFrame(h: Heap, list: seq<int>, k: nat, sentinel: int, empty: int)
    requires Distinct(list) && k < |list|
    ensures forall x :: x in h && x !in list ==> Unlink(h, list, k, sentinel, empty)[x] == h[x]
    ensures list[k] in h ==> Unlink(h, list, k, sentinel, empty)[list[k]] == h[list[k]]
  {
    assert k > 0 ==> list[k - 1] != list[k];
    assert k < |list| - 1 ==> list[k + 1] != list[k];
  }

  /** Splicing `list[k]` out leaves a linked list without it; only its neighbours' link words change. */
  lemma LinkedUnlink(h: Heap, list: seq<int>, k: nat, head: int, sentinel: int, empty: int)
    requires Linked(h, list, head, sentinel, empty) && k < |list|
    ensures SameSizes(h, Unlink(h, list, k, sentinel, empty))
    ensures forall x :: x in h ==> Unlink(h, list, k, sentinel, empty)[x].isAllocated == h[x].isAllocated
    ensures forall x :: x in h && x !in list ==> Unlink(h, list, k, sentinel, empty)[x] == h[x]
    ensures Unlink(h, list, k, sentinel, empty)[list[k]] == h[list[k]]
    ensures Linked(Unlink(h, list, k, sentinel, empty), RemoveAt(list, k),
                   if k == 0 then (if |list| == 1 then empty else list[1]) else head, sentinel, empty)
  {
    UnlinkFrame(h, list, k, sentinel, empty);
    LinkedUnlinkList(h, list, k, head, sentinel, empty);
  }

  /** Every position of the list is linked after `Unlink`. */
  lemma UnlinkSlots(h: Heap, list: seq<int>, k: nat, head: int, sentinel: int, empty: int)
    requires Linked(h, list, head, sentinel, empty) && k < |list|
    ensures forall j :: 0 <= j < |list| - 1 ==>
      LinkedSlot(Unlink(h, list, k, sentinel, empty), RemoveAt(list, k), j, sentinel, empty)
  {
    var h' := Unlink(h, list, k, sentinel, empty);
    var l' := RemoveAt(list, k);
    forall j | 0 <= j < |l'| ensures LinkedSlot(h', l', j, sentinel, empty) {
      var oi := if j < k then j else j + 1;
      LinkedAt(h, list, head, sentinel, empty, oi);
      UnlinkAt(h, list, k, sentinel, empty, j, list[oi]);
    }
  }

  /** The list part of `LinkedUnlink`. */
  lemma LinkedUnlinkList(h: Heap, list: seq<int>, k: nat, head: int, sentinel: int, empty: int)
    requires Linked(h, list, head, sentinel, empty) && k < |list|
    ensures Linked(Unlink(h, list, k, sentinel, empty), RemoveAt(list, k),
                   if k == 0 then (if |list| == 1 then empty else list[1]) else head, sentinel, empty)
  {
    DistinctRemove(list, k);
    UnlinkSlots(h, list, k, head, sentinel, empty);
    var l' := RemoveAt(list, k);
    assert l' != [] ==> l'[0] == (if k == 0 then list[1] else list[0]) by {
      RemoveAtIndex(list, k);
    }
    LinkedByPosition(Unlink(h, list, k, sentinel, empty), l',
                     if k == 0 then (if |list| == 1 then empty else list[1]) else head, sentinel, empty);
  }

  /** The link words after splicing block `b` into the list between `list[k - 1]` and `list[k]`. */
  function Splice(h: Heap, list: seq<int>, k: nat, b: int, sentinel: int, empty: int): (r: Heap)
    requires k <= |list| && b in h
    ensures SameSizes(h, r)
    ensures forall x :: x in h ==> r[x].isAllocated == h[x].isAllocated
    ensures forall x :: x in h && x != b && (k == 0 || x != list[k - 1]) && (k == |list| || x != list[k]) ==> r[x] == h[x]
  {
    var p := if k == 0 then sentinel else list[k - 1];
    var n := if k == |list| then empty else list[k];
    map x | x in h ::
      if x == b then h[x].(prev := p, next := n)
      else if 0 < k && x == p then h[x].(next := b)
      else if k < |list| && x == n then h[x].(prev := b)
      else h[x]
  }

  /** Splicing a free block that is on no list into position `k` gives a linked list with it at `k`. */
  lemma LinkedSplice(h: Heap, list: seq<int>, head: int, k: nat, b: int, sentinel: int, empty: int)
    requires Linked(h, list, head, sentinel, empty) && k <= |list|
    requires b in h && !h[b].isAllocated && b !in list
    ensures SameSizes(h, Splice(h, list, k, b, sentinel, empty))
    ensures forall x :: x in h ==> Splice(h, list, k, b, sentinel, empty)[x].isAllocated == h[x].isAllocated
    ensures forall x :: x in h && x != b && x !in list ==> Splice(h, list, k, b, sentinel, empty)[x] == h[x]
    ensures Linked(Splice(h, list, k, b, sentinel, empty), InsertAt(list, k, b),
                   if k == 0 then b else head, sentinel, empty)
  {
    var h' := Splice(h, list, k, b, sentinel, empty);
    var l' := InsertAt(list, k, b);
    DistinctInsert(list, k, b);
    InsertAtIndex(list, k, b);
    forall j | 0 <= j < |l'|
      ensures l'[j] in h' && !h'[l'[j]].isAllocated
      ensures h'[l'[j]].prev == (if j == 0 then sentinel else l'[j - 1])
      ensures h'[l'[j]].next == (if j == |l'| - 1 then empty else l'[j + 1])
    {
      if j < k {
        assert l'[j] == list[j];
        if j > 0 {
          assert l'[j - 1] == list[j - 1];
        }
        if j < k - 1 {
          assert l'[j + 1] == list[j + 1];
        }
      } else if j > k {
        assert l'[j] == list[j - 1];
        if j > k + 1 {
          assert l'[j - 1] == list[j - 2];
        }
        if j < |l'| - 1 {
          assert l'[j + 1] == list[j];
        }
      } else {
        if k > 0 {
          assert l'[k - 1] == list[k - 1];
        }
        if k < |list| {
          assert l'[k + 1] == list[k];
        }
      }
    }
  }

  // ---- The link writes that carry out unlinking and pushing at the head. ----

  /**
   * Unlinking position `k` is what the three pointer-rewriting cases do: a block whose
   * previous link is the sentinel is the head (only the next block is rewritten), and a
   * block whose next link is the empty marker is the last one.
   */
  lemma UnlinkWrites(h: Heap, list: seq<int>, k: nat, head: int, sentinel: int, empty: int)
    requires Linked(h, list, head, sentinel, empty) && k < |list| && sentinel !in list && empty !in list
    ensures h[list[k]].prev == sentinel <==> k == 0
    ensures h[list[k]].next == empty <==> k == |list| - 1
    ensures k > 0 ==> h[list[k]].prev == list[k - 1] && list[k - 1] in h
    ensures k < |list| - 1 ==> h[list[k]].next == list[k + 1] && list[k + 1] in h
    ensures var p := h[list[k]].prev; var n := h[list[k]].next;
      Unlink(h, list, k, sentinel, empty) ==
        if p == sentinel then (if n != empty then h[n := h[n].(prev := sentinel)] else h)
        else if n != empty then h[p := h[p].(next := n)][n := h[n].(prev := p)]
        else h[p := h[p].(next := empty)]
  {
    LinkedAt(h, list, head, sentinel, empty, k);
    if k > 0 {
      LinkedAt(h, list, head, sentinel, empty, k - 1);
    }
    if k < |list| - 1 {
      LinkedAt(h, list, head, sentinel, empty, k + 1);
      if k > 0 {
        assert list[k - 1] != list[k + 1] by {
          assert Distinct(list);
        }
      }
    }
  }

  /** Pushing `b` at the head of a list is what the head-insertion writes do. */
  lemma SpliceHeadWrites(h: Heap, list: seq<int>, head: int, b: int, sentinel: int, empty: int)
    requires Linked(h, list, head, sentinel, empty) && b in h && b !in list && empty !in list
    ensures head == empty <==> list == []
    ensures head != empty ==> head in h && head != b
    ensures Splice(h, list, 0, b, sentinel, empty) ==
      if head == empty then h[b := h[b].(prev := sentinel, next := empty)]
      else h[b := h[b].(prev := sentinel, next := head)][head := h[head].(prev := b)]
  {
    if list != [] {
      LinkedAt(h, list, head, sentinel, empty, 0);
    }
  }

  /** Splicing `b` between positions `k - 1` and `k` is what the in-between insertion writes do. */
  lemma SpliceMidWrites(h: Heap, list: seq<int>, head: int, k: nat, b: int, sentinel: int, empty: int)
    requires Linked(h, list, head, sentinel, empty) && 0 < k < |list| && b in h && b !in list
    ensures list[k - 1] in h && list[k] in h && list[k - 1] != list[k]
    ensures Splice(h, list, k, b, sentinel, empty) ==
      h[list[k - 1] := h[list[k - 1]].(next := b)][b := h[b].(prev := list[k - 1], next := list[k])][list[k] := h[list[k]].(prev := b)]
  {
    LinkedAt(h, list, head, sentinel, empty, k - 1);
    LinkedAt(h, list, head, sentinel, empty, k);
    assert Distinct(list);
  }

  /** Appending `b` after the last block is what the insertion-at-the-end writes do. */
  lemma SpliceEndWrites(h: Heap, list: seq<int>, head: int, b: int, sentinel: int, empty: int)
    requires Linked(h, list, head, sentinel, empty) && 0 < |list| && b in h && b !in list
    ensures list[|list| - 1] in h
    ensures Splice(h, list, |list|, b, sentinel, empty) ==
      h[list[|list| - 1] := h[list[|list| - 1]].(next := b)][b := h[b].(prev := list[|list| - 1], next := empty)]
  {
    LinkedAt(h, list, head, sentinel, empty, |list| - 1);
  }

  /** Every block of a tiling lies in `[start, end)`, and every block after the first starts past the first one's end. */
  lemma TiledBounds(h: Heap, layout: seq<int>, start: int, end: int)
    requires Tiled(h, layout, start, end)
    ensures forall x :: x in h ==> start <= x && End(h, x) <= end
    ensures layout != [] ==> forall x :: x in h && x != layout[0] ==> End(h, layout[0]) <= x
  {
    TilesFacts(h, layout, start, end);
    forall x | x in h ensures start <= x && End(h, x) <= end && (x != layout[0] ==> End(h, layout[0]) <= x) {
      var i := IndexOf(layout, x);
    }
  }
}
