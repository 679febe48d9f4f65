// Byte accounting over a tiled heap: the payload bytes held by allocated and by
// free blocks, and how each heap step of the segregated free lists changes them.

module Accounting {
  import opened Common
  import opened FreeList
  import opened SegLists

  /** The payload bytes block `x` contributes to the allocated (`alloc`) or free (`!alloc`) count. */
  function Part(h: Heap, x: int, alloc: bool): nat
  {
    if x in h && h[x].isAllocated == alloc then h[x].size else 0
  }

  /** The payload bytes of the blocks of `layout` on the allocated (`alloc`) or free (`!alloc`) side. */
  function Bytes(h: Heap, layout: seq<int>, alloc: bool): nat
    decreases |layout|
  {
    if layout == [] then 0 else Part(h, layout[0], alloc) + Bytes(h, layout[1..], alloc)
  }

  /** The count splits over a concatenation. */
  lemma {:induction false} BytesConcat(h: Heap, a: seq<int>, b: seq<int>, alloc: bool)
    ensures Bytes(h, a + b, alloc) == Bytes(h, a, alloc) + Bytes(h, b, alloc)
    decreases |a|
  {
    if a == [] {
      assert a + b == b;
    } else {
      assert (a + b)[0] == a[0] && (a + b)[1..] == a[1..] + b;
      BytesConcat(h, a[1..], b, alloc);
    }
  }

  /** Two heaps that agree on every block of `layout` count the same. */
  lemma {:induction false} BytesFrame(h: Heap, h': Heap, layout: seq<int>, alloc: bool)
    requires forall i :: 0 <= i < |layout| ==> Part(h, layout[i], alloc) == Part(h', layout[i], alloc)
    ensures Bytes(h, layout, alloc) == Bytes(h', layout, alloc)
    decreases |layout|
  {
    if layout != [] {
      assert Part(h, layout[0], alloc) == Part(h', layout[0], alloc);
      forall i | 0 <= i < |layout| - 1
        ensures Part(h, layout[1..][i], alloc) == Part(h', layout[1..][i], alloc)
      {
        assert layout[1..][i] == layout[i + 1];
      }
      BytesFrame(h, h', layout[1..], alloc);
    }
  }

  /** A one-block layout counts that block. */
  lemma BytesSingle(h: Heap, x: int, alloc: bool)
    ensures Bytes(h, [x], alloc) == Part(h, x, alloc)
  {
    assert [x][1..] == [];
  }

  /** Rewriting headers (flags, links) without resizing or flipping a flag keeps both counts. */
  lemma BytesSameSizes(h: Heap, h': Heap, layout: seq<int>)
    requires SameSizes(h, h') && forall x :: x in h ==> h'[x].isAllocated == h[x].isAllocated
    ensures Bytes(h', layout, true) == Bytes(h, layout, true)
    ensures Bytes(h', layout, false) == Bytes(h, layout, false)
  {
    BytesFrame(h, h', layout, true);
    BytesFrame(h, h', layout, false);
  }

  /** A layout element that no other position repeats. */
  ghost predicate Unique(layout: seq<int>, i: int)
  {
    0 <= i < |layout| && forall j :: 0 <= j < |layout| && layout[j] == layout[i] ==> j == i
  }

  /** The blocks of `layout` other than position `i` see the same heap in `h` and `h'`. */
  lemma BytesAround(h: Heap, h': Heap, layout: seq<int>, i: nat, alloc: bool)
    requires i < |layout|
    requires forall j :: 0 <= j < |layout| && j != i ==> Part(h, layout[j], alloc) == Part(h', layout[j], alloc)
    ensures Bytes(h', layout, alloc) == Bytes(h, layout, alloc) - Part(h, layout[i], alloc) + Part(h', layout[i], alloc)
  {
    var pre := layout[..i];
    var post := layout[i + 1..];
    assert layout == pre + ([layout[i]] + post);
    BytesConcat(h, pre, [layout[i]] + post, alloc);
    BytesConcat(h, [layout[i]], post, alloc);
    BytesConcat(h', pre, [layout[i]] + post, alloc);
    BytesConcat(h', [layout[i]], post, alloc);
    BytesSingle(h, layout[i], alloc);
    BytesSingle(h', layout[i], alloc);
    forall j | 0 <= j < |pre| ensures Part(h, pre[j], alloc) == Part(h', pre[j], alloc) {
      assert pre[j] == layout[j];
    }
    forall j | 0 <= j < |post| ensures Part(h, post[j], alloc) == Part(h', post[j], alloc) {
      assert post[j] == layout[i + 1 + j];
    }
    BytesFrame(h, h', pre, alloc);
    BytesFrame(h, h', post, alloc);
  }

  /** Replacing the header of a block that appears once in the layout changes only its own share. */
  lemma BytesSet(h: Heap, layout: seq<int>, i: nat, b: Block, alloc: bool)
    requires Unique(layout, i)
    ensures Bytes(h[layout[i] := b], layout, alloc) == Bytes(h, layout, alloc) - Part(h, layout[i], alloc) + Part(h[layout[i] := b], layout[i], alloc)
  {
    var h' := h[layout[i] := b];
    forall j | 0 <= j < |layout| && j != i ensures Part(h, layout[j], alloc) == Part(h', layout[j], alloc) {
      assert layout[j] != layout[i];
    }
    BytesAround(h, h', layout, i, alloc);
  }

  /** Inserting a new block into the layout adds its share. */
  lemma BytesInsert(h: Heap, layout: seq<int>, k: nat, q: int, b: Block, alloc: bool)
    requires k <= |layout| && q !in layout
    ensures Bytes(h[q := b], InsertAt(layout, k, q), alloc) == Bytes(h, layout, alloc) + Part(h[q := b], q, alloc)
  {
    var h' := h[q := b];
    var pre := layout[..k];
    var post := layout[k..];
    assert layout == pre + post;
    assert InsertAt(layout, k, q) == pre + ([q] + post);
    BytesConcat(h, pre, post, alloc);
    BytesConcat(h', pre, [q] + post, alloc);
    BytesConcat(h', [q], post, alloc);
    BytesSingle(h', q, alloc);
    forall j | 0 <= j < |pre| ensures Part(h, pre[j], alloc) == Part(h', pre[j], alloc) {
      assert pre[j] == layout[j];
    }
    forall j | 0 <= j < |post| ensures Part(h, post[j], alloc) == Part(h', post[j], alloc) {
      assert post[j] == layout[k + j];
    }
    BytesFrame(h, h', pre, alloc);
    BytesFrame(h, h', post, alloc);
  }

  /** Removing a block that appears once in the layout subtracts its share. */
  lemma BytesRemove(h: Heap, layout: seq<int>, k: nat, alloc: bool)
    requires Unique(layout, k)
    ensures Bytes(h - {layout[k]}, RemoveAt(layout, k), alloc) == Bytes(h, layout, alloc) - Part(h, layout[k], alloc)
  {
    var h' := h - {layout[k]};
    var pre := layout[..k];
    var post := layout[k + 1..];
    assert layout == pre + ([layout[k]] + post);
    assert RemoveAt(layout, k) == pre + post;
    BytesConcat(h, pre, [layout[k]] + post, alloc);
    BytesConcat(h, [layout[k]], post, alloc);
    BytesConcat(h', pre, post, alloc);
    BytesSingle(h, layout[k], alloc);
    forall j | 0 <= j < |pre| ensures Part(h, pre[j], alloc) == Part(h', pre[j], alloc) {
      assert pre[j] == layout[j] && layout[j] != layout[k];
    }
    forall j | 0 <= j < |post| ensures Part(h, post[j], alloc) == Part(h', post[j], alloc) {
      assert post[j] == layout[k + 1 + j] && layout[k + 1 + j] != layout[k];
    }
    BytesFrame(h, h', pre, alloc);
    BytesFrame(h, h', post, alloc);
  }

  /** No offset appears twice in the layout. */
  ghost predicate NoRepeats(layout: seq<int>)
  {
    forall i, j :: 0 <= i < |layout| && 0 <= j < |layout| && layout[i] == layout[j] ==> i == j
  }

  /** Splitting block `i`: the old block's share is replaced by those of the two pieces. */
  lemma BytesSplit(s: Store, i: nat, front: Block, rest: Block, alloc: bool)
    requires NoRepeats(s.layout) && i < |s.layout| && s.layout[i] + front.size + 2 * OVERHEAD !in s.layout
    ensures Bytes(SplitStore(s, i, front, rest).blocks, SplitStore(s, i, front, rest).layout, alloc)
         == Bytes(s.blocks, s.layout, alloc) - Part(s.blocks, s.layout[i], alloc)
            + (if front.isAllocated == alloc then front.size else 0)
            + (if rest.isAllocated == alloc then rest.size else 0)
  {
    var o := s.layout[i];
    var q := o + front.size + 2 * OVERHEAD;
    BytesSet(s.blocks, s.layout, i, front, alloc);
    BytesInsert(s.blocks[o := front], s.layout, i + 1, q, rest, alloc);
  }

  /** Merging blocks `i` and `i + 1` into `b`: their shares are replaced by that of `b`. */
  lemma BytesMerge(s: Store, i: nat, b: Block, alloc: bool)
    requires NoRepeats(s.layout) && i + 1 < |s.layout|
    ensures Bytes(MergeStore(s, i, b).blocks, MergeStore(s, i, b).layout, alloc)
         == Bytes(s.blocks, s.layout, alloc) - Part(s.blocks, s.layout[i], alloc) - Part(s.blocks, s.layout[i + 1], alloc)
            + (if b.isAllocated == alloc then b.size else 0)
  {
    var l := s.layout;
    var n := l[i + 1];
    var l' := RemoveAt(l, i + 1);
    BytesRemove(s.blocks, l, i + 1, alloc);
    assert l'[i] == l[i];
    assert Unique(l', i) by {
      RemoveAtIndex(l, i + 1);
    }
    BytesSet(s.blocks - {n}, l', i, b, alloc);
  }

  /** A block laid over grown memory adds its own share. */
  lemma BytesGrow(s: Store, end: int, b: Block, alloc: bool)
    requires end !in s.layout
    ensures Bytes(GrowStore(s, end, b).blocks, GrowStore(s, end, b).layout, alloc)
         == Bytes(s.blocks, s.layout, alloc) + (if b.isAllocated == alloc then b.size else 0)
  {
    var h' := s.blocks[end := b];
    BytesConcat(h', s.layout, [end], alloc);
    BytesSingle(h', end, alloc);
    forall j | 0 <= j < |s.layout| ensures Part(s.blocks, s.layout[j], alloc) == Part(h', s.layout[j], alloc) {
      assert s.layout[j] != end;
    }
    BytesFrame(s.blocks, h', s.layout, alloc);
  }

  /** A layout none of whose blocks is allocated holds no allocated bytes. */
  lemma {:induction false} BytesNoneAllocated(h: Heap, layout: seq<int>)
    requires forall i :: 0 <= i < |layout| ==> Part(h, layout[i], true) == 0
    ensures Bytes(h, layout, true) == 0
    decreases |layout|
  {
    if layout != [] {
      forall i | 0 <= i < |layout| - 1 ensures Part(h, layout[1..][i], true) == 0 {
        assert layout[1..][i] == layout[i + 1];
      }
      BytesNoneAllocated(h, layout[1..]);
    }
  }
}
