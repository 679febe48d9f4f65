// The segregated-fit allocator of src/mem/allocator.rs: sixty size classes, each a
// doubly-linked free list threaded through the link words of free blocks, whose heads
// live in the allocator's own block; allocation pops the first fitting block of the
// ideal class, else the head of the next non-empty larger class, else grows the heap.

module MemAllocator {
  import opened Common
  import opened FreeList
  import opened SegLists
  import opened Accounting
  import opened AllocatorHeap

  /** The magic bytes at the front of the allocator's payload. */
  predicate Magic(mem: seq<byte>, ptr: nat)
  {
    ptr + OVERHEAD + |MAGIC| <= |mem| && mem[ptr + OVERHEAD .. ptr + OVERHEAD + |MAGIC|] == MAGIC
  }

  /** The bytes `data` lie in memory from `p` on. */
  predicate Stored(mem: seq<byte>, p: int, data: seq<byte>)
  {
    0 <= p && p + |data| <= |mem| && mem[p .. p + |data|] == data
  }

  /** A write at or past the end of the magic bytes keeps them. */
  lemma MagicWrite(mem: seq<byte>, ptr: nat, a: nat, data: seq<byte>)
    requires Magic(mem, ptr) && ptr + OVERHEAD + |MAGIC| <= a && a + |data| <= |mem|
    ensures Magic(mem[..a] + data + mem[a + |data|..], ptr)
  {
    var mem' := mem[..a] + data + mem[a + |data|..];
    assert mem'[ptr + OVERHEAD .. ptr + OVERHEAD + |MAGIC|] == mem[ptr + OVERHEAD .. ptr + OVERHEAD + |MAGIC|];
  }

  /** Memory grown at its end keeps the magic bytes. */
  lemma MagicAppend(mem: seq<byte>, more: seq<byte>, ptr: nat)
    requires Magic(mem, ptr)
    ensures Magic(mem + more, ptr)
  {
    assert (mem + more)[ptr + OVERHEAD .. ptr + OVERHEAD + |MAGIC|] == mem[ptr + OVERHEAD .. ptr + OVERHEAD + |MAGIC|];
  }

  // ---- The allocator. ----

  class StableMemoryAllocator {
    /** Block headers by offset: size, allocation flag, and the two link words of a free block. */
    var blocks: Heap
    /** The class heads stored in the allocator's block. */
    var heads: seq<int>
    /** Each class's free list, head first. */
    ghost var lists: seq<seq<int>>
    /**
     * Every block offset in address order, starting with the allocator's own block: what the
     * size words at both ends of every block let the code walk to either physical neighbour.
     */
    var layout: seq<int>
    /** The two counters stored in the allocator's block. */
    var allocatedSize: int
    var freeSize: int
    /** The host memory: its size in pages, the page limit, and its bytes. */
    var pages: nat
    const maxPages: nat
    var mem: seq<byte>
    /** The offset of the allocator's own block. */
    const ptr: nat

    /** The heap as a value: headers, class heads, lists and layout. */
    ghost function St(): Store
      reads this`blocks, this`heads, this`lists, this`layout
    {
      Store(blocks, heads, lists, layout)
    }

    /**
     * The heap invariant with blocks `F` floating (off every list) and the counters off by
     * `df` and `da` while an operation is under way.
     */
    ghost predicate Inner(F: set<int>, df: int, da: int)
      reads this
    {
      |heads| == SEG_CLASS_PTRS_COUNT &&
      maxPages * PAGE_SIZE_BYTES <= MAX_HEAP && pages <= maxPages && |mem| == pages * PAGE_SIZE_BYTES &&
      Magic(mem, ptr) &&
      Good(St(), ptr, pages * PAGE_SIZE_BYTES, F, freeSize, allocatedSize, df, da)
    }

    /**
     * The allocator's invariant: the blocks tile the heap from the allocator's own block to
     * the end of memory, every free block is on the list of its class, no two free blocks
     * touch, and the counters hold the payload bytes of the free blocks and of the
     * allocated blocks other than the allocator's own.
     */
    ghost predicate Inv()
      reads this
    {
      Inner({}, 0, 0)
    }

    /** The link writes of `eject_from_freelist`, needing only that the list is well linked. */
    method EjectWrites(c: nat, o: int, ghost k: nat)
      requires |heads| == SEG_CLASS_PTRS_COUNT && |lists| == SEG_CLASS_PTRS_COUNT && c < SEG_CLASS_PTRS_COUNT
      requires k < |lists[c]| && lists[c][k] == o
      requires Linked(blocks, lists[c], heads[c], ptr, EMPTY_PTR) && ptr !in lists[c] && EMPTY_PTR !in lists[c]
      modifies this`blocks, this`lists, this`heads
      ensures St() == SetBlock(EjectStore(Cfg(ptr), old(St()), c, k), old(St()).lists[c][k], old(St()).blocks[old(St()).lists[c][k]].(prev := EMPTY_PTR, next := EMPTY_PTR))
      ensures |heads| == |old(heads)| && |lists| == |old(lists)|
    {
      UnlinkWrites(blocks, lists[c], k, heads[c], ptr, EMPTY_PTR);
      var h, hs := blocks, heads;
      var b := h[o];
      if b.prev == ptr {
        hs := hs[c := b.next];
        if b.next != EMPTY_PTR {
          h := h[b.next := h[b.next].(prev := ptr)];
        }
      } else if b.next != EMPTY_PTR {
        h := h[b.prev := h[b.prev].(next := b.next)][b.next := h[b.next].(prev := b.prev)];
      } else {
        h := h[b.prev := h[b.prev].(next := EMPTY_PTR)];
      }
      blocks, heads, lists := h[o := b.(prev := EMPTY_PTR, next := EMPTY_PTR)], hs, lists[c := RemoveAt(lists[c], k)];
    }

    /** `eject_from_freelist`: takes block `o`, position `k` of class `c`'s list, off the list and clears its links. */
    method Eject(c: nat, o: int, ghost k: nat, ghost F: set<int>, ghost df: int, ghost da: int)
      requires Inner(F, df, da) && c < SEG_CLASS_PTRS_COUNT && k < |lists[c]| && lists[c][k] == o
      modifies this`blocks, this`lists, this`heads
      ensures o in old(blocks) && !old(blocks)[o].isAllocated && o !in F
      ensures St() == SetBlock(EjectStore(Cfg(ptr), old(St()), c, k), o, old(blocks)[o].(prev := EMPTY_PTR, next := EMPTY_PTR))
      ensures Inner(F + {o}, df, da)
      ensures blocks.Keys == old(blocks).Keys
      ensures Kept(old(blocks), blocks)
    {
      ListFacts(St(), ptr, pages * PAGE_SIZE_BYTES, F, c);
      EjectWrites(c, o, k);
      assert blocks.Keys == old(blocks).Keys;
      assert maxPages * PAGE_SIZE_BYTES <= MAX_HEAP && pages <= maxPages && |mem| == pages * PAGE_SIZE_BYTES &&
      Magic(mem, ptr) && pages == old(pages) && freeSize == old(freeSize) && allocatedSize == old(allocatedSize);
      GoodEject(old(St()), ptr, old(pages) * PAGE_SIZE_BYTES, F, old(freeSize), old(allocatedSize), df, da, c, k);
    }

    /** `set_allocated(true)` on a floating block: it becomes allocated, and the counters are due its size. */
    method MarkAllocated(o: int, ghost F: set<int>, ghost df: int, ghost da: int)
      requires Inner(F, df, da) && o in F
      modifies this`blocks
      ensures o in old(blocks) && St() == SetBlock(old(St()), o, old(blocks)[o].(isAllocated := true))
      ensures Inner(F - {o}, df - old(blocks)[o].size, da + old(blocks)[o].size)
      ensures Kept(old(blocks), blocks)
    {
      GoodTake(St(), ptr, pages * PAGE_SIZE_BYTES, F, freeSize, allocatedSize, df, da, o);
      blocks := blocks[o := blocks[o].(isAllocated := true)];
    }

    /** `set_allocated(false)` on an allocated block: it floats, and the counters are due its size back. */
    method MarkFree(o: int, ghost F: set<int>, ghost df: int, ghost da: int)
      requires Inner(F, df, da) && o in blocks && blocks[o].isAllocated && o != ptr
      modifies this`blocks
      ensures St() == SetBlock(old(St()), o, old(blocks)[o].(isAllocated := false))
      ensures Inner(F + {o}, df + old(blocks)[o].size, da - old(blocks)[o].size)
      ensures Kept(old(blocks) - {o}, blocks)
    {
      GoodFree(St(), ptr, pages * PAGE_SIZE_BYTES, F, freeSize, allocatedSize, df, da, o);
      blocks := blocks[o := blocks[o].(isAllocated := false)];
    }

    /** `set_free_size(get_free_size() + delta)`. */
    method AddFree(delta: int, ghost F: set<int>, ghost df: int, ghost da: int)
      requires Inner(F, df, da)
      modifies this`freeSize
      ensures freeSize == old(freeSize) + delta
      ensures Inner(F, df - delta, da)
    {
      freeSize := freeSize + delta;
    }

    /** `set_allocated_size(get_allocated_size() + delta)`. */
    method AddAllocated(delta: int, ghost F: set<int>, ghost df: int, ghost da: int)
      requires Inner(F, df, da)
      modifies this`allocatedSize
      ensures allocatedSize == old(allocatedSize) + delta
      ensures Inner(F, df, da - delta)
    {
      allocatedSize := allocatedSize + delta;
    }

    /** The header writes of `split`: block `o`, at layout position `i`, becomes `front`, and `back` follows it. */
    method SplitWrites(o: int, front: Block, back: Block, i: nat)
      requires i < |layout| && layout[i] == o
      modifies this`blocks, this`layout
      ensures St() == SplitStore(old(St()), i, front, back)
    {
      var q := o + front.size + 2 * OVERHEAD;
      blocks, layout := blocks[o := front][q := back], InsertAt(layout, i + 1, q);
    }

    /**
     * `split(size)` on a floating block (the code of `split` is not part of this model): when
     * the rest can hold a minimal block, the block keeps `size` bytes and a new floating block
     * takes the rest, two headers on; otherwise nothing changes.
     */
    method Split(o: int, size: nat, i: nat, ghost F: set<int>, ghost df: int, ghost da: int) returns (rest: Option<int>)
      requires Inner(F, df, da) && i < |layout| && layout[i] == o && o in F
      modifies this`blocks, this`layout
      ensures CanSplit(old(blocks)[o].size, size) ==>
        rest == Some(o + size + 2 * OVERHEAD) &&
        St() == SplitStore(old(St()), i, old(blocks)[o].(size := size),
                           Block(old(blocks)[o].size - size - 2 * OVERHEAD, false, EMPTY_PTR, EMPTY_PTR)) &&
        Inner(F + {o + size + 2 * OVERHEAD}, df - 2 * OVERHEAD, da)
      ensures !CanSplit(old(blocks)[o].size, size) ==> rest == None && St() == old(St()) && Inner(F, df, da)
      ensures Kept(old(blocks), blocks)
    {
      var b := blocks[o];
      if CanSplit(b.size, size) {
        var front, back := b.(size := size), Block(b.size - size - 2 * OVERHEAD, false, EMPTY_PTR, EMPTY_PTR);
        var q := o + size + 2 * OVERHEAD;
        rest := Some(q);
        assert rest == Some(o + size + 2 * OVERHEAD);
        SplitWrites(o, front, back, i);
        assert St() == SplitStore(old(St()), i, old(blocks)[o].(size := size),
                                  Block(old(blocks)[o].size - size - 2 * OVERHEAD, false, EMPTY_PTR, EMPTY_PTR));
        assert |heads| == SEG_CLASS_PTRS_COUNT && maxPages * PAGE_SIZE_BYTES <= MAX_HEAP && pages <= maxPages &&
          |mem| == pages * PAGE_SIZE_BYTES && Magic(mem, ptr) &&
          pages == old(pages) && freeSize == old(freeSize) && allocatedSize == old(allocatedSize);
        GoodSplit(old(St()), ptr, old(pages) * PAGE_SIZE_BYTES, F, old(freeSize), old(allocatedSize), df, da, i, front, back, q);
      } else {
        rest := None;
      }
    }

    /**
     * `merge_with_neighbor` (the code is not part of this model) on the floating neighbours
     * `a` and `b` at layout positions `j` and `j + 1`: one block at `a` holds both payloads
     * and the two headers between them.
     */
    method Merge(a: int, b: int, j: nat, ghost F: set<int>, ghost df: int, ghost da: int)
      requires Inner(F, df, da) && j + 1 < |layout| && layout[j] == a && layout[j + 1] == b && a in F && b in F
      modifies this`blocks, this`layout
      ensures St() == MergeStore(old(St()), j, old(blocks)[a].(size := old(blocks)[a].size + old(blocks)[b].size + 2 * OVERHEAD))
      ensures Inner(F - {b}, df + 2 * OVERHEAD, da)
      ensures blocks.Keys <= old(blocks).Keys
      ensures Kept(old(blocks), blocks)
    {
      var m := blocks[a].(size := blocks[a].size + blocks[b].size + 2 * OVERHEAD);
      GoodMerge(St(), ptr, pages * PAGE_SIZE_BYTES, F, freeSize, allocatedSize, df, da, j, m);
      blocks := (blocks - {b})[a := m];
      layout := RemoveAt(layout, j + 1);
    }

    /** The writes of growing by `n` pages and laying the free block `b` over them. */
    method GrowWrites(n: nat, b: Block)
      modifies this`blocks, this`layout, this`pages, this`mem, this`freeSize
      ensures St() == GrowStore(old(St()), old(pages) * PAGE_SIZE_BYTES, b)
      ensures pages == old(pages) + n && mem == old(mem) + Zeros(n * PAGE_SIZE_BYTES) && freeSize == old(freeSize) + b.size
    {
      var end := pages * PAGE_SIZE_BYTES;
      blocks, layout, pages, mem, freeSize := blocks[end := b], layout + [end], pages + n, mem + Zeros(n * PAGE_SIZE_BYTES), freeSize + b.size;
    }

    /**
     * Stage three of `pop_allocated_membox` up to the split: `stable::grow(n)` (which fails
     * past the page limit), `new_total_size` over the new pages, and the free counter raised
     * by the new block's size.
     */
    method GrowFreeBlock(n: nat, ghost df: int, ghost da: int) returns (r: Option<int>)
      requires Inner({}, df, da) && n >= 1
      modifies this`blocks, this`layout, this`pages, this`mem, this`freeSize
      ensures old(pages) + n <= maxPages ==>
        r == Some(old(pages) * PAGE_SIZE_BYTES) && old(pages) * PAGE_SIZE_BYTES !in old(blocks) && pages == old(pages) + n &&
        mem == old(mem) + Zeros(n * PAGE_SIZE_BYTES) && freeSize == old(freeSize) + n * PAGE_SIZE_BYTES - 2 * OVERHEAD &&
        St() == GrowStore(old(St()), old(pages) * PAGE_SIZE_BYTES, Block(n * PAGE_SIZE_BYTES - 2 * OVERHEAD, false, EMPTY_PTR, EMPTY_PTR)) &&
        Inner({old(pages) * PAGE_SIZE_BYTES}, df, da)
      ensures old(pages) + n > maxPages ==>
        r == None && St() == old(St()) && pages == old(pages) && mem == old(mem) && freeSize == old(freeSize)
      ensures Kept(old(blocks), blocks)
    {
      if pages + n > maxPages {
        r := None;
        return;
      }
      var end := pages * PAGE_SIZE_BYTES;
      var b := Block(n * PAGE_SIZE_BYTES - 2 * OVERHEAD, false, EMPTY_PTR, EMPTY_PTR);
      r := Some(end);
      assert r == Some(old(pages) * PAGE_SIZE_BYTES);
      GrowWrites(n, b);
      assert St() == GrowStore(old(St()), old(pages) * PAGE_SIZE_BYTES, Block(n * PAGE_SIZE_BYTES - 2 * OVERHEAD, false, EMPTY_PTR, EMPTY_PTR));
      MagicAppend(old(mem), Zeros(n * PAGE_SIZE_BYTES), ptr);
      assert |heads| == SEG_CLASS_PTRS_COUNT && maxPages * PAGE_SIZE_BYTES <= MAX_HEAP && pages <= maxPages &&
        |mem| == pages * PAGE_SIZE_BYTES && Magic(mem, ptr) && allocatedSize == old(allocatedSize);
      assert pages * PAGE_SIZE_BYTES == old(pages) * PAGE_SIZE_BYTES + b.size + 2 * OVERHEAD;
      GoodGrow(old(St()), ptr, old(pages) * PAGE_SIZE_BYTES, old(freeSize), old(allocatedSize), df, da, b);
      KeptSet(old(blocks), old(blocks), end, b);
    }

    /** The link writes of pushing floating block `o` onto the head of class `c`'s list. */
    method PushWrites(c: nat, o: int)
      requires |heads| == SEG_CLASS_PTRS_COUNT && |lists| == SEG_CLASS_PTRS_COUNT && c < SEG_CLASS_PTRS_COUNT
      requires o in blocks && o !in lists[c] && EMPTY_PTR !in lists[c]
      requires Linked(blocks, lists[c], heads[c], ptr, EMPTY_PTR)
      modifies this`blocks, this`lists, this`heads
      ensures St() == SpliceStore(Cfg(ptr), old(St()), c, 0, o)
    {
      SpliceHeadWrites(blocks, lists[c], heads[c], o, ptr, EMPTY_PTR);
      var head := heads[c];
      var h := blocks[o := blocks[o].(prev := ptr)];
      if head == EMPTY_PTR {
        h := h[o := h[o].(next := EMPTY_PTR)];
      } else {
        h := h[o := h[o].(next := head)];
        h := h[head := h[head].(prev := o)];
      }
      blocks, heads, lists := h, heads[c := o], lists[c := InsertAt(lists[c], 0, o)];
    }

    /**
     * `push_free_membox` after the merge (:153-171): the floating block `o`, at layout
     * position `i` and with no settled free neighbour, becomes the head of its class's list.
     */
    method PushFront(o: int, ghost i: nat, ghost F: set<int>, ghost df: int, ghost da: int)
      requires Inner(F, df, da) && i < |layout| && layout[i] == o && o in F
      requires !FreeListed(St(), F, i - 1) && !FreeListed(St(), F, i + 1)
      modifies this`blocks, this`lists, this`heads
      ensures o in old(blocks) && ClassOf(old(blocks)[o].size) < SEG_CLASS_PTRS_COUNT
      ensures St() == SpliceStore(Cfg(ptr), old(St()), ClassOf(old(blocks)[o].size), 0, o)
      ensures o in blocks && !blocks[o].isAllocated
      ensures Inner(F - {o}, df, da)
      ensures Kept(old(blocks), blocks)
    {
      PushFacts(St(), ptr, pages * PAGE_SIZE_BYTES, F, freeSize, allocatedSize, df, da, o);
      var c := SegClassId(blocks[o].size);
      PushWrites(c, o);
      assert St() == SpliceStore(Cfg(ptr), old(St()), ClassOf(old(blocks)[o].size), 0, o);
      assert |heads| == SEG_CLASS_PTRS_COUNT && maxPages * PAGE_SIZE_BYTES <= MAX_HEAP && pages <= maxPages &&
        |mem| == pages * PAGE_SIZE_BYTES && Magic(mem, ptr) &&
        pages == old(pages) && freeSize == old(freeSize) && allocatedSize == old(allocatedSize);
      GoodSplice(old(St()), ptr, old(pages) * PAGE_SIZE_BYTES, F, old(freeSize), old(allocatedSize), df, da, i, ClassOf(old(blocks)[o].size));
    }

    /** The list and header writes of the left merge: `p` leaves its list and absorbs `o`. */
    method EjectMergePrev(p: int, o: int, i: nat, c: nat, ghost k: nat, ghost df: int, ghost da: int)
      requires 0 < i < |layout| && layout[i - 1] == p && layout[i] == o && p != o
      requires Inner({o}, df, da) && c < SEG_CLASS_PTRS_COUNT && k < |lists[c]| && lists[c][k] == p
      modifies this`blocks, this`lists, this`heads, this`layout
      ensures i - 1 < |layout| && layout[i - 1] == p && p in blocks && o !in blocks
      ensures St() == MergeStore(SetBlock(EjectStore(Cfg(ptr), old(St()), c, k), p, old(blocks)[p].(prev := EMPTY_PTR, next := EMPTY_PTR)), i - 1, blocks[p])
      ensures Inner({p}, df + 2 * OVERHEAD, da)
      ensures Kept(old(blocks), blocks)
    {
      Eject(c, p, k, {o}, df, da);
      ghost var h1 := blocks;
      assert layout[i - 1] == p && layout[i] == o;
      assert p in {o} + {p} && o in {o} + {p};
      var j := i - 1;
      assert j + 1 == i && j + 1 < |layout| && layout[j] == p && layout[j + 1] == o;
      assert Inner({o} + {p}, df, da);
      Merge(p, o, j, {o} + {p}, df, da);
      RemoveAtIndex(old(layout), i);
      assert i - 1 < |layout| && layout[i - 1] == p && p in blocks && o !in blocks;
      KeptTrans(old(blocks), h1, blocks);
      PairMinus(p, o);
    }

    /**
     * The left merge of `maybe_merge_with_free_neighbors` once it is decided: the settled free
     * block `p`, position `k` of class `c`'s list and left neighbour of the floating block `o`
     * at layout position `i`, leaves its list, absorbs `o`, and the free counter gains the two
     * headers between them.
     */
    method AbsorbPrev(p: int, o: int, i: nat, c: nat, ghost k: nat, ghost df: int, ghost da: int)
      requires 0 < i < |layout| && layout[i - 1] == p && layout[i] == o
      requires Inner({o}, df, da) && FreeListed(St(), {o}, i - 1)
      requires c < SEG_CLASS_PTRS_COUNT && k < |lists[c]| && lists[c][k] == p
      modifies this`blocks, this`lists, this`heads, this`layout, this`freeSize
      ensures i - 1 < |layout| && layout[i - 1] == p && o !in blocks
      ensures Inner({p}, df, da) && !FreeListed(St(), {p}, i - 2)
      ensures Kept(old(blocks), blocks)
    {
      ghost var s0, end0, fs0, as0 := St(), pages * PAGE_SIZE_BYTES, freeSize, allocatedSize;
      EjectMergePrev(p, o, i, c, k, df, da);
      AbsorbLeft(s0, ptr, end0, fs0, as0, df, da, i, c, k, St(), blocks[p]);
      AddFree(2 * OVERHEAD, {p}, df + 2 * OVERHEAD, da);
      assert df + 2 * OVERHEAD - 2 * OVERHEAD == df;
    }

    /** The list and header writes of the right merge: `n` leaves its list and `m` absorbs it. */
    method EjectMergeNext(m: int, n: int, j: nat, c: nat, ghost k: nat, ghost df: int, ghost da: int)
      requires j + 1 < |layout| && layout[j] == m && layout[j + 1] == n && m != n
      requires Inner({m}, df, da) && c < SEG_CLASS_PTRS_COUNT && k < |lists[c]| && lists[c][k] == n
      modifies this`blocks, this`lists, this`heads, this`layout
      ensures j < |layout| && layout[j] == m && m in blocks && blocks.Keys <= old(blocks).Keys
      ensures St() == MergeStore(SetBlock(EjectStore(Cfg(ptr), old(St()), c, k), n, old(blocks)[n].(prev := EMPTY_PTR, next := EMPTY_PTR)), j, blocks[m])
      ensures blocks[m].size == old(blocks)[m].size + old(blocks)[n].size + 2 * OVERHEAD
      ensures Inner({m}, df + 2 * OVERHEAD, da)
      ensures Kept(old(blocks), blocks)
    {
      Eject(c, n, k, {m}, df, da);
      ghost var h1 := blocks;
      assert layout[j] == m && layout[j + 1] == n;
      assert m in {m} + {n} && n in {m} + {n};
      assert Inner({m} + {n}, df, da);
      Merge(m, n, j, {m} + {n}, df, da);
      RemoveAtIndex(old(layout), j + 1);
      assert j < |layout| && layout[j] == m && m in blocks;
      KeptTrans(old(blocks), h1, blocks);
      PairMinus(m, n);
    }

    /**
     * The right merge of `maybe_merge_with_free_neighbors` once it is decided: the settled free
     * block `n`, position `k` of class `c`'s list and right neighbour of the floating block `m`
     * at layout position `j`, leaves its list and is absorbed into `m`.
     */
    method AbsorbNext(m: int, n: int, j: nat, c: nat, ghost k: nat, ghost df: int, ghost da: int)
      requires j + 1 < |layout| && layout[j] == m && layout[j + 1] == n
      requires Inner({m}, df, da) && FreeListed(St(), {m}, j + 1) && !FreeListed(St(), {m}, j - 1)
      requires c < SEG_CLASS_PTRS_COUNT && k < |lists[c]| && lists[c][k] == n
      modifies this`blocks, this`lists, this`heads, this`layout, this`freeSize
      ensures j < |layout| && layout[j] == m
      ensures Inner({m}, df, da) && !FreeListed(St(), {m}, j - 1) && !FreeListed(St(), {m}, j + 1)
      ensures m in blocks && blocks[m].size == old(blocks)[m].size + old(blocks)[n].size + 2 * OVERHEAD
      ensures blocks.Keys <= old(blocks).Keys
      ensures Kept(old(blocks), blocks)
    {
      ghost var s0, end0, fs0, as0 := St(), pages * PAGE_SIZE_BYTES, freeSize, allocatedSize;
      EjectMergeNext(m, n, j, c, k, df, da);
      AbsorbRight(s0, ptr, end0, fs0, as0, df, da, j, c, k, St(), blocks[m]);
      AddFree(2 * OVERHEAD, {m}, df + 2 * OVERHEAD, da);
      assert df + 2 * OVERHEAD - 2 * OVERHEAD == df;
    }

    /**
     * The first half of `maybe_merge_with_free_neighbors` on the only floating block `o`: a
     * free left neighbour is ejected from its list and absorbed. The result `m`, at layout
     * position `j`, is the only floating block and has no settled free block on its left.
     */
    method MergeLeft(o: int, ghost df: int, ghost da: int) returns (m: int, j: nat)
      requires Inner({o}, df, da)
      modifies this`blocks, this`lists, this`heads, this`layout, this`freeSize
      ensures j < |layout| && layout[j] == m && Inner({m}, df, da)
      ensures !FreeListed(St(), {m}, j - 1)
      ensures m == o || (m in old(blocks) && !old(blocks)[m].isAllocated && End(old(blocks), m) == o && o !in blocks)
      ensures Kept(old(blocks), blocks)
    {
      assert o in layout by {
        LayoutFacts(St(), ptr, pages * PAGE_SIZE_BYTES, {o}, freeSize, allocatedSize, df, da, o);
      }
      var i := IndexOf(layout, o);
      assert 0 < i && layout[i - 1] in blocks && layout[i - 1] != o by {
        LeftNeighbour(St(), ptr, pages * PAGE_SIZE_BYTES, {o}, freeSize, allocatedSize, df, da, i);
      }
      var p := layout[i - 1];
      if blocks[p].isAllocated {
        m, j := o, i;
        return;
      }
      JoinPrev(p, o, i, df, da);
      m, j := p, i - 1;
    }

    /** The left merge once the left neighbour `p` of the floating block `o` is known to be free. */
    method JoinPrev(p: int, o: int, i: nat, ghost df: int, ghost da: int)
      requires 0 < i < |layout| && layout[i - 1] == p && layout[i] == o && p != o
      requires Inner({o}, df, da) && p in blocks && !blocks[p].isAllocated
      modifies this`blocks, this`lists, this`heads, this`layout, this`freeSize
      ensures i - 1 < |layout| && layout[i - 1] == p && Inner({p}, df, da) && !FreeListed(St(), {p}, i - 2)
      ensures p in old(blocks) && !old(blocks)[p].isAllocated && End(old(blocks), p) == o && o !in blocks
      ensures Kept(old(blocks), blocks)
    {
      assert End(blocks, p) == o by {
        TiledPrev(blocks, layout, ptr, pages * PAGE_SIZE_BYTES, i);
      }
      assert SegClassId(blocks[p].size) < SEG_CLASS_PTRS_COUNT && p in lists[SegClassId(blocks[p].size)] by {
        SettledFacts(St(), ptr, pages * PAGE_SIZE_BYTES, {o}, freeSize, allocatedSize, df, da, p);
      }
      var c := SegClassId(blocks[p].size);
      ghost var k := IndexOf(lists[c], p);
      AbsorbPrev(p, o, i, c, k, df, da);
    }

    /**
     * The second half of `maybe_merge_with_free_neighbors`: a free right neighbour of the
     * only floating block `m` is ejected from its list and absorbed. Afterwards `m` touches
     * no settled free block.
     */
    method MergeRight(m: int, j: nat, ghost df: int, ghost da: int)
      requires j < |layout| && layout[j] == m && Inner({m}, df, da) && !FreeListed(St(), {m}, j - 1)
      modifies this`blocks, this`lists, this`heads, this`layout, this`freeSize
      ensures j < |layout| && layout[j] == m && Inner({m}, df, da)
      ensures !FreeListed(St(), {m}, j - 1) && !FreeListed(St(), {m}, j + 1)
      ensures m in old(blocks) && m in blocks && End(blocks, m) >= End(old(blocks), m)
      ensures blocks.Keys <= old(blocks).Keys
      ensures Kept(old(blocks), blocks)
    {
      LayoutFacts(St(), ptr, pages * PAGE_SIZE_BYTES, {m}, freeSize, allocatedSize, df, da, m);
      if j + 1 == |layout| {
        return;
      }
      var n := layout[j + 1];
      if blocks[n].isAllocated {
        return;
      }
      SettledFacts(St(), ptr, pages * PAGE_SIZE_BYTES, {m}, freeSize, allocatedSize, df, da, n);
      var c := SegClassId(blocks[n].size);
      ghost var k := IndexOf(lists[c], n);
      AbsorbNext(m, n, j, c, k, df, da);
    }

    /** `maybe_merge_with_free_neighbors`: both halves. */
    method MaybeMergeWithFreeNeighbors(o: int, ghost df: int, ghost da: int) returns (m: int, j: nat)
      requires Inner({o}, df, da)
      modifies this`blocks, this`lists, this`heads, this`layout, this`freeSize
      ensures j < |layout| && layout[j] == m && Inner({m}, df, da)
      ensures !FreeListed(St(), {m}, j - 1) && !FreeListed(St(), {m}, j + 1)
      ensures o in blocks ==> o == m
      ensures Kept(old(blocks), blocks)
    {
      m, j := MergeLeft(o, df, da);
      ghost var h := blocks;
      MergeRight(m, j, df, da);
      KeptTrans(old(blocks), h, blocks);
    }

    /**
     * `push_free_membox`: the floating block `o` is merged with its free neighbours and the
     * result heads the list of its class; afterwards no block floats.
     */
    method PushFreeMembox(o: int, ghost df: int, ghost da: int)
      requires Inner({o}, df, da)
      modifies this`blocks, this`lists, this`heads, this`layout, this`freeSize
      ensures Inner({}, df, da)
      ensures o !in AllocatedSet(blocks)
      ensures Kept(old(blocks), blocks)
    {
      var m, j := MaybeMergeWithFreeNeighbors(o, df, da);
      ghost var h := blocks;
      PushFront(m, j, {m}, df, da);
      assert {m} - {m} == {};
      KeptTrans(old(blocks), h, blocks);
    }

    /**
     * Stage one of `pop_allocated_membox` (:176-200): walks class `c`'s list from its head
     * along the next links and stops at the first block that holds `size` bytes.
     */
    method SearchClass(c: nat, size: nat) returns (r: Option<int>, ghost k: nat)
      requires c < |lists| && c < |heads|
      requires Linked(blocks, lists[c], heads[c], ptr, EMPTY_PTR) && EMPTY_PTR !in lists[c]
      ensures r.Some? <==> FirstFit(blocks, lists[c], size, 0).Some?
      ensures r.Some? ==> FirstFit(blocks, lists[c], size, 0) == Some(k) && r.value == lists[c][k]
    {
      var cur := heads[c];
      if cur == EMPTY_PTR {
        return None, 0;
      }
      k := 0;
      while true
        invariant k < |lists[c]| && cur == lists[c][k]
        invariant FirstFit(blocks, lists[c], size, 0) == FirstFit(blocks, lists[c], size, k)
        decreases |lists[c]| - k
      {
        LinkedAt(blocks, lists[c], heads[c], ptr, EMPTY_PTR, k);
        if blocks[cur].size >= size {
          return Some(cur), k;
        }
        var next := blocks[cur].next;
        if next == EMPTY_PTR {
          return None, k;
        }
        cur, k := next, k + 1;
      }
    }

    /**
     * Stage two of `pop_allocated_membox` (:202-216): scans the classes above `c` for a head
     * that holds `size` bytes. When every non-empty class above `c` is headed by a block
     * larger than `size`, the scan stops at the first non-empty class.
     */
    method SearchLarger(c: nat, size: nat) returns (d: nat, r: Option<int>)
      requires c < SEG_CLASS_PTRS_COUNT && |heads| == SEG_CLASS_PTRS_COUNT
      requires forall e :: c < e < SEG_CLASS_PTRS_COUNT && heads[e] != EMPTY_PTR ==> heads[e] in blocks
      ensures HeadsFit(blocks, heads, c, size) ==>
        match NextNonEmpty(heads, c + 1)
        case Some(e) => d == e && r == Some(heads[e])
        case None => r == None
    {
      r := None;
      d := c + 1;
      while d < SEG_CLASS_PTRS_COUNT
        invariant c + 1 <= d <= SEG_CLASS_PTRS_COUNT
        invariant HeadsFit(blocks, heads, c, size) ==> r == None && NextNonEmpty(heads, c + 1) == NextNonEmpty(heads, d)
      {
        r := if heads[d] == EMPTY_PTR then None else Some(heads[d]);
        if r.Some? && blocks[r.value].size >= size {
          break;
        }
        d := d + 1;
      }
    }

    /**
     * `split(size)` on the only floating block `o` with the free counter corrected for the
     * two headers a cut costs: `o` keeps `size` bytes when the rest can stand alone, and the
     * rest floats beside it.
     */
    method SplitCounted(o: int, size: nat, i: nat, ghost df: int, ghost da: int) returns (rest: Option<int>)
      requires Inner({o}, df, da) && i < |layout| && layout[i] == o
      modifies this`blocks, this`layout, this`freeSize
      ensures o in old(blocks) && o in blocks
      ensures blocks[o].size == (if CanSplit(old(blocks)[o].size, size) then size else old(blocks)[o].size)
      ensures rest.Some? <==> CanSplit(old(blocks)[o].size, size)
      ensures rest.Some? ==> rest.value != o && Inner({o} + {rest.value}, df, da)
      ensures rest.None? ==> Inner({o}, df, da)
      ensures Kept(old(blocks), blocks)
    {
      rest := Split(o, size, i, {o}, df, da);
      if rest.Some? {
        assert blocks[o].size == size;
        AddFree(-(2 * OVERHEAD), {o} + {rest.value}, df - 2 * OVERHEAD, da);
        assert df - 2 * OVERHEAD - -(2 * OVERHEAD) == df;
      }
    }

    /**
     * The common ending of stages two and three: the only floating block `o` is split to
     * `size` when it can be, marked allocated, and the rest is pushed as a free block.
     */
    method TakeFloating(o: int, size: nat, i: nat, ghost df: int, ghost da: int)
      requires Inner({o}, df, da) && i < |layout| && layout[i] == o
      modifies this`blocks, this`lists, this`heads, this`layout, this`freeSize
      ensures o in old(blocks) && o in blocks && blocks[o].isAllocated
      ensures blocks[o].size == (if CanSplit(old(blocks)[o].size, size) then size else old(blocks)[o].size)
      ensures Inner({}, df - blocks[o].size, da + blocks[o].size)
      ensures Kept(old(blocks), blocks)
    {
      var rest := SplitCounted(o, size, i, df, da);
      ghost var h1 := blocks;
      if rest.Some? {
        var q := rest.value;
        MarkAllocated(o, {o} + {q}, df, da);
        PairMinus(q, o);
        ghost var h2 := blocks;
        PushFreeMembox(q, df - h1[o].size, da + h1[o].size);
        assert blocks[o] == h2[o];
        KeptTrans(h1, h2, blocks);
      } else {
        MarkAllocated(o, {o}, df, da);
        SingleMinus(o);
      }
      KeptTrans(old(blocks), h1, blocks);
    }

    /** Block `o`, position `k` of class `c`'s list, is ejected and marked allocated. */
    method TakeListed(c: nat, o: int, ghost k: nat)
      requires Inv() && c < SEG_CLASS_PTRS_COUNT && k < |lists[c]| && lists[c][k] == o
      modifies this`blocks, this`lists, this`heads
      ensures o in old(blocks) && !old(blocks)[o].isAllocated
      ensures o in blocks && blocks[o].isAllocated && blocks[o].size == old(blocks)[o].size
      ensures Inner({}, -(blocks[o].size as int), blocks[o].size)
      ensures Kept(old(blocks), blocks)
    {
      Eject(c, o, k, {}, 0, 0);
      ghost var h := blocks;
      assert h[o].size == old(blocks)[o].size;
      SingleMinus(o);
      MarkAllocated(o, {} + {o}, 0, 0);
      KeptTrans(old(blocks), h, blocks);
      assert 0 - h[o].size == -(blocks[o].size as int) && 0 + h[o].size == blocks[o].size;
    }

    /** Stage one with its ending (:180-191): the first fitting block of class `c` is ejected and handed out whole. */
    method PopFirstFit(c: nat, size: nat) returns (r: Option<int>)
      requires Inv() && c < SEG_CLASS_PTRS_COUNT
      modifies this`blocks, this`lists, this`heads
      ensures r.Some? <==> FirstFit(old(blocks), old(lists)[c], size, 0).Some?
      ensures r.Some? ==>
        r.value == old(lists)[c][FirstFit(old(blocks), old(lists)[c], size, 0).value] &&
        r.value in old(blocks) && !old(blocks)[r.value].isAllocated &&
        r.value in blocks && blocks[r.value].isAllocated && blocks[r.value].size == old(blocks)[r.value].size &&
        Inner({}, -(blocks[r.value].size as int), blocks[r.value].size)
      ensures r.None? ==> blocks == old(blocks) && lists == old(lists) && heads == old(heads) && Inv()
      ensures Kept(old(blocks), blocks)
    {
      ListFacts(St(), ptr, pages * PAGE_SIZE_BYTES, {}, c);
      ghost var k;
      r, k := SearchClass(c, size);
      if r.Some? {
        TakeListed(c, r.value, k);
      }
    }

    /**
     * The ending of stage two (:220-236): the head `o` of class `d` is ejected, split to
     * `size` when the rest can stand alone, and marked allocated.
     */
    method TakeHead(d: nat, o: int, size: nat)
      requires Inv() && d < SEG_CLASS_PTRS_COUNT && heads[d] == o && o != EMPTY_PTR
      modifies this`blocks, this`lists, this`heads, this`layout, this`freeSize
      ensures o in old(blocks) && !old(blocks)[o].isAllocated
      ensures o in blocks && blocks[o].isAllocated
      ensures blocks[o].size == (if CanSplit(old(blocks)[o].size, size) then size else old(blocks)[o].size)
      ensures Inner({}, -(blocks[o].size as int), blocks[o].size)
      ensures Kept(old(blocks), blocks)
    {
      assert 0 < |lists[d]| && lists[d][0] == o by {
        ListFacts(St(), ptr, pages * PAGE_SIZE_BYTES, {}, d);
        LinkedAt(blocks, lists[d], heads[d], ptr, EMPTY_PTR, 0);
      }
      Eject(d, o, 0, {}, 0, 0);
      ghost var h := blocks;
      assert h[o].size == old(blocks)[o].size;
      SingleMinus(o);
      assert o in layout by {
        LayoutFacts(St(), ptr, pages * PAGE_SIZE_BYTES, {o}, freeSize, allocatedSize, 0, 0, o);
      }
      var i := IndexOf(layout, o);
      TakeFloating(o, size, i, 0, 0);
      KeptTrans(old(blocks), h, blocks);
      assert 0 - (blocks[o].size as int) == -(blocks[o].size as int) && 0 + blocks[o].size == blocks[o].size;
    }

    /**
     * Stage two with its ending (:202-237): the head of the first non-empty class above `c`
     * is ejected, split to `size` when the rest can stand alone, and handed out.
     */
    method PopLarger(c: nat, size: nat) returns (r: Option<int>)
      requires Inv() && c == SegClassId(size) && c < SEG_CLASS_PTRS_COUNT
      modifies this`blocks, this`lists, this`heads, this`layout, this`freeSize
      ensures r.Some? <==> NextNonEmpty(old(heads), c + 1).Some?
      ensures r.Some? ==>
        r.value == old(heads)[NextNonEmpty(old(heads), c + 1).value] &&
        r.value in old(blocks) && !old(blocks)[r.value].isAllocated && old(blocks)[r.value].size > size &&
        r.value in blocks && blocks[r.value].isAllocated &&
        blocks[r.value].size == (if CanSplit(old(blocks)[r.value].size, size) then size else old(blocks)[r.value].size) &&
        Inner({}, -(blocks[r.value].size as int), blocks[r.value].size)
      ensures r.None? ==> blocks == old(blocks) && lists == old(lists) && heads == old(heads) &&
                          layout == old(layout) && freeSize == old(freeSize) && Inv()
      ensures Kept(old(blocks), blocks)
    {
      LargerHeadsFit(St(), ptr, pages * PAGE_SIZE_BYTES, {}, freeSize, allocatedSize, 0, 0, size);
      var d;
      d, r := SearchLarger(c, size);
      if r.Some? {
        TakeHead(d, r.value, size);
      }
    }

    /**
     * Stage three (:238-269) with the page count corrected: the memory grows by the pages a
     * block of `size` bytes needs, a free block is laid over them, split to `size` when the
     * rest can stand alone, and handed out; past the page limit nothing changes.
     */
    method PopGrown(size: nat) returns (r: Option<int>)
      requires Inv()
      modifies this`blocks, this`lists, this`heads, this`layout, this`freeSize, this`pages, this`mem
      ensures r.Some? <==> old(pages) + GrowPages(size) <= maxPages
      ensures r.Some? ==>
        r.value == old(pages) * PAGE_SIZE_BYTES && r.value !in old(blocks) &&
        r.value in blocks && blocks[r.value].isAllocated &&
        blocks[r.value].size == (if CanSplit(GrownBlock(size), size) then size else GrownBlock(size)) &&
        pages == old(pages) + GrowPages(size) && Inner({}, -(blocks[r.value].size as int), blocks[r.value].size)
      ensures r.None? ==> St() == old(St()) && pages == old(pages) && mem == old(mem) && freeSize == old(freeSize) && Inv()
      ensures Kept(old(blocks), blocks)
    {
      r := GrowFreeBlock(GrowPages(size), 0, 0);
      if r.Some? {
        var o := r.value;
        ghost var h := blocks;
        var i := |layout| - 1;
        assert layout[i] == o && h[o].size == GrownBlock(size);
        TakeFloating(o, size, i, 0, 0);
        KeptTrans(old(blocks), h, blocks);
        assert 0 - (blocks[o].size as int) == -(blocks[o].size as int) && 0 + blocks[o].size == blocks[o].size;
      }
    }

    /**
     * `pop_allocated_membox` (:175-271) with the page count of stage three corrected: the
     * block handed out is the one `Chosen` names, newly allocated, holding at least `size`
     * bytes, its size due to the counters; out of memory, nothing changes.
     */
    method PopAllocatedMembox(size: nat) returns (r: Option<int>)
      requires Inv() && size <= MAX_HEAP
      modifies this`blocks, this`lists, this`heads, this`layout, this`freeSize, this`pages, this`mem
      ensures Chosen(old(St()), old(pages), maxPages, size, r, blocks)
      ensures r.Some? ==>
        r.value in blocks && blocks[r.value].isAllocated && blocks[r.value].size >= size &&
        r.value !in AllocatedSet(old(blocks)) && Inner({}, -(blocks[r.value].size as int), blocks[r.value].size)
      ensures r.None? ==> St() == old(St()) && pages == old(pages) && mem == old(mem) && freeSize == old(freeSize) && Inv()
      ensures Kept(old(blocks), blocks)
    {
      ghost var s0, pages0 := St(), pages;
      SegClassIdBelow(size);
      var c := SegClassId(size);
      r := PopFirstFit(c, size);
      if r.Some? {
        ChosenFit(s0, pages0, maxPages, size, r, blocks);
        return;
      }
      r := PopBeyond(c, size);
      if NextNonEmpty(s0.heads, c + 1).Some? {
        ChosenLarger(s0, pages0, maxPages, size, r, blocks);
      } else {
        ChosenGrown(s0, pages0, maxPages, size, r, blocks);
      }
    }

    /**
     * Stages two and three (:202-269), once the ideal class has no fit: the head of the
     * next non-empty larger class if there is one, else a block over grown pages.
     */
    method PopBeyond(c: nat, size: nat) returns (r: Option<int>)
      requires Inv() && c == SegClassId(size) && c < SEG_CLASS_PTRS_COUNT
      modifies this`blocks, this`lists, this`heads, this`layout, this`freeSize, this`pages, this`mem
      ensures NextNonEmpty(old(heads), c + 1).Some? ==>
        r.Some? && r.value == old(heads)[NextNonEmpty(old(heads), c + 1).value] &&
        r.value in old(blocks) && old(blocks)[r.value].size > size && r.value in blocks &&
        blocks[r.value].size == (if CanSplit(old(blocks)[r.value].size, size) then size else old(blocks)[r.value].size)
      ensures NextNonEmpty(old(heads), c + 1).None? ==>
        (r.Some? <==> old(pages) + GrowPages(size) <= maxPages) &&
        (r.Some? ==> r.value == old(pages) * PAGE_SIZE_BYTES && r.value in blocks &&
                     blocks[r.value].size == (if CanSplit(GrownBlock(size), size) then size else GrownBlock(size)))
      ensures r.Some? ==>
        r.value in blocks && blocks[r.value].isAllocated && blocks[r.value].size >= size &&
        r.value !in AllocatedSet(old(blocks)) && Inner({}, -(blocks[r.value].size as int), blocks[r.value].size)
      ensures r.None? ==> St() == old(St()) && pages == old(pages) && mem == old(mem) && freeSize == old(freeSize) && Inv()
      ensures Kept(old(blocks), blocks)
    {
      r := PopLarger(c, size);
      if r.Some? {
        return;
      }
      r := PopGrown(size);
    }

    /**
     * `allocate` (:76-92): the request is raised to the smallest box, the block `Chosen`
     * names is handed out and its size moves from the free to the allocated counter; out of
     * memory, nothing changes.
     */
    method Allocate(size: nat) returns (r: Option<int>)
      requires Inv() && size <= MAX_HEAP
      modifies this`blocks, this`lists, this`heads, this`layout, this`freeSize, this`allocatedSize, this`pages, this`mem
      ensures Inv()
      ensures Chosen(old(St()), old(pages), maxPages, BoxSize(size), r, blocks)
      ensures r.Some? ==>
        r.value in blocks && blocks[r.value].isAllocated && blocks[r.value].size >= BoxSize(size) &&
        r.value !in AllocatedSet(old(blocks)) && allocatedSize == old(allocatedSize) + blocks[r.value].size
      ensures r.None? ==>
        St() == old(St()) && pages == old(pages) && mem == old(mem) &&
        freeSize == old(freeSize) && allocatedSize == old(allocatedSize)
      ensures Kept(old(blocks), blocks)
    {
      var s := BoxSize(size);
      r := PopAllocatedMembox(s);
      if r.None? {
        return;
      }
      ghost var h := blocks;
      assert Chosen(old(St()), old(pages), maxPages, s, r, h);
      CountAllocated(blocks[r.value].size);
      assert blocks == h;
    }

    /** The counter updates of `allocate` (:85-89): `sz` bytes move from free to allocated. */
    method CountAllocated(sz: nat)
      requires Inner({}, -(sz as int), sz)
      modifies this`freeSize, this`allocatedSize
      ensures freeSize == old(freeSize) - sz && allocatedSize == old(allocatedSize) + sz
      ensures Inv()
    {
      freeSize := freeSize - sz;
      allocatedSize := allocatedSize + sz;
      assert freeSize + 0 == old(freeSize) + -(sz as int) && allocatedSize + SIZE + 0 == old(allocatedSize) + SIZE + sz;
    }

    /**
     * The first half of `deallocate` (:95-103): the allocated block `o` is marked free and
     * its size moves from the allocated to the free counter; it floats, off every list.
     */
    method Release(o: int)
      requires Inv() && o in blocks && blocks[o].isAllocated && o != ptr
      modifies this`blocks, this`freeSize, this`allocatedSize
      ensures o in blocks && !blocks[o].isAllocated && blocks[o].size == old(blocks)[o].size
      ensures allocatedSize == old(allocatedSize) - old(blocks)[o].size
      ensures freeSize == old(freeSize) + old(blocks)[o].size
      ensures Inner({o}, 0, 0)
      ensures Kept(old(blocks) - {o}, blocks)
    {
      var sz := blocks[o].size;
      MarkFree(o, {}, 0, 0);
      AddFree(sz, {} + {o}, 0 + sz, 0 - sz);
      AddAllocated(-(sz as int), {} + {o}, 0 + sz - sz, 0 - sz);
      SingleMinus(o);
      assert 0 + sz - sz == 0 && 0 - sz - -(sz as int) == 0;
    }

    /**
     * `deallocate` (:94-107): the block is released and pushed back, merged with its free
     * neighbours; every other allocated block stays as it was.
     */
    method Deallocate(o: int)
      requires Inv() && o in blocks && blocks[o].isAllocated && o != ptr
      modifies this`blocks, this`lists, this`heads, this`layout, this`freeSize, this`allocatedSize
      ensures Inv()
      ensures allocatedSize == old(allocatedSize) - old(blocks)[o].size
      ensures o !in AllocatedSet(blocks)
      ensures Kept(old(blocks) - {o}, blocks)
    {
      Release(o);
      ghost var h := blocks;
      PushFreeMembox(o, 0, 0);
      KeptTrans(old(blocks) - {o}, h, blocks);
    }

    /**
     * `_write_bytes(0, data)` on the block at `o`: `data` lands at the front of its payload,
     * `OVERHEAD` bytes past `o`. Every block but the allocator's own lies past the magic
     * bytes, and a payload of the block's size ends inside memory (`PayloadFacts`).
     */
    method WritePayload(o: int, data: seq<byte>)
      requires Inv() && ptr + OVERHEAD + |MAGIC| <= o && o + OVERHEAD + |data| <= |mem|
      modifies this`mem
      ensures |mem| == |old(mem)| && o + OVERHEAD + |data| <= |mem|
      ensures mem[o + OVERHEAD .. o + OVERHEAD + |data|] == data
      ensures forall t :: 0 <= t < |mem| && !(o + OVERHEAD <= t < o + OVERHEAD + |data|) ==> mem[t] == old(mem)[t]
      ensures blocks == old(blocks) && allocatedSize == old(allocatedSize)
      ensures Inv()
    {
      PutBytes(o + OVERHEAD, data);
    }

    /** `data` overwrites memory from `p` on, past the magic bytes, which stay. */
    method PutBytes(p: nat, data: seq<byte>)
      requires Magic(mem, ptr) && ptr + OVERHEAD + |MAGIC| <= p && p + |data| <= |mem|
      modifies this`mem
      ensures |mem| == |old(mem)| && mem[p .. p + |data|] == data && Magic(mem, ptr)
      ensures forall t :: 0 <= t < |mem| && !(p <= t < p + |data|) ==> mem[t] == old(mem)[t]
    {
      MagicWrite(mem, ptr, p, data);
      mem := mem[..p] + data + mem[p + |data|..];
    }

    /**
     * The second half of `reallocate` (:118-119): a block for `size` is allocated and `data`
     * written to the front of its payload.
     */
    method AllocateCopy(size: nat, data: seq<byte>) returns (r: Option<int>)
      requires Inv() && |data| <= size <= MAX_HEAP
      modifies this`blocks, this`lists, this`heads, this`layout, this`freeSize, this`allocatedSize, this`pages, this`mem
      ensures Inv()
      ensures r.Some? ==>
        r.value in blocks && blocks[r.value].isAllocated && blocks[r.value].size >= size &&
        End(blocks, ptr) <= r.value && End(blocks, r.value) <= |mem| &&
        Stored(mem, r.value + OVERHEAD, data) &&
        allocatedSize == old(allocatedSize) + blocks[r.value].size
      ensures r.None? ==> St() == old(St()) && allocatedSize == old(allocatedSize)
      ensures Kept(old(blocks), blocks)
    {
      r := Allocate(size);
      assert r.Some? ==> r.value in blocks && r.value != ptr && |data| <= blocks[r.value].size by {
        assert ptr in AllocatedSet(old(blocks));
      }
      CopyTo(r, data);
    }

    /**
     * `data` written to the front of the payload of the block `r` names, if any; the blocks
     * stay as they are.
     */
    method CopyTo(r: Option<int>, data: seq<byte>)
      requires Inv() && (r.Some? ==> r.value in blocks && r.value != ptr && |data| <= blocks[r.value].size)
      modifies this`mem
      ensures r.Some? ==> End(blocks, ptr) <= r.value && End(blocks, r.value) <= |mem| && Stored(mem, r.value + OVERHEAD, data)
      ensures r.None? ==> mem == old(mem)
      ensures blocks == old(blocks) && allocatedSize == old(allocatedSize) && Inv()
    {
      if r.Some? {
        var n := r.value;
        assert End(blocks, ptr) <= n && End(blocks, n) <= |mem| by {
          PayloadFacts(St(), ptr, pages * PAGE_SIZE_BYTES, {}, freeSize, allocatedSize, 0, 0, n);
        }
        WritePayload(n, data);
      }
    }

    /**
     * `reallocate` (:109-122): the payload of `o` is copied out, `o` is deallocated and a
     * block for `newSize` allocated, and the copy written to its front. Out of memory, `o`
     * stays deallocated.
     */
    method Reallocate(o: int, newSize: nat) returns (r: Option<int>)
      requires Inv() && o in blocks && blocks[o].isAllocated && o != ptr
      requires blocks[o].size <= newSize <= MAX_HEAP
      modifies this`blocks, this`lists, this`heads, this`layout, this`freeSize, this`allocatedSize, this`pages, this`mem
      ensures Inv()
      ensures End(old(blocks), ptr) <= o && End(old(blocks), o) <= |old(mem)|
      ensures r.Some? ==>
        r.value in blocks && blocks[r.value].isAllocated && blocks[r.value].size >= newSize &&
        End(blocks, ptr) <= r.value && End(blocks, r.value) <= |mem| &&
        mem[r.value + OVERHEAD .. r.value + OVERHEAD + old(blocks)[o].size] == old(mem)[o + OVERHEAD .. o + OVERHEAD + old(blocks)[o].size] &&
        allocatedSize == old(allocatedSize) - old(blocks)[o].size + blocks[r.value].size
      ensures r.None? ==> o !in AllocatedSet(blocks) && allocatedSize == old(allocatedSize) - old(blocks)[o].size
      ensures Kept(old(blocks) - {o}, blocks)
    {
      assert End(blocks, ptr) <= o && End(blocks, o) <= |mem| by {
        PayloadFacts(St(), ptr, pages * PAGE_SIZE_BYTES, {}, freeSize, allocatedSize, 0, 0, o);
      }
      var data := mem[o + OVERHEAD .. o + OVERHEAD + blocks[o].size];
      Deallocate(o);
      ghost var h := blocks;
      r := AllocateCopy(newSize, data);
      KeptTrans(old(blocks) - {o}, h, blocks);
    }

    /**
     * `reset` (:124-147): every class is emptied and both counters cleared; the memory past
     * the allocator's own block becomes one free block, its size on the free counter, pushed
     * onto its class. The blocks the heap held before are forgotten. A leftover of 1 to 15
     * bytes cannot hold the two headers of a block: there `reset` hands
     * `MemBox::new_total_size` a total size below its headers, and the model stops with `ok`
     * false, the classes emptied and both counters cleared.
     */
    method Reset() returns (ok: bool)
      requires |heads| == SEG_CLASS_PTRS_COUNT
      requires maxPages * PAGE_SIZE_BYTES <= MAX_HEAP && pages <= maxPages && |mem| == pages * PAGE_SIZE_BYTES && Magic(mem, ptr)
      requires ptr in blocks && blocks[ptr].size == SIZE && blocks[ptr].isAllocated
      requires End(blocks, ptr) <= pages * PAGE_SIZE_BYTES
      modifies this`blocks, this`lists, this`heads, this`layout, this`freeSize, this`allocatedSize
      ensures ok <==> !(End(old(blocks), ptr) < pages * PAGE_SIZE_BYTES < End(old(blocks), ptr) + 2 * OVERHEAD)
      ensures ok ==> Inv() && allocatedSize == 0
      ensures ok ==> freeSize == if End(old(blocks), ptr) < pages * PAGE_SIZE_BYTES
                                 then pages * PAGE_SIZE_BYTES - End(old(blocks), ptr) - 2 * OVERHEAD else 0
      ensures ok ==> ptr in blocks && blocks[ptr] == old(blocks)[ptr]
      ensures !ok ==> heads == NO_HEADS && allocatedSize == 0 && freeSize == 0
      ensures !ok ==> blocks == old(blocks) && lists == old(lists) && layout == old(layout)
    {
      for i := 0 to SEG_CLASS_PTRS_COUNT
        modifies this`heads
        invariant |heads| == SEG_CLASS_PTRS_COUNT
        invariant forall j :: 0 <= j < i ==> heads[j] == EMPTY_PTR
      {
        heads := heads[i := EMPTY_PTR];
      }
      assert heads == NO_HEADS;
      allocatedSize := 0;
      freeSize := 0;
      ok := LayHeap(blocks[ptr]);
    }

    /**
     * The rest of `reset` (:134-146) once the classes are empty: the allocator's block `a`
     * alone, or followed by one free block over the rest of memory, pushed onto its class.
     * A leftover too small for the two headers of a block stops it with `ok` false and
     * nothing laid.
     */
    method LayHeap(a: Block) returns (ok: bool)
      requires heads == NO_HEADS && allocatedSize == 0 && freeSize == 0
      requires maxPages * PAGE_SIZE_BYTES <= MAX_HEAP && pages <= maxPages && |mem| == pages * PAGE_SIZE_BYTES && Magic(mem, ptr)
      requires a.size == SIZE && a.isAllocated && ptr + SIZE + 2 * OVERHEAD <= pages * PAGE_SIZE_BYTES
      modifies this`blocks, this`lists, this`heads, this`layout, this`freeSize
      ensures ok <==> !(ptr + SIZE + 2 * OVERHEAD < pages * PAGE_SIZE_BYTES < ptr + SIZE + 4 * OVERHEAD)
      ensures ok ==> Inv()
      ensures ok ==> freeSize == if ptr + SIZE + 2 * OVERHEAD < pages * PAGE_SIZE_BYTES
                                 then pages * PAGE_SIZE_BYTES - (ptr + SIZE + 4 * OVERHEAD) else 0
      ensures ok ==> ptr in blocks && blocks[ptr] == a
      ensures !ok ==> blocks == old(blocks) && lists == old(lists) && heads == old(heads) && layout == old(layout) && freeSize == 0
    {
      var q := ptr + a.size + 2 * OVERHEAD;
      var total := pages * PAGE_SIZE_BYTES - q;
      if total == 0 {
        blocks, lists, layout := map[ptr := a], NO_LISTS, [ptr];
        GoodAlone(ptr, a);
        ok := true;
      } else if total < 2 * OVERHEAD {
        ok := false;
      } else {
        LayFree(a);
        ok := true;
      }
    }

    /**
     * The free block of `reset` (:137-146): it spans from the end of the allocator's block
     * `a` to the end of memory and is pushed onto its class. Its only neighbour is the
     * allocator's block, so the merge of `push_free_membox` finds nothing to absorb.
     */
    method LayFree(a: Block)
      requires heads == NO_HEADS && allocatedSize == 0
      requires maxPages * PAGE_SIZE_BYTES <= MAX_HEAP && pages <= maxPages && |mem| == pages * PAGE_SIZE_BYTES && Magic(mem, ptr)
      requires a.size == SIZE && a.isAllocated && ptr + SIZE + 4 * OVERHEAD <= pages * PAGE_SIZE_BYTES
      modifies this`blocks, this`lists, this`heads, this`layout, this`freeSize
      ensures Inv()
      ensures freeSize == pages * PAGE_SIZE_BYTES - (ptr + SIZE + 4 * OVERHEAD)
      ensures ptr in blocks && blocks[ptr] == a
    {
      var q := ptr + a.size + 2 * OVERHEAD;
      var b := Block(pages * PAGE_SIZE_BYTES - q - 2 * OVERHEAD, false, EMPTY_PTR, EMPTY_PTR);
      FreshWrites(a, q, b);
      GoodFresh(ptr, a, q, b, pages * PAGE_SIZE_BYTES);
      ghost var fs := freeSize;
      PushFront(q, 1, {q}, 0, 0);
      assert freeSize == fs && ptr in blocks && blocks[ptr] == a;
      SingleMinus(q);
    }

    /** The header and field writes of the heap `reset` builds before the push. */
    method FreshWrites(a: Block, q: int, b: Block)
      requires heads == NO_HEADS
      modifies this`blocks, this`lists, this`layout, this`freeSize
      ensures St() == Store(map[ptr := a][q := b], NO_HEADS, NO_LISTS, [ptr, q]) && freeSize == b.size
      ensures a.isAllocated && q != ptr ==> !FreeListed(St(), {q}, 0) && !FreeListed(St(), {q}, 2)
    {
      blocks, lists, layout, freeSize := map[ptr := a][q := b], NO_LISTS, [ptr, q], b.size;
    }

    /**
     * The first half of `init` (:51-53): the allocator's block is laid at `offset` over
     * memory of `pages0` pages and the magic bytes written to the front of its payload.
     */
    constructor Place(offset: nat, pages0: nat, maxPages0: nat, mem0: seq<byte>)
      requires pages0 <= maxPages0 && maxPages0 * PAGE_SIZE_BYTES <= MAX_HEAP && |mem0| == pages0 * PAGE_SIZE_BYTES
      requires offset + SIZE + 2 * OVERHEAD <= |mem0|
      ensures ptr == offset && pages == pages0 && maxPages == maxPages0
      ensures mem == mem0[..offset + OVERHEAD] + MAGIC + mem0[offset + OVERHEAD + |MAGIC|..] && Magic(mem, ptr)
      ensures blocks == map[offset := Block(SIZE, true, EMPTY_PTR, EMPTY_PTR)] && End(blocks, ptr) <= |mem|
      ensures |heads| == SEG_CLASS_PTRS_COUNT && allocatedSize == 0 && freeSize == 0
    {
      ptr := offset;
      pages := pages0;
      maxPages := maxPages0;
      mem := mem0[..offset + OVERHEAD] + MAGIC + mem0[offset + OVERHEAD + |MAGIC|..];
      blocks := map[offset := Block(SIZE, true, EMPTY_PTR, EMPTY_PTR)];
      heads := seq(SEG_CLASS_PTRS_COUNT, _ => 0);
      lists := NO_LISTS;
      layout := [offset];
      allocatedSize := 0;
      freeSize := 0;
      new;
      assert mem[ptr + OVERHEAD .. ptr + OVERHEAD + |MAGIC|] == MAGIC;
    }

    /**
     * `init` (:50-57): the allocator's block is placed at `offset` and the heap reset. A
     * leftover of 1 to 15 bytes after the allocator's block stops the reset (`ok` false).
     */
    static method Init(offset: nat, pages0: nat, maxPages0: nat, mem0: seq<byte>) returns (a: StableMemoryAllocator, ok: bool)
      requires pages0 <= maxPages0 && maxPages0 * PAGE_SIZE_BYTES <= MAX_HEAP && |mem0| == pages0 * PAGE_SIZE_BYTES
      requires offset + SIZE + 2 * OVERHEAD <= |mem0|
      ensures fresh(a) && a.ptr == offset && a.pages == pages0 && a.maxPages == maxPages0
      ensures a.mem == mem0[..offset + OVERHEAD] + MAGIC + mem0[offset + OVERHEAD + |MAGIC|..]
      ensures ok <==> !(offset + SIZE + 2 * OVERHEAD < |mem0| < offset + SIZE + 4 * OVERHEAD)
      ensures ok ==> a.Inv() && a.allocatedSize == 0 && a.blocks[a.ptr] == Block(SIZE, true, EMPTY_PTR, EMPTY_PTR)
      ensures ok ==> a.freeSize == if offset + SIZE + 2 * OVERHEAD < |mem0| then |mem0| - (offset + SIZE + 4 * OVERHEAD) else 0
    {
      a := new StableMemoryAllocator.Place(offset, pages0, maxPages0, mem0);
      ok := a.Reset();
    }
  }

  /**
   * `reinit` (:60-74): the offset is taken back as the allocator's block when that block is
   * allocated, has the allocator's size and carries the magic bytes.
   */
  function Reinit(h: Heap, mem: seq<byte>, offset: nat): (r: Option<int>)
    ensures r.Some? ==> r.value == offset && offset in h && h[offset].isAllocated && h[offset].size == SIZE
    ensures r.Some? ==> Magic(mem, offset)
  {
    if offset !in h then None
    else if !h[offset].isAllocated || h[offset].size != SIZE then None
    else if !Magic(mem, offset) then None
    else Some(offset)
  }

  /** An allocator that keeps its invariant is found again by `reinit` at its own offset. */
  lemma ReinitFinds(a: StableMemoryAllocator)
    requires a.Inv()
    ensures Reinit(a.blocks, a.mem, a.ptr) == Some(a.ptr)
  {
  }

  /**
   * Once every block other than the allocator's own is free again, the allocated counter
   * is back at zero, whatever allocations and reallocations came before.
   */
  lemma AllFreedCountsZero(a: StableMemoryAllocator)
    requires a.Inv() && AllocatedSet(a.blocks) == {a.ptr}
    ensures a.allocatedSize == 0
  {
    var l := a.layout;
    LayoutFacts(a.St(), a.ptr, a.pages * PAGE_SIZE_BYTES, {}, a.freeSize, a.allocatedSize, 0, 0, a.ptr);
    assert l == [l[0]] + l[1..];
    BytesConcat(a.blocks, [l[0]], l[1..], true);
    BytesSingle(a.blocks, l[0], true);
    forall i | 0 <= i < |l[1..]| ensures Part(a.blocks, l[1..][i], true) == 0 {
      assert l[1..][i] == l[i + 1] && l[i + 1] != l[0];
      assert l[i + 1] !in AllocatedSet(a.blocks);
    }
    BytesNoneAllocated(a.blocks, l[1..]);
  }
}
