// The older allocator of src/stable_memory_allocator.rs as a class: the class table it
// keeps in memory after the magic bytes, the block headers, and the operations that
// splice free blocks into and out of address-ordered lists, search for
// the best fit, split, merge, grow, allocate, free and reallocate.

module LegacyAllocator {
  import opened Common
  import opened FreeList
  import opened SegLists
  import opened LegacyHeap
  import AH = AllocatorHeap

  class StableMemoryAllocator {
    /** `segregation_size_classes`: the head of every class list, or `EMPTY_WORD`. */
    var classes: seq<int>
    /** Block headers by offset: size, allocation flag, and the two link words of a free block. */
    var blocks: Heap
    /** Each class's free list, in address order. */
    ghost var lists: seq<seq<int>>
    /** Every block offset in address order: what the size words at both ends of a block let the code walk. */
    var layout: seq<int>
    /** The host memory: its size in pages, the page limit, and its bytes. */
    var pages: nat
    const maxPages: nat
    var mem: seq<byte>
    /** Where the allocator's header (magic, class table, collection declarations) starts. */
    const offset: nat

    /** The heap as a value: headers, class heads, lists and layout. */
    ghost function St(): Store
      reads this`blocks, this`classes, this`lists, this`layout
    {
      Store(blocks, classes, lists, layout)
    }

    /** Where the heap starts: right after the header. */
    function HeapStart(): nat
    {
      offset + SIZE
    }

    /** The heap invariant with the blocks of `F` floating (free but on no list) while an operation is under way. */
    ghost predicate Inner(F: set<int>)
      reads this
    {
      |classes| == MAX_SEGREGATION_CLASSES &&
      pages <= maxPages && maxPages * PAGE_SIZE_BYTES <= MAX_MEM && |mem| == pages * PAGE_SIZE_BYTES &&
      HeapStart() <= |mem| && Magic(mem, offset) &&
      LGood(St(), HeapStart(), pages * PAGE_SIZE_BYTES, F)
    }

    /**
     * The allocator's invariant: the blocks tile memory from the end of the header to the
     * end of the pages, every free block is on the list of its class, each list ascends by
     * offset and is linked both ways, and no two free blocks touch.
     */
    ghost predicate Inv()
      reads this
    {
      Inner({})
    }

    /**
     * `set_segregation_class`: class `idx`'s head becomes `ptr`, in the table and in the
     * eight little-endian bytes that store it. An index past the table is unreachable.
     */
    method SetSegregationClass(idx: nat, ptr: nat)
      requires idx < MAX_SEGREGATION_CLASSES && ptr < MAX_MEM
      requires |classes| == MAX_SEGREGATION_CLASSES && HeapStart() <= |mem|
      modifies this`classes, this`mem
      ensures classes == old(classes)[idx := ptr]
      ensures mem == WriteWord(old(mem), TableAt(offset, idx), ptr)
      ensures old(Magic(mem, offset)) ==> Magic(mem, offset)
      ensures old(Persisted(mem, offset, classes)) ==> Persisted(mem, offset, classes)
    {
      if Magic(mem, offset) {
        MagicAfterWrite(mem, offset, TableAt(offset, idx), ptr);
      }
      if Persisted(mem, offset, classes) {
        TableAfterWrite(mem, offset, classes, idx, ptr);
      }
      classes := classes[idx := ptr];
      mem := WriteWord(mem, TableAt(offset, idx), ptr);
    }

    /** What the removal writes need: class `c`'s list is well linked and holds `o` at position `k`. */
    ghost predicate Removable(o: int, c: nat, k: nat)
      reads this`blocks, this`lists, this`classes
    {
      |classes| == MAX_SEGREGATION_CLASSES && |lists| == MAX_SEGREGATION_CLASSES && c < MAX_SEGREGATION_CLASSES &&
      k < |lists[c]| && lists[c][k] == o &&
      Linked(blocks, lists[c], classes[c], EMPTY_WORD, EMPTY_WORD) && EMPTY_WORD !in lists[c] &&
      (forall x :: x in lists[c] ==> EMPTY_WORD < x < MAX_MEM)
    }

    /**
     * The writes of `remove_block_from_free_list`: a block with a predecessor is bridged over;
     * a head is replaced by its successor, or the class is emptied.
     */
    method RemoveWrites(o: int, c: nat, ghost k: nat)
      requires Removable(o, c, k) && HeapStart() <= |mem|
      modifies this`blocks, this`lists, this`classes, this`mem
      ensures St() == EjectStore(LCfg, old(St()), c, k)
      ensures k == 0 ==> 0 <= classes[c] < MAX_MEM && mem == WriteWord(old(mem), TableAt(offset, c), classes[c])
      ensures k != 0 ==> mem == old(mem)
      ensures |mem| == |old(mem)| && (old(Magic(mem, offset)) ==> Magic(mem, offset))
      ensures old(Persisted(mem, offset, classes)) ==> Persisted(mem, offset, classes)
      ensures pages == old(pages)
    {
      UnlinkWrites(blocks, lists[c], k, classes[c], EMPTY_WORD, EMPTY_WORD);
      var prev, next := blocks[o].prev, blocks[o].next;
      if prev != EMPTY_WORD {
        UnlinkInner(o, c, k, prev, next);
      } else {
        UnlinkHead(o, c, k, next);
      }
    }

    /** Removal of a block that has a predecessor `prev`: the class head stays. */
    method UnlinkInner(o: int, c: nat, ghost k: nat, prev: int, next: int)
      requires Removable(o, c, k) && 0 < k && prev == blocks[o].prev && next == blocks[o].next
      modifies this`blocks, this`lists
      ensures St() == EjectStore(LCfg, old(St()), c, k)
      ensures mem == old(mem) && classes == old(classes) && pages == old(pages)
    {
      UnlinkWrites(blocks, lists[c], k, classes[c], EMPTY_WORD, EMPTY_WORD);
      if next != EMPTY_WORD {
        blocks := blocks[prev := blocks[prev].(next := next)];
        blocks := blocks[next := blocks[next].(prev := prev)];
      } else {
        blocks := blocks[prev := blocks[prev].(next := EMPTY_WORD)];
      }
      lists := lists[c := RemoveAt(lists[c], k)];
    }

    /** Removal of the head: its successor `next` becomes the head, or the class is emptied. */
    method UnlinkHead(o: int, c: nat, ghost k: nat, next: int)
      requires Removable(o, c, k) && k == 0 && next == blocks[o].next && HeapStart() <= |mem|
      modifies this`blocks, this`lists, this`classes, this`mem
      ensures St() == EjectStore(LCfg, old(St()), c, k)
      ensures 0 <= classes[c] < MAX_MEM && mem == WriteWord(old(mem), TableAt(offset, c), classes[c])
      ensures old(Magic(mem, offset)) ==> Magic(mem, offset)
      ensures old(Persisted(mem, offset, classes)) ==> Persisted(mem, offset, classes)
      ensures pages == old(pages)
    {
      UnlinkWrites(blocks, lists[c], k, classes[c], EMPTY_WORD, EMPTY_WORD);
      if next != EMPTY_WORD {
        assert 1 < |lists[c]| && next == lists[c][1] && lists[c][1] in lists[c];
        blocks := blocks[next := blocks[next].(prev := EMPTY_WORD)];
        SetSegregationClass(c, next);
      } else {
        SetSegregationClass(c, EMPTY_WORD);
      }
      lists := lists[c := RemoveAt(lists[c], k)];
    }

    /** What the insertion writes need: class `c`'s list is well linked, and `o`, with empty links, is not on it. */
    ghost predicate Insertable(o: int, c: nat)
      reads this`blocks, this`lists, this`classes
    {
      |classes| == MAX_SEGREGATION_CLASSES && |lists| == MAX_SEGREGATION_CLASSES && c < MAX_SEGREGATION_CLASSES &&
      o in blocks && EMPTY_WORD < o < MAX_MEM && blocks[o].prev == EMPTY_WORD && blocks[o].next == EMPTY_WORD &&
      Linked(blocks, lists[c], classes[c], EMPTY_WORD, EMPTY_WORD) && EMPTY_WORD !in lists[c] && o !in lists[c]
    }

    /** An empty class gets `o` as its head, in the table and in memory. */
    method LinkOnly(o: int, c: nat)
      requires Insertable(o, c) && classes[c] == EMPTY_WORD && HeapStart() <= |mem|
      modifies this`lists, this`classes, this`mem
      ensures St() == SpliceStore(LCfg, old(St()), c, 0, o)
      ensures mem == WriteWord(old(mem), TableAt(offset, c), o)
      ensures old(Magic(mem, offset)) ==> Magic(mem, offset)
      ensures old(Persisted(mem, offset, classes)) ==> Persisted(mem, offset, classes)
      ensures pages == old(pages)
    {
      SpliceHeadWrites(blocks, lists[c], classes[c], o, EMPTY_WORD, EMPTY_WORD);
      assert blocks[o].(prev := EMPTY_WORD, next := EMPTY_WORD) == blocks[o];
      lists := lists[c := InsertAt(lists[c], 0, o)];
      SetSegregationClass(c, o);
    }

    /** `o` becomes the head of a non-empty class, in front of the old head `cur`. */
    method LinkBeforeHead(o: int, c: nat, cur: int)
      requires Insertable(o, c) && classes[c] == cur && cur != EMPTY_WORD && HeapStart() <= |mem|
      modifies this`blocks, this`lists, this`classes, this`mem
      ensures St() == SpliceStore(LCfg, old(St()), c, 0, o)
      ensures mem == WriteWord(old(mem), TableAt(offset, c), o)
      ensures old(Magic(mem, offset)) ==> Magic(mem, offset)
      ensures old(Persisted(mem, offset, classes)) ==> Persisted(mem, offset, classes)
      ensures pages == old(pages)
    {
      SpliceHeadWrites(blocks, lists[c], cur, o, EMPTY_WORD, EMPTY_WORD);
      lists := lists[c := InsertAt(lists[c], 0, o)];
      SetSegregationClass(c, o);
      blocks := blocks[cur := blocks[cur].(prev := o)];
      blocks := blocks[o := blocks[o].(next := cur)];
    }

    /** `o` goes after `p`, the last block of the list (position `k - 1`). */
    method LinkAfter(o: int, c: nat, p: int, ghost k: nat)
      requires Insertable(o, c) && 0 < k == |lists[c]| && lists[c][k - 1] == p
      modifies this`blocks, this`lists
      ensures St() == SpliceStore(LCfg, old(St()), c, k, o)
      ensures pages == old(pages) && mem == old(mem) && classes == old(classes)
    {
      SpliceEndWrites(blocks, lists[c], classes[c], o, EMPTY_WORD, EMPTY_WORD);
      lists := lists[c := InsertAt(lists[c], k, o)];
      blocks := blocks[p := blocks[p].(next := o)];
      blocks := blocks[o := blocks[o].(prev := p)];
    }

    /** `o` goes between `p` and `n`, positions `k - 1` and `k` of the list. */
    method LinkBetween(o: int, c: nat, p: int, n: int, ghost k: nat)
      requires Insertable(o, c) && 0 < k < |lists[c]| && lists[c][k - 1] == p && lists[c][k] == n
      modifies this`blocks, this`lists
      ensures St() == SpliceStore(LCfg, old(St()), c, k, o)
      ensures pages == old(pages) && mem == old(mem) && classes == old(classes)
    {
      SpliceMidWrites(blocks, lists[c], classes[c], k, o, EMPTY_WORD, EMPTY_WORD);
      lists := lists[c := InsertAt(lists[c], k, o)];
      blocks := blocks[p := blocks[p].(next := o)];
      blocks := blocks[o := blocks[o].(prev := p)];
      blocks := blocks[n := blocks[n].(prev := o)];
      blocks := blocks[o := blocks[o].(next := n)];
    }

    /**
     * `add_block_to_free_list`: the block `o`, whose links are still `EMPTY_WORD`, goes
     * into the list of the class of its size at the place that keeps the list ascending.
     * An empty class gets it as its head; otherwise the head is compared first, then the
     * walk goes pair by pair until `o` falls between two blocks or past the last one.
     */
    method AddWrites(o: int)
      requires o in blocks && Insertable(o, FindSegClassIdx(blocks[o].size)) && Sorted(lists[FindSegClassIdx(blocks[o].size)])
      requires HeapStart() <= |mem|
      modifies this`blocks, this`lists, this`classes, this`mem
      ensures var c := FindSegClassIdx(old(blocks)[o].size); var k := SlotOf(old(lists)[c], o);
        St() == SpliceStore(LCfg, old(St()), c, k, o) &&
        (k == 0 ==> mem == WriteWord(old(mem), TableAt(offset, c), o)) && (k != 0 ==> mem == old(mem))
      ensures old(Magic(mem, offset)) ==> Magic(mem, offset)
      ensures old(Persisted(mem, offset, classes)) ==> Persisted(mem, offset, classes)
      ensures pages == old(pages)
    {
      var c := FindSegClassIdx(blocks[o].size);
      ghost var l := lists[c];
      if classes[c] == EMPTY_WORD {
        assert l == [];
        SlotOfIs(l, 0, o);
        LinkOnly(o, c);
        return;
      }
      var cur := classes[c];
      LinkedAt(blocks, l, cur, EMPTY_WORD, EMPTY_WORD, 0);
      if blocks[cur].prev != EMPTY_WORD {
        assert false;
      }
      if o < cur {
        SlotOfIs(l, 0, o);
        LinkBeforeHead(o, c, cur);
        return;
      }
      assert cur < o;
      if blocks[cur].next == EMPTY_WORD {
        SlotOfIs(l, 1, o);
        LinkAfter(o, c, cur, 1);
        return;
      }
      var next := blocks[cur].next;
      ghost var k := LinkAlong(o, c, cur, next, 0);
      SlotOfIs(l, k, o);
    }

    /**
     * The walk of `add_block_to_free_list` past a head smaller than `o` with a successor:
     * from the pair `cur`, `next` at positions `j`, `j + 1`, it goes on pair by pair until
     * `o` falls between two blocks or past the last one.
     */
    method LinkAlong(o: int, c: nat, cur: int, next: int, ghost j: nat) returns (ghost k: nat)
      requires Insertable(o, c) && Sorted(lists[c])
      requires j + 1 < |lists[c]| && cur == lists[c][j] && next == lists[c][j + 1] && cur < o
      modifies this`blocks, this`lists
      ensures k <= |old(lists)[c]| && SlotFor(old(lists)[c], k, o) && St() == SpliceStore(LCfg, old(St()), c, k, o)
      ensures pages == old(pages) && mem == old(mem) && classes == old(classes)
    {
      ghost var l, s0 := lists[c], St();
      var cur, next := cur, next;
      ghost var j := j;
      while true
        invariant j + 1 < |l| && cur == l[j] && next == l[j + 1] && cur < o
        invariant St() == s0 && mem == old(mem) && pages == old(pages)
        decreases |l| - j
      {
        LinkedAt(blocks, l, classes[c], EMPTY_WORD, EMPTY_WORD, j + 1);
        if o > cur && o < next {
          k := j + 1;
          LinkBetween(o, c, cur, next, k);
          return;
        }
        assert next < o;
        if blocks[next].next == EMPTY_WORD {
          k := |l|;
          LinkAfter(o, c, next, k);
          return;
        }
        cur := next;
        next := blocks[cur].next;
        j := j + 1;
      }
    }

    /**
     * `add_block_to_free_list` on the floating block `o` at layout position `i`, whose links
     * are `EMPTY_WORD` and whose neighbours are not free and settled: it joins the list of
     * its class, in address order, and stops floating.
     */
    method AddBlockToFreeList(o: int, ghost i: nat, ghost F: set<int>)
      requires Inner(F) && i < |layout| && layout[i] == o && o in F
      requires blocks[o].prev == EMPTY_WORD && blocks[o].next == EMPTY_WORD
      requires !FreeListed(St(), F, i - 1) && !FreeListed(St(), F, i + 1)
      modifies this`blocks, this`lists, this`classes, this`mem
      ensures St() == AddStore(old(St()), o)
      ensures Inner(F - {o}) && o in blocks && !blocks[o].isAllocated
      ensures blocks.Keys == old(blocks).Keys && Kept(old(blocks), blocks)
      ensures old(Persisted(mem, offset, classes)) ==> Persisted(mem, offset, classes)
      ensures layout == old(layout) && pages == old(pages)
    {
      ghost var c := FindSegClassIdx(blocks[o].size);
      assert Insertable(o, c) && Sorted(lists[c]) by {
        ListFacts(St(), HeapStart(), pages * PAGE_SIZE_BYTES, F, c);
        BelowMax(St(), HeapStart(), pages * PAGE_SIZE_BYTES, F);
      }
      ghost var s0, end0, k := St(), pages * PAGE_SIZE_BYTES, SlotOf(lists[c], o);
      AddWrites(o);
      assert |classes| == MAX_SEGREGATION_CLASSES && Magic(mem, offset) && |mem| == end0;
      GoodSplice(s0, HeapStart(), end0, F, i, c, k);
    }

    /**
     * One class of `find_appropriate_free_mem_block`: the walk from the head finds the first
     * block of at least `size` bytes, then goes on through the rest, taking a later block
     * only when its surplus is strictly smaller. `found` tells whether any block fits, and
     * `best` is then the first of the tightest fits, at position `k`.
     */
    method ScanClass(c: nat, size: nat) returns (found: bool, best: int, ghost k: nat)
      requires |classes| == MAX_SEGREGATION_CLASSES && |lists| == MAX_SEGREGATION_CLASSES && c < MAX_SEGREGATION_CLASSES
      requires Linked(blocks, lists[c], classes[c], EMPTY_WORD, EMPTY_WORD) && EMPTY_WORD !in lists[c]
      requires classes[c] != EMPTY_WORD
      ensures found <==> HasFit(blocks, lists[c], size)
      ensures found ==> BestFit(blocks, lists[c], size, k) && best == lists[c][k]
    {
      ghost var l := lists[c];
      var cur := classes[c];
      LinkedAt(blocks, l, cur, EMPTY_WORD, EMPTY_WORD, 0);
      var next := blocks[cur].next;
      ghost var p := 0;
      found := false;
      while true
        invariant p < |l| && cur == l[p] && next == (if p == |l| - 1 then EMPTY_WORD else l[p + 1])
        invariant forall j :: 0 <= j < p ==> blocks[l[j]].size < size
        decreases |l| - p
      {
        if blocks[cur].size < size {
          if next == EMPTY_WORD {
            break;
          }
          cur := next;
          p := p + 1;
          LinkedAt(blocks, l, classes[c], EMPTY_WORD, EMPTY_WORD, p);
          next := blocks[cur].next;
        } else {
          found := true;
          break;
        }
      }
      if !found {
        best, k := cur, p;
        assert forall j :: 0 <= j < |l| ==> blocks[l[j]].size < size;
        return;
      }
      best, k := ScanRest(c, size, cur, p, next);
    }

    /** The second walk of `find_appropriate_free_mem_block`: the first of the tightest fits from position `k` on. */
    method ScanRest(c: nat, size: nat, best0: int, ghost k0: nat, next0: int) returns (best: int, ghost k: nat)
      requires |classes| == MAX_SEGREGATION_CLASSES && |lists| == MAX_SEGREGATION_CLASSES && c < MAX_SEGREGATION_CLASSES
      requires Linked(blocks, lists[c], classes[c], EMPTY_WORD, EMPTY_WORD) && EMPTY_WORD !in lists[c]
      requires k0 < |lists[c]| && best0 == lists[c][k0] && blocks[best0].size >= size
      requires forall j :: 0 <= j < k0 ==> blocks[lists[c][j]].size < size
      requires next0 == blocks[best0].next
      ensures BestFit(blocks, lists[c], size, k) && best == lists[c][k]
    {
      ghost var l := lists[c];
      LinkedAt(blocks, l, classes[c], EMPTY_WORD, EMPTY_WORD, k0);
      best, k := best0, k0;
      var next := next0;
      ghost var q := k0 + 1;
      while true
        invariant k < q <= |l| && best == l[k] && blocks[best].size >= size
        invariant next == (if q == |l| then EMPTY_WORD else l[q])
        invariant forall j :: 0 <= j < q && blocks[l[j]].size >= size ==> blocks[best].size <= blocks[l[j]].size
        invariant forall j :: 0 <= j < k && blocks[l[j]].size >= size ==> blocks[best].size < blocks[l[j]].size
        decreases |l| - q
      {
        if next == EMPTY_WORD {
          break;
        }
        LinkedAt(blocks, l, classes[c], EMPTY_WORD, EMPTY_WORD, q);
        var nextSize := blocks[next].size;
        if nextSize < size {
          next := blocks[next].next;
          q := q + 1;
          if next == EMPTY_WORD {
            break;
          }
          continue;
        }
        if blocks[best].size - size > nextSize - size {
          best, k := next, q;
        }
        next := blocks[next].next;
        q := q + 1;
        if next == EMPTY_WORD {
          break;
        }
      }
      assert forall j :: 0 <= j < |l| ==> l[j] in blocks by {
        forall j | 0 <= j < |l| ensures l[j] in blocks {
          LinkedAt(blocks, l, classes[c], EMPTY_WORD, EMPTY_WORD, j);
        }
      }
    }

    /**
     * `find_appropriate_free_mem_block`: every class from the one of `size` up is scanned,
     * and each class with a fitting block overwrites the answer, so it is the tightest
     * fit of the highest such class, with that class (`LastFit`), at position `k` of its list.
     */
    method FindAppropriateFreeMemBlock(size: nat) returns (r: Option<(int, nat)>, ghost k: nat)
      requires Inv()
      ensures var fit := LastFit(blocks, lists, size, FindSegClassIdx(size), MAX_SEGREGATION_CLASSES);
        r.None? <==> fit.None?
      ensures r.Some? ==> r.value.1 == LastFit(blocks, lists, size, FindSegClassIdx(size), MAX_SEGREGATION_CLASSES).value
      ensures r.Some? ==>
        r.value.1 < MAX_SEGREGATION_CLASSES && BestFit(blocks, lists[r.value.1], size, k) && r.value.0 == lists[r.value.1][k]
    {
      var initial := FindSegClassIdx(size);
      r, k := None, 0;
      for idx := initial to MAX_SEGREGATION_CLASSES
        invariant var fit := LastFit(blocks, lists, size, initial, idx);
          (r.None? <==> fit.None?) &&
          (r.Some? ==> r.value.1 == fit.value && r.value.1 < MAX_SEGREGATION_CLASSES &&
                       BestFit(blocks, lists[r.value.1], size, k) && r.value.0 == lists[r.value.1][k])
      {
        assert Linked(blocks, lists[idx], classes[idx], EMPTY_WORD, EMPTY_WORD) && EMPTY_WORD !in lists[idx] &&
          (classes[idx] == EMPTY_WORD <==> lists[idx] == []) by {
          ListFacts(St(), HeapStart(), pages * PAGE_SIZE_BYTES, {}, idx);
        }
        if classes[idx] == EMPTY_WORD {
          assert !HasFit(blocks, lists[idx], size);
          continue;
        }
        var found, best, j := ScanClass(idx, size);
        if !found {
          continue;
        }
        r, k := Some((best, idx)), j;
      }
    }

    /** The header writes of `split_mem_block`: block `o`, at layout position `i`, becomes `front`, and `rest` follows it. */
    method SplitWrites(o: int, front: Block, rest: Block, i: nat)
      requires i < |layout| && layout[i] == o
      modifies this`blocks, this`layout
      ensures St() == SplitStore(old(St()), i, front, rest)
      ensures pages == old(pages) && mem == old(mem) && classes == old(classes)
    {
      var q := o + front.size + 2 * OVERHEAD;
      blocks, layout := blocks[o := front][q := rest], InsertAt(layout, i + 1, q);
    }

    /**
     * `split_mem_block(size)` on the floating block `o` at layout position `i` (the code of
     * `split_mem_block` is not part of this model), when the surplus is at least
     * `MIN_MEM_BLOCK_SIZE_BYTES`: `o` keeps `size` bytes and a new floating free block with
     * empty links takes the rest, two headers on.
     */
    method Split(o: int, size: nat, i: nat) returns (q: int)
      requires Inner({o}) && i < |layout| && layout[i] == o && blocks[o].size >= size + MIN_MEM_BLOCK_SIZE_BYTES
      requires !FreeListed(St(), {o}, i + 1)
      modifies this`blocks, this`layout
      ensures q == o + size + 2 * OVERHEAD && q !in old(blocks)
      ensures St() == SplitStore(old(St()), i, old(blocks)[o].(size := size),
                                 Block(old(blocks)[o].size - size - 2 * OVERHEAD, false, EMPTY_WORD, EMPTY_WORD))
      ensures Inner({o} + {q}) && !FreeListed(St(), {o} + {q}, i + 2)
      ensures Kept(old(blocks), blocks)
    {
      var b := blocks[o];
      var front, rest := b.(size := size), Block(b.size - size - 2 * OVERHEAD, false, EMPTY_WORD, EMPTY_WORD);
      q := o + size + 2 * OVERHEAD;
      ghost var s0, end0 := St(), pages * PAGE_SIZE_BYTES;
      SplitWrites(o, front, rest, i);
      assert St() == SplitStore(old(St()), i, old(blocks)[o].(size := size),
                                Block(old(blocks)[o].size - size - 2 * OVERHEAD, false, EMPTY_WORD, EMPTY_WORD));
      assert |classes| == MAX_SEGREGATION_CLASSES && Magic(mem, offset) && |mem| == end0;
      GoodSplit(s0, HeapStart(), end0, {o}, i, front, rest, q);
    }

    /**
     * `split_if_needed` on the floating block `o` at layout position `i`: with a surplus of
     * at least `MIN_MEM_BLOCK_SIZE_BYTES` the block is cut to `size` bytes and the rest
     * goes onto the free list of its class; otherwise nothing changes.
     */
    method SplitIfNeeded(o: int, size: nat, i: nat, ghost b: Block) returns (ghost q: int)
      requires Inner({o}) && i < |layout| && layout[i] == o && blocks[o] == b && b.size >= size
      requires !FreeListed(St(), {o}, i + 1)
      modifies this`blocks, this`layout, this`lists, this`classes, this`mem
      ensures q == o + size + 2 * OVERHEAD
      ensures b.size - size >= MIN_MEM_BLOCK_SIZE_BYTES ==>
        q !in old(blocks) &&
        St() == AddStore(SplitStore(old(St()), i, b.(size := size),
                                    Block(b.size - size - 2 * OVERHEAD, false, EMPTY_WORD, EMPTY_WORD)), q)
      ensures b.size - size < MIN_MEM_BLOCK_SIZE_BYTES ==> St() == old(St()) && mem == old(mem)
      ensures Inner({o}) && i < |layout| && layout[i] == o && o in blocks
      ensures size <= blocks[o].size < size + MIN_MEM_BLOCK_SIZE_BYTES
      ensures Kept(old(blocks), blocks)
      ensures old(Persisted(mem, offset, classes)) ==> Persisted(mem, offset, classes)
    {
      q := o + size + 2 * OVERHEAD;
      if blocks[o].size - size >= MIN_MEM_BLOCK_SIZE_BYTES {
        ghost var h0 := blocks;
        var rest := Split(o, size, i);
        assert rest == q;
        ghost var h1, s1 := blocks, St();
        assert s1 == SplitStore(old(St()), i, b.(size := size), Block(b.size - size - 2 * OVERHEAD, false, EMPTY_WORD, EMPTY_WORD));
        assert q in s1.blocks && |s1.lists| == MAX_SEGREGATION_CLASSES && |s1.heads| == MAX_SEGREGATION_CLASSES;
        assert layout[i + 1] == q && blocks[q].prev == EMPTY_WORD && blocks[q].next == EMPTY_WORD;
        assert !FreeListed(St(), {o} + {q}, i) && q in {o} + {q};
        AddBlockToFreeList(rest, i + 1, {o} + {q});
        assert St() == AddStore(s1, q);
        PairMinus(o, q);
        AH.KeptTrans(h0, h1, blocks);
      }
    }

    /** The writes of growing by `n` pages and laying the free block `b` at the old end of memory. */
    method GrowWrites(n: nat, b: Block)
      modifies this`blocks, this`layout, this`pages, this`mem
      ensures St() == GrowStore(old(St()), old(pages) * PAGE_SIZE_BYTES, b)
      ensures pages == old(pages) + n && mem == old(mem) + AH.Zeros(n * PAGE_SIZE_BYTES) && classes == old(classes)
    {
      var end := pages * PAGE_SIZE_BYTES;
      blocks, layout, pages, mem := blocks[end := b], layout + [end], pages + n, mem + AH.Zeros(n * PAGE_SIZE_BYTES);
    }

    /**
     * `grow_and_create_new_free_block(size)`: memory grows by enough whole pages for `size`
     * bytes (the host refuses past `maxPages`, which is `OutOfMemory`), and a free block
     * with empty links over all of them, two headers less, floats at the old end.
     */
    method GrowAndCreateNewFreeBlock(size: nat) returns (r: Result<int>)
      requires Inv() && size > 0
      modifies this`blocks, this`layout, this`pages, this`mem
      ensures var n := PagesFor(size);
        old(pages) + n <= maxPages ==>
          r == Success(old(pages) * PAGE_SIZE_BYTES) && r.value !in old(blocks) && pages == old(pages) + n &&
          mem == old(mem) + AH.Zeros(n * PAGE_SIZE_BYTES) &&
          St() == GrowStore(old(St()), r.value, Block(n * PAGE_SIZE_BYTES - 2 * OVERHEAD, false, EMPTY_WORD, EMPTY_WORD)) &&
          Inner({r.value}) && |layout| == |old(layout)| + 1 && layout[|layout| - 1] == r.value
      ensures old(pages) + PagesFor(size) > maxPages ==>
        r == Failure(OutOfMemory) && St() == old(St()) && pages == old(pages) && mem == old(mem)
      ensures Kept(old(blocks), blocks)
      ensures old(Persisted(mem, offset, classes)) ==> Persisted(mem, offset, classes)
    {
      var end := pages * PAGE_SIZE_BYTES;
      var n := PagesFor(size);
      if pages + n > maxPages {
        return Failure(OutOfMemory);
      }
      var b := Block(n * PAGE_SIZE_BYTES - 2 * OVERHEAD, false, EMPTY_WORD, EMPTY_WORD);
      r := Success(end);
      ghost var s0, mem0 := St(), mem;
      GrowWrites(n, b);
      assert St() == GrowStore(s0, end, b);
      AppendKeeps(mem0, AH.Zeros(n * PAGE_SIZE_BYTES), offset, classes);
      assert |classes| == MAX_SEGREGATION_CLASSES && pages <= maxPages && |mem| == pages * PAGE_SIZE_BYTES && Magic(mem, offset);
      assert pages * PAGE_SIZE_BYTES == end + b.size + 2 * OVERHEAD;
      GoodGrow(s0, HeapStart(), end, b);
      AH.KeptSet(s0.blocks, s0.blocks, end, b);
    }

    /**
     * `remove_block_from_free_list`: the block `o`, position `k` of class `c`'s list, is
     * spliced out (a head is replaced by its successor, or the class emptied) and floats.
     */
    method RemoveBlockFromFreeList(o: int, c: nat, ghost k: nat, ghost F: set<int>)
      requires Inner(F) && c < MAX_SEGREGATION_CLASSES && k < |lists[c]| && lists[c][k] == o
      modifies this`blocks, this`lists, this`classes, this`mem
      ensures St() == EjectStore(LCfg, old(St()), c, k)
      ensures o in old(blocks) && !old(blocks)[o].isAllocated && o !in F
      ensures Inner(F + {o})
      ensures blocks.Keys == old(blocks).Keys && blocks[o] == old(blocks)[o] && Kept(old(blocks), blocks)
      ensures old(Persisted(mem, offset, classes)) ==> Persisted(mem, offset, classes)
      ensures layout == old(layout) && pages == old(pages) && SameSizes(old(blocks), blocks)
    {
      assert Removable(o, c, k) by {
        ListFacts(St(), HeapStart(), pages * PAGE_SIZE_BYTES, F, c);
        BelowMax(St(), HeapStart(), pages * PAGE_SIZE_BYTES, F);
        forall x | x in lists[c] ensures EMPTY_WORD < x < MAX_MEM {
          ListedFree(LCfg, St(), c, x);
        }
      }
      ghost var s0, p0, end0, len0 := St(), pages, pages * PAGE_SIZE_BYTES, |mem|;
      RemoveWrites(o, c, k);
      assert pages == p0 && |mem| == len0;
      assert |classes| == MAX_SEGREGATION_CLASSES && Magic(mem, offset);
      GoodEject(s0, HeapStart(), end0, F, c, k);
    }
    /**
     * `set_allocated(false)` on an allocated block: it floats. Its link words are taken to
     * read `EMPTY_WORD` afterwards (the code of `MemBlock` is not part of this model).
     */
    method MarkFree(o: int)
      requires Inv() && o in blocks && blocks[o].isAllocated
      modifies this`blocks
      ensures St() == SetBlock(old(St()), o, Freed(old(blocks)[o]))
      ensures Inner({o}) && blocks.Keys == old(blocks).Keys
      ensures Kept(old(blocks) - {o}, blocks)
      ensures pages == old(pages) && mem == old(mem) && classes == old(classes)
    {
      GoodSetBlock(St(), HeapStart(), pages * PAGE_SIZE_BYTES, {}, o, Freed(blocks[o]), {o});
      blocks := blocks[o := Freed(blocks[o])];
    }

    /** `set_allocated(true)` on a floating block: it is handed out. */
    method MarkAllocated(o: int, ghost F: set<int>)
      requires Inner(F) && o in F
      modifies this`blocks
      ensures o in old(blocks) && St() == SetBlock(old(St()), o, old(blocks)[o].(isAllocated := true))
      ensures Inner(F - {o}) && blocks.Keys == old(blocks).Keys
      ensures Kept(old(blocks), blocks)
      ensures pages == old(pages) && mem == old(mem) && classes == old(classes)
    {
      GoodSetBlock(St(), HeapStart(), pages * PAGE_SIZE_BYTES, F, o, blocks[o].(isAllocated := true), F - {o});
      blocks := blocks[o := blocks[o].(isAllocated := true)];
    }

    /**
     * `merge_with` (the code is not part of this model) on the floating neighbours `a` and
     * `b` at layout positions `j` and `j + 1`: one free block at `a`, with empty links,
     * holds both payloads and the two headers between them.
     */
    method Merge(a: int, b: int, j: nat, ghost F: set<int>)
      requires Inner(F) && j + 1 < |layout| && layout[j] == a && layout[j + 1] == b && a in F && b in F
      modifies this`blocks, this`layout
      ensures St() == MergeStore(old(St()), j, Block(old(blocks)[a].size + old(blocks)[b].size + 2 * OVERHEAD, false, EMPTY_WORD, EMPTY_WORD))
      ensures Inner(F - {b})
      ensures blocks.Keys <= old(blocks).Keys
      ensures Kept(old(blocks), blocks)
      ensures pages == old(pages) && mem == old(mem) && classes == old(classes)
    {
      var m := Block(blocks[a].size + blocks[b].size + 2 * OVERHEAD, false, EMPTY_WORD, EMPTY_WORD);
      GoodMerge(St(), HeapStart(), pages * PAGE_SIZE_BYTES, F, j, m);
      blocks := (blocks - {b})[a := m];
      layout := RemoveAt(layout, j + 1);
    }

    /** The list and header writes of the left merge: `p` leaves its list and absorbs `o`. */
    method RemoveMergePrev(p: int, o: int, i: nat, c: nat, ghost k: nat)
      requires 0 < i < |layout| && layout[i - 1] == p && layout[i] == o && p != o
      requires Inner({o}) && c < MAX_SEGREGATION_CLASSES && k < |lists[c]| && lists[c][k] == p
      modifies this`blocks, this`lists, this`classes, this`mem, this`layout
      ensures i - 1 < |layout| && layout[i - 1] == p && p in blocks && o !in blocks && blocks.Keys <= old(blocks).Keys
      ensures blocks[p].prev == EMPTY_WORD && blocks[p].next == EMPTY_WORD
      ensures St() == MergeStore(EjectStore(LCfg, old(St()), c, k), i - 1, blocks[p])
      ensures blocks[p].size == old(blocks)[p].size + old(blocks)[o].size + 2 * OVERHEAD
      ensures Inner({p})
      ensures Kept(old(blocks), blocks)
      ensures old(Persisted(mem, offset, classes)) ==> Persisted(mem, offset, classes)
      ensures pages == old(pages)
    {
      RemoveBlockFromFreeList(p, c, k, {o});
      ghost var h1 := blocks;
      assert h1[p].size == old(blocks)[p].size && h1[o].size == old(blocks)[o].size;
      assert layout[i - 1] == p && layout[i] == o;
      assert p in {o} + {p} && o in {o} + {p};
      var j := i - 1;
      assert j + 1 == i && j + 1 < |layout| && layout[j] == p && layout[j + 1] == o;
      Merge(p, o, j, {o} + {p});
      RemoveAtIndex(old(layout), i);
      assert i - 1 < |layout| && layout[i - 1] == p && p in blocks && o !in blocks;
      AH.KeptTrans(old(blocks), h1, blocks);
      PairMinus(p, o);
    }

    /**
     * `try_merge` towards the end of the previous block, once the free left neighbour `p`
     * (position `k` of class `c`'s list) of the floating block `o` at layout position `i`
     * is found: `p` leaves its list and absorbs `o`.
     */
    method AbsorbPrev(p: int, o: int, i: nat, c: nat, ghost k: nat)
      requires 0 < i < |layout| && layout[i - 1] == p && layout[i] == o
      requires Inner({o}) && FreeListed(St(), {o}, i - 1)
      requires c < MAX_SEGREGATION_CLASSES && k < |lists[c]| && lists[c][k] == p
      modifies this`blocks, this`lists, this`classes, this`mem, this`layout
      ensures i - 1 < |layout| && layout[i - 1] == p && o !in blocks && p in blocks && blocks.Keys <= old(blocks).Keys
      ensures blocks[p].prev == EMPTY_WORD && blocks[p].next == EMPTY_WORD
      ensures blocks[p].size == old(blocks)[p].size + old(blocks)[o].size + 2 * OVERHEAD
      ensures Inner({p}) && !FreeListed(St(), {p}, i - 2)
      ensures !FreeListed(old(St()), {o}, i + 1) ==> !FreeListed(St(), {p}, i)
      ensures Kept(old(blocks), blocks)
      ensures old(Persisted(mem, offset, classes)) ==> Persisted(mem, offset, classes)
      ensures pages == old(pages)
    {
      ghost var s0, end0 := St(), pages * PAGE_SIZE_BYTES;
      RemoveMergePrev(p, o, i, c, k);
      AbsorbLeft(s0, HeapStart(), end0, i, c, k, St(), blocks[p]);
    }

    /** The list and header writes of the right merge: `n` leaves its list and `m` absorbs it. */
    method RemoveMergeNext(m: int, n: int, j: nat, c: nat, ghost k: nat)
      requires j + 1 < |layout| && layout[j] == m && layout[j + 1] == n && m != n
      requires Inner({m}) && c < MAX_SEGREGATION_CLASSES && k < |lists[c]| && lists[c][k] == n
      modifies this`blocks, this`lists, this`classes, this`mem, this`layout
      ensures j < |layout| && layout[j] == m && m in blocks && blocks.Keys <= old(blocks).Keys
      ensures blocks[m].prev == EMPTY_WORD && blocks[m].next == EMPTY_WORD
      ensures St() == MergeStore(EjectStore(LCfg, old(St()), c, k), j, blocks[m])
      ensures blocks[m].size == old(blocks)[m].size + old(blocks)[n].size + 2 * OVERHEAD
      ensures Inner({m})
      ensures Kept(old(blocks), blocks)
      ensures old(Persisted(mem, offset, classes)) ==> Persisted(mem, offset, classes)
      ensures pages == old(pages)
    {
      RemoveBlockFromFreeList(n, c, k, {m});
      ghost var h1 := blocks;
      assert h1[m].size == old(blocks)[m].size && h1[n].size == old(blocks)[n].size;
      assert layout[j] == m && layout[j + 1] == n;
      assert m in {m} + {n} && n in {m} + {n};
      Merge(m, n, j, {m} + {n});
      RemoveAtIndex(old(layout), j + 1);
      assert j < |layout| && layout[j] == m && m in blocks;
      AH.KeptTrans(old(blocks), h1, blocks);
      PairMinus(m, n);
    }

    /**
     * `try_merge` towards the start of the next block, once the free right neighbour `n`
     * (position `k` of class `c`'s list) of the floating block `m` at layout position `j`
     * is found: `n` leaves its list and `m` absorbs it.
     */
    method AbsorbNext(m: int, n: int, j: nat, c: nat, ghost k: nat)
      requires j + 1 < |layout| && layout[j] == m && layout[j + 1] == n
      requires Inner({m}) && FreeListed(St(), {m}, j + 1)
      requires c < MAX_SEGREGATION_CLASSES && k < |lists[c]| && lists[c][k] == n
      modifies this`blocks, this`lists, this`classes, this`mem, this`layout
      ensures j < |layout| && layout[j] == m && m in blocks
      ensures blocks[m].prev == EMPTY_WORD && blocks[m].next == EMPTY_WORD
      ensures blocks[m].size == old(blocks)[m].size + old(blocks)[n].size + 2 * OVERHEAD
      ensures Inner({m}) && !FreeListed(St(), {m}, j + 1)
      ensures !FreeListed(old(St()), {m}, j - 1) ==> !FreeListed(St(), {m}, j - 1)
      ensures blocks.Keys <= old(blocks).Keys
      ensures Kept(old(blocks), blocks)
      ensures old(Persisted(mem, offset, classes)) ==> Persisted(mem, offset, classes)
      ensures pages == old(pages)
    {
      ghost var s0, end0 := St(), pages * PAGE_SIZE_BYTES;
      RemoveMergeNext(m, n, j, c, k);
      AbsorbRight(s0, HeapStart(), end0, j, c, k, St(), blocks[m]);
    }
    /**
     * `try_merge` towards the end of the previous block (`MemBlockSide::End`) on the
     * floating block `o` at layout position `i`. A free left neighbour leaves its list and
     * absorbs `o`; the merged block starts where that neighbour started. The first block of
     * the heap has no left neighbour. The result `m`, at position `j`, floats alone and has
     * no settled free block on its left.
     */
    method MergeLeft(o: int, i: nat) returns (m: int, j: nat)
      requires Inner({o}) && i < |layout| && layout[i] == o
      requires o in blocks && blocks[o].prev == EMPTY_WORD && blocks[o].next == EMPTY_WORD
      modifies this`blocks, this`lists, this`classes, this`mem, this`layout
      ensures j < |layout| && layout[j] == m && Inner({m}) && !FreeListed(St(), {m}, j - 1)
      ensures m in blocks && blocks[m].prev == EMPTY_WORD && blocks[m].next == EMPTY_WORD
      ensures blocks.Keys <= old(blocks).Keys
      ensures !FreeListed(old(St()), {o}, i + 1) ==> !FreeListed(St(), {m}, j + 1)
      ensures (m == o && j == i && St() == old(St()) && mem == old(mem)) ||
              (0 < i && j == i - 1 && m == old(layout)[i - 1] && FreeListed(old(St()), {o}, i - 1) && o !in blocks &&
               blocks[m].size == old(blocks)[m].size + old(blocks)[o].size + 2 * OVERHEAD)
      ensures Kept(old(blocks), blocks)
      ensures old(Persisted(mem, offset, classes)) ==> Persisted(mem, offset, classes)
      ensures pages == old(pages)
    {
      if i == 0 {
        m, j := o, i;
        return;
      }
      var p := layout[i - 1];
      assert p in blocks && p != o by {
        LayoutFacts(St(), HeapStart(), pages * PAGE_SIZE_BYTES, {o}, o);
      }
      if blocks[p].isAllocated {
        m, j := o, i;
        return;
      }
      assert FreeListed(St(), {o}, i - 1);
      var c := FindSegClassIdx(blocks[p].size);
      assert p in lists[c] && c < MAX_SEGREGATION_CLASSES by {
        SettledFacts(St(), HeapStart(), pages * PAGE_SIZE_BYTES, {o}, p);
      }
      ghost var k := IndexOf(lists[c], p);
      AbsorbPrev(p, o, i, c, k);
      m, j := p, i - 1;
    }

    /**
     * `try_merge` towards the start of the next block (`MemBlockSide::Start`) on the
     * floating block `m` at layout position `j`: a free right neighbour leaves its list and
     * `m` absorbs it. The last block of the heap has no right neighbour. Afterwards `m`
     * touches no settled free block on its right, and its left side is as it was.
     */
    method MergeRight(m: int, j: nat)
      requires Inner({m}) && j < |layout| && layout[j] == m
      requires m in blocks && blocks[m].prev == EMPTY_WORD && blocks[m].next == EMPTY_WORD
      modifies this`blocks, this`lists, this`classes, this`mem, this`layout
      ensures j < |layout| && layout[j] == m && m in blocks && Inner({m}) && !FreeListed(St(), {m}, j + 1)
      ensures blocks[m].prev == EMPTY_WORD && blocks[m].next == EMPTY_WORD
      ensures !FreeListed(old(St()), {m}, j - 1) ==> !FreeListed(St(), {m}, j - 1)
      ensures !FreeListed(old(St()), {m}, j + 1) ==> St() == old(St()) && mem == old(mem)
      ensures FreeListed(old(St()), {m}, j + 1) ==>
                blocks[m].size == old(blocks)[m].size + old(blocks)[old(layout)[j + 1]].size + 2 * OVERHEAD
      ensures blocks.Keys <= old(blocks).Keys
      ensures Kept(old(blocks), blocks)
      ensures old(Persisted(mem, offset, classes)) ==> Persisted(mem, offset, classes)
      ensures pages == old(pages)
    {
      assert m in blocks by {
        LayoutFacts(St(), HeapStart(), pages * PAGE_SIZE_BYTES, {m}, m);
      }
      if j + 1 == |layout| {
        return;
      }
      var n := layout[j + 1];
      assert n in blocks && n != m by {
        LayoutFacts(St(), HeapStart(), pages * PAGE_SIZE_BYTES, {m}, m);
      }
      if blocks[n].isAllocated {
        return;
      }
      assert FreeListed(St(), {m}, j + 1);
      var c := FindSegClassIdx(blocks[n].size);
      assert n in lists[c] && c < MAX_SEGREGATION_CLASSES by {
        SettledFacts(St(), HeapStart(), pages * PAGE_SIZE_BYTES, {m}, n);
      }
      // The recursive `try_merge` on `n` finds no free block after it: a settled free
      // block has none, so that call changes nothing.
      ghost var after := j + 2;
      assert after < |layout| && layout[after] != m ==> blocks[layout[after]].isAllocated by {
        SettledNeighbours(St(), HeapStart(), pages * PAGE_SIZE_BYTES, {m}, j + 1);
      }
      ghost var k := IndexOf(lists[c], n);
      AbsorbNext(m, n, j, c, k);
    }
    /**
     * `deallocate`: the allocated block `o` is marked free, merged with a free block before
     * it and then with one after it, and the result joins the list of its class. No block
     * floats afterwards and every other allocated block is as it was. A missing or free
     * block at `o` is unreachable in the source.
     */
    method Deallocate(o: int)
      requires Inv() && o in blocks && blocks[o].isAllocated
      modifies this`blocks, this`lists, this`classes, this`mem, this`layout
      ensures Inv()
      ensures o !in AH.AllocatedSet(blocks)
      ensures Kept(old(blocks) - {o}, blocks)
      ensures old(Persisted(mem, offset, classes)) ==> Persisted(mem, offset, classes)
      ensures pages == old(pages)
    {
      MarkFree(o);
      ghost var h1 := blocks;
      assert o in layout by {
        LayoutFacts(St(), HeapStart(), pages * PAGE_SIZE_BYTES, {o}, o);
      }
      var i := IndexOf(layout, o);
      var m, j := MergeLeft(o, i);
      ghost var h2 := blocks;
      MergeRight(m, j);
      ghost var h3 := blocks;
      AddBlockToFreeList(m, j, {m});
      SingleMinus(m);
      AH.KeptTrans(old(blocks) - {o}, h1, h2);
      AH.KeptTrans(old(blocks) - {o}, h2, h3);
      AH.KeptTrans(old(blocks) - {o}, h3, blocks);
      assert o in blocks ==> o == m;
    }
    /**
     * The common ending of both paths of `allocate`: the floating block `o` at layout
     * position `i`, at least `size` bytes long, is split when the rest can stand alone and
     * is handed out.
     */
    method TakeFloating(o: int, size: nat, i: nat)
      requires Inner({o}) && i < |layout| && layout[i] == o && o in blocks && blocks[o].size >= size
      requires !FreeListed(St(), {o}, i + 1)
      modifies this`blocks, this`lists, this`classes, this`mem, this`layout
      ensures Inv()
      ensures o in blocks && blocks[o].isAllocated && size <= blocks[o].size < size + MIN_MEM_BLOCK_SIZE_BYTES
      ensures Kept(old(blocks), blocks)
      ensures old(Persisted(mem, offset, classes)) ==> Persisted(mem, offset, classes)
      ensures pages == old(pages)
    {
      ghost var q := SplitIfNeeded(o, size, i, blocks[o]);
      ghost var h1 := blocks;
      MarkAllocated(o, {o});
      SingleMinus(o);
      AH.KeptTrans(old(blocks), h1, blocks);
    }

    /**
     * The found path of `allocate`: block `o`, position `k` of class `c`'s list and at
     * least `size` bytes long, leaves its list, is split when the rest can stand alone, and
     * is handed out.
     */
    method TakeFound(o: int, size: nat, c: nat, ghost k: nat)
      requires Inv() && c < MAX_SEGREGATION_CLASSES && k < |lists[c]| && lists[c][k] == o
      requires o in blocks && blocks[o].size >= size
      modifies this`blocks, this`lists, this`classes, this`mem, this`layout
      ensures Inv()
      ensures o in old(blocks) && !old(blocks)[o].isAllocated && old(blocks)[o].size >= size
      ensures o in blocks && blocks[o].isAllocated && size <= blocks[o].size < size + MIN_MEM_BLOCK_SIZE_BYTES
      ensures Kept(old(blocks), blocks)
      ensures old(Persisted(mem, offset, classes)) ==> Persisted(mem, offset, classes)
      ensures pages == old(pages)
    {
      ghost var s0, end0 := St(), pages * PAGE_SIZE_BYTES;
      assert o in layout by {
        LayoutFacts(St(), HeapStart(), pages * PAGE_SIZE_BYTES, {}, o);
      }
      var i := IndexOf(layout, o);
      RemoveBlockFromFreeList(o, c, k, {});
      SingleMinus(o);
      assert !FreeListed(St(), {o}, i + 1) by {
        EjectNeighbours(s0, HeapStart(), end0, {}, c, k, i);
      }
      ghost var h1 := blocks;
      TakeFloating(o, size, i);
      AH.KeptTrans(old(blocks), h1, blocks);
    }

    /**
     * The grown path of `allocate`: memory grows by the pages `size` bytes and two headers
     * need, the new free block is split when the rest can stand alone, and it is handed
     * out; past the page limit the error comes back and nothing changes.
     */
    method TakeGrown(size: nat) returns (r: Result<int>)
      requires Inv()
      modifies this`blocks, this`lists, this`classes, this`mem, this`layout, this`pages
      ensures Inv()
      ensures old(pages) + PagesFor(size + 2 * OVERHEAD) <= maxPages ==>
        r == Success(old(pages) * PAGE_SIZE_BYTES) && r.value !in old(blocks) &&
        pages == old(pages) + PagesFor(size + 2 * OVERHEAD) &&
        r.value in blocks && blocks[r.value].isAllocated && size <= blocks[r.value].size < size + MIN_MEM_BLOCK_SIZE_BYTES
      ensures old(pages) + PagesFor(size + 2 * OVERHEAD) > maxPages ==>
        r == Failure(OutOfMemory) && St() == old(St()) && pages == old(pages) && mem == old(mem)
      ensures Kept(old(blocks), blocks)
      ensures old(Persisted(mem, offset, classes)) ==> Persisted(mem, offset, classes)
    {
      r := GrowAndCreateNewFreeBlock(size + 2 * OVERHEAD);
      if r.Failure? {
        return;
      }
      var o := r.value;
      ghost var h1 := blocks;
      TakeFloating(o, size, |layout| - 1);
      AH.KeptTrans(old(blocks), h1, blocks);
    }

    /**
     * `allocate`: the block `find_appropriate_free_mem_block` settles on is taken from its
     * list, or, when no class has a fitting block, memory grows. The block handed out is
     * newly allocated and holds `size` bytes with less than a minimal block to spare; every
     * other allocated block is as it was. Out of memory, nothing changes.
     */
    method Allocate(size: nat) returns (r: Result<int>)
      requires Inv()
      modifies this`blocks, this`lists, this`classes, this`mem, this`layout, this`pages
      ensures Inv()
      ensures var fit := LastFit(old(blocks), old(lists), size, FindSegClassIdx(size), MAX_SEGREGATION_CLASSES);
        fit.Some? ==>
          r.Success? && pages == old(pages) &&
          exists k: nat :: BestFit(old(blocks), old(lists)[fit.value], size, k) && r.value == old(lists)[fit.value][k]
      ensures var fit := LastFit(old(blocks), old(lists), size, FindSegClassIdx(size), MAX_SEGREGATION_CLASSES);
        fit.None? ==>
          (old(pages) + PagesFor(size + 2 * OVERHEAD) <= maxPages ==>
             r == Success(old(pages) * PAGE_SIZE_BYTES) && pages == old(pages) + PagesFor(size + 2 * OVERHEAD)) &&
          (old(pages) + PagesFor(size + 2 * OVERHEAD) > maxPages ==>
             r == Failure(OutOfMemory) && St() == old(St()) && pages == old(pages) && mem == old(mem))
      ensures r.Success? ==>
        r.value in blocks && blocks[r.value].isAllocated && r.value !in AH.AllocatedSet(old(blocks)) &&
        size <= blocks[r.value].size < size + MIN_MEM_BLOCK_SIZE_BYTES
      ensures r.Success? ==>
        (r.value in old(blocks) && old(blocks)[r.value].size >= size) || r.value == old(pages) * PAGE_SIZE_BYTES
      ensures Kept(old(blocks), blocks)
      ensures old(Persisted(mem, offset, classes)) ==> Persisted(mem, offset, classes)
    {
      var found, k := FindAppropriateFreeMemBlock(size);
      if found.Some? {
        var (o, c) := found.value;
        TakeFound(o, size, c, k);
        r := Success(o);
      } else {
        r := TakeGrown(size);
      }
    }
    /**
     * The in-place half of `reallocate`: the allocated block `o` at layout position `i` is
     * marked free and absorbs a free block right after it. It then floats, bigger by what
     * `RightGain` names, with no settled free block on its right.
     */
    method ReleaseRight(o: int, i: nat)
      requires Inv() && i < |layout| && layout[i] == o && o in blocks && blocks[o].isAllocated
      modifies this`blocks, this`lists, this`classes, this`mem, this`layout
      ensures Inner({o}) && i < |layout| && layout[i] == o && o in blocks && !FreeListed(St(), {o}, i + 1)
      ensures blocks[o].prev == EMPTY_WORD && blocks[o].next == EMPTY_WORD
      ensures blocks[o].size == old(blocks)[o].size + RightGain(old(blocks), o)
      ensures Kept(old(blocks) - {o}, blocks)
      ensures old(Persisted(mem, offset, classes)) ==> Persisted(mem, offset, classes)
      ensures pages == old(pages)
    {
      assert (i + 1 < |layout| ==> End(blocks, o) == layout[i + 1] && layout[i + 1] != o) &&
             (i + 1 == |layout| ==> End(blocks, o) !in blocks) by {
        TiledNext(blocks, layout, HeapStart(), pages * PAGE_SIZE_BYTES, i);
        LayoutFacts(St(), HeapStart(), pages * PAGE_SIZE_BYTES, {}, o);
      }
      ghost var g := RightGain(blocks, o);
      MarkFree(o);
      ghost var h1 := blocks;
      assert h1[o].size == old(blocks)[o].size;
      assert FreeListed(St(), {o}, i + 1) ==> layout[i + 1] == End(old(blocks), o) && h1[layout[i + 1]] == old(blocks)[layout[i + 1]];
      assert g > 0 <==> FreeListed(St(), {o}, i + 1);
      MergeRight(o, i);
      AH.KeptTrans(old(blocks) - {o}, h1, blocks);
    }

    /**
     * The fallback of `reallocate`, with the left merge the source leaves out: the
     * floating block `o`, too small for `wanted` even after its right merge, is also merged
     * with a free block before it, goes back to a free list, and a block is allocated
     * elsewhere. Out of memory, the old block stays freed.
     */
    method Relocate(o: int, i: nat, wanted: nat) returns (r: Result<int>)
      requires Inner({o}) && i < |layout| && layout[i] == o && o in blocks && blocks[o].size < wanted
      requires blocks[o].prev == EMPTY_WORD && blocks[o].next == EMPTY_WORD && !FreeListed(St(), {o}, i + 1)
      modifies this`blocks, this`lists, this`classes, this`mem, this`layout, this`pages
      ensures Inv()
      ensures r.Success? ==>
        r.value != o && r.value in blocks && blocks[r.value].isAllocated &&
        wanted <= blocks[r.value].size < wanted + MIN_MEM_BLOCK_SIZE_BYTES
      ensures r.Failure? ==> r == Failure(OutOfMemory) && pages == old(pages) && o !in AH.AllocatedSet(blocks)
      ensures Kept(old(blocks), blocks)
      ensures old(Persisted(mem, offset, classes)) ==> Persisted(mem, offset, classes)
    {
      assert End(blocks, o) <= pages * PAGE_SIZE_BYTES by {
        BlockFacts(St(), HeapStart(), pages * PAGE_SIZE_BYTES, {o}, o);
      }
      var m, j := MergeLeft(o, i);
      ghost var h1 := blocks;
      AddBlockToFreeList(m, j, {m});
      SingleMinus(m);
      ghost var h2, p2 := blocks, pages;
      assert o in h2 ==> o == m && h2[o].size < wanted && !h2[o].isAllocated;
      r := Allocate(wanted);
      assert r.Success? ==> r.value != o;
      AH.KeptTrans(old(blocks), h1, h2);
      AH.KeptTrans(old(blocks), h2, blocks);
    }

    /**
     * `reallocate`, with the fallback's missing left merge added: a block that already
     * holds `wanted` bytes stays as it is; one that holds them once it absorbs the free
     * block after it stays at `o`, split when the rest can stand alone; otherwise the
     * block is freed and a different offset is allocated, or, out of memory, the error
     * comes back with the old block freed. A missing or free block at `o` is unreachable in
     * the source.
     */
    method Reallocate(o: int, wanted: nat) returns (r: Result<int>)
      requires Inv() && o in blocks && blocks[o].isAllocated
      modifies this`blocks, this`lists, this`classes, this`mem, this`layout, this`pages
      ensures Inv()
      ensures old(blocks)[o].size >= wanted ==>
        r == Success(o) && St() == old(St()) && mem == old(mem) && pages == old(pages)
      ensures old(blocks)[o].size < wanted <= old(blocks)[o].size + RightGain(old(blocks), o) ==>
        r == Success(o) && o in blocks && blocks[o].isAllocated &&
        wanted <= blocks[o].size < wanted + MIN_MEM_BLOCK_SIZE_BYTES && pages == old(pages)
      ensures old(blocks)[o].size + RightGain(old(blocks), o) < wanted ==>
        (r.Success? ==>
           r.value != o && r.value in blocks && blocks[r.value].isAllocated &&
           wanted <= blocks[r.value].size < wanted + MIN_MEM_BLOCK_SIZE_BYTES) &&
        (r.Failure? ==> r == Failure(OutOfMemory) && o !in AH.AllocatedSet(blocks))
      ensures Kept(old(blocks) - {o}, blocks)
      ensures old(Persisted(mem, offset, classes)) ==> Persisted(mem, offset, classes)
    {
      if blocks[o].size >= wanted {
        return Success(o);
      }
      assert o in layout by {
        LayoutFacts(St(), HeapStart(), pages * PAGE_SIZE_BYTES, {}, o);
      }
      var i := IndexOf(layout, o);
      ReleaseRight(o, i);
      ghost var h1 := blocks;
      if blocks[o].size >= wanted {
        TakeFloating(o, wanted, i);
        AH.KeptTrans(old(blocks) - {o}, h1, blocks);
        return Success(o);
      }
      r := Relocate(o, i, wanted);
      AH.KeptTrans(old(blocks) - {o}, h1, blocks);
    }
    /**
     * The allocator `init` returns once memory is grown: its header at `offset0`, with
     * the magic bytes already in `mem0`, and one free block of `size` bytes from the end of
     * the header to the end of memory, the only entry of its class, whose head
     * `set_segregation_class` stores in the table.
     */
    constructor FromFirstBlock(offset0: nat, maxPages0: nat, pages0: nat, mem0: seq<byte>, size: nat)
      requires pages0 <= maxPages0 && maxPages0 * PAGE_SIZE_BYTES <= MAX_MEM && |mem0| == pages0 * PAGE_SIZE_BYTES
      requires Magic(mem0, offset0) && offset0 + SIZE + size + 2 * OVERHEAD == |mem0|
      ensures offset == offset0 && maxPages == maxPages0 && pages == pages0 && Inv()
      ensures St() == FirstStore(offset0 + SIZE, size)
      ensures mem == WriteWord(mem0, TableAt(offset0, FindSegClassIdx(size)), offset0 + SIZE)
      ensures TableClear(mem0, offset0) ==> Persisted(mem, offset, classes)
    {
      var start := offset0 + SIZE;
      var c := FindSegClassIdx(size);
      var f := FirstStore(start, size);
      offset, maxPages, pages := offset0, maxPages0, pages0;
      blocks, classes, lists, layout := f.blocks, f.heads, f.lists, f.layout;
      mem := WriteWord(mem0, TableAt(offset0, c), start);
      new;
      assert St() == f && HeapStart() == start;
      assert pages * PAGE_SIZE_BYTES == start + size + 2 * OVERHEAD;
      assert LGood(St(), HeapStart(), pages * PAGE_SIZE_BYTES, {}) by {
        GoodFirst(start, size);
      }
      MagicAfterWrite(mem0, offset0, TableAt(offset0, c), start);
      if TableClear(mem0, offset0) {
        ClearPersists(mem0, offset0);
        TableAfterWrite(mem0, offset0, NO_CLASSES, c, start);
        assert NO_CLASSES[c := start] == classes;
      }
    }
  }

  /**
   * `init_grow_if_need`: memory grows to the whole pages that hold the allocator's header
   * at `offset`, or stays as it is when it already does; past the page limit the result
   * is `OutOfMemory`. The result is the grown memory and its size in pages.
   */
  method InitGrowIfNeed(offset: nat, mem: seq<byte>, pages: nat, maxPages: nat) returns (r: Result<(seq<byte>, nat)>)
    requires |mem| == pages * PAGE_SIZE_BYTES && pages <= maxPages
    ensures r.Failure? <==> HeaderPages(offset, pages) > maxPages
    ensures r.Failure? ==> r.error == OutOfMemory
    ensures r.Success? ==>
      r.value.1 == HeaderPages(offset, pages) && |r.value.0| == r.value.1 * PAGE_SIZE_BYTES &&
      r.value.0 == mem + AH.Zeros((r.value.1 - pages) * PAGE_SIZE_BYTES)
    ensures r.Success? && TableClear(mem, offset) ==> TableClear(r.value.0, offset)
  {
    var need := PagesFor(offset + SIZE);
    if pages < need {
      if need > maxPages {
        return Failure(OutOfMemory);
      }
      if TableClear(mem, offset) {
        ClearAfterAppend(mem, (need - pages) * PAGE_SIZE_BYTES, offset);
      }
      return Success((mem + AH.Zeros((need - pages) * PAGE_SIZE_BYTES), need));
    }
    assert mem + AH.Zeros(0) == mem;
    r := Success((mem, pages));
  }

  /**
   * `init_first_free_mem_block` at the end of the header, with the block's size computed
   * after the growth (`InitFirstSize`): one free block fills memory to the end of its
   * pages, one more page being grown when what is left cannot hold a minimal block; past
   * the page limit the result is `OutOfMemory`.
   */
  method InitFirstFreeMemBlock(offset: nat, mem: seq<byte>, pages: nat, maxPages: nat) returns (r: Result<StableMemoryAllocator>)
    requires |mem| == pages * PAGE_SIZE_BYTES && pages <= maxPages && maxPages * PAGE_SIZE_BYTES <= MAX_MEM
    requires offset + SIZE <= |mem| && Magic(mem, offset)
    ensures var extra := InitFirstSize(offset + SIZE, pages * PAGE_SIZE_BYTES).1;
      r.Failure? <==> pages + extra > maxPages
    ensures r.Failure? ==> r.error == OutOfMemory
    ensures r.Success? ==>
      var a := r.value;
      fresh(a) && a.Inv() && a.offset == offset && a.maxPages == maxPages &&
      a.pages == pages + InitFirstSize(offset + SIZE, pages * PAGE_SIZE_BYTES).1 &&
      a.layout == [offset + SIZE] && End(a.blocks, offset + SIZE) == a.pages * PAGE_SIZE_BYTES &&
      !a.blocks[offset + SIZE].isAllocated && NonEmptyClasses(a.classes) == 1
    ensures r.Success? && TableClear(mem, offset) ==> Persisted(r.value.mem, offset, r.value.classes)
  {
    var start := offset + SIZE;
    var (size, extra) := InitFirstSize(start, pages * PAGE_SIZE_BYTES);
    var p, m := pages, mem;
    if extra == 1 {
      if p + 1 > maxPages {
        return Failure(OutOfMemory);
      }
      if TableClear(m, offset) {
        ClearAfterAppend(m, PAGE_SIZE_BYTES, offset);
      }
      AppendKeeps(m, AH.Zeros(PAGE_SIZE_BYTES), offset, NO_CLASSES);
      m, p := m + AH.Zeros(PAGE_SIZE_BYTES), p + 1;
    }
    var a := new StableMemoryAllocator.FromFirstBlock(offset, maxPages, p, m, size);
    r := Success(a);
    GoodFirst(start, size);
  }

  /**
   * `init`: memory grows to hold the allocator's header at `offset`, the magic bytes are
   * written, and the first free block fills the rest of memory. Past the page limit the
   * result is `OutOfMemory`. Over memory whose class table was never written, `reinit`
   * afterwards restores the same table at the same offset.
   */
  method Init(offset: nat, mem: seq<byte>, pages: nat, maxPages: nat) returns (r: Result<StableMemoryAllocator>)
    requires |mem| == pages * PAGE_SIZE_BYTES && pages <= maxPages && maxPages * PAGE_SIZE_BYTES <= MAX_MEM
    ensures r.Failure? <==> InitPages(offset, pages) > maxPages
    ensures r.Failure? ==> r.error == OutOfMemory
    ensures r.Success? ==>
      var a := r.value;
      fresh(a) && a.Inv() && a.offset == offset && a.maxPages == maxPages && a.pages == InitPages(offset, pages) &&
      a.layout == [offset + SIZE] && End(a.blocks, offset + SIZE) == a.pages * PAGE_SIZE_BYTES &&
      !a.blocks[offset + SIZE].isAllocated && NonEmptyClasses(a.classes) == 1
    ensures r.Success? && TableClear(mem, offset) ==>
      Persisted(r.value.mem, offset, r.value.classes) &&
      Reinit(r.value.mem, offset) == Success(Restored(r.value.classes, offset))
  {
    var g := InitGrowIfNeed(offset, mem, pages, maxPages);
    if g.Failure? {
      return Failure(g.error);
    }
    var (m, p) := g.value;
    if TableClear(m, offset) {
      ClearAfterMagic(m, offset);
    }
    m := WriteMagic(m, offset);
    r := InitFirstFreeMemBlock(offset, m, p, maxPages);
    if r.Success? && TableClear(mem, offset) {
      ReinitRestores(r.value.mem, offset, r.value.classes);
    }
  }
}
