/**
 * Segregated free lists over a tiled heap, the structure both allocators keep
 * (src/mem/allocator.rs and src/stable_memory_allocator.rs).  A table of class heads
 * starts one doubly linked list of free blocks per size class.  Between calls every free
 * block is on the list of its class and no two free blocks touch.  Inside a call a few
 * free blocks are "floating": off every list while they are split, merged or moved; the
 * set `F` names them.
 *
 * The steps the allocators take are defined here on values, each with a lemma saying
 * how it moves the invariant; the allocator classes perform the same steps word by word
 * and prove that their state equals the step's result.
 */
module SegLists {
  import opened Common
  import opened FreeList

  /**
   * How an allocator tags its lists: the number of classes, the word a head's `prev`
   * holds, the word that ends a list (and marks an empty class), and the class of a size.
   */
  datatype Config = Config(classes: nat, sentinel: int, empty: int, classOf: nat -> nat)

  /** The heap's blocks, the class heads, and the lists and physical order they stand for. */
  datatype Store = Store(blocks: Heap, heads: seq<int>, lists: seq<seq<int>>, layout: seq<int>)

  /**
   * One head and one list per class; the blocks tile `[start, end)`; the end marker is no
   * block offset; the sentinel is an allocated block or lies below the heap.
   */
  ghost predicate Shape(cfg: Config, s: Store, start: int, end: int)
  {
    |s.heads| == cfg.classes && |s.lists| == cfg.classes &&
    Tiled(s.blocks, s.layout, start, end) &&
    (cfg.empty < start || end <= cfg.empty) &&
    ((cfg.sentinel in s.blocks && s.blocks[cfg.sentinel].isAllocated) || cfg.sentinel < start)
  }

  /** Every class list is linked through the blocks' link words and starts at its head. */
  ghost predicate ListsLinked(cfg: Config, s: Store)
    requires |s.heads| == cfg.classes && |s.lists| == cfg.classes
  {
    forall c :: 0 <= c < cfg.classes ==> Linked(s.blocks, s.lists[c], s.heads[c], cfg.sentinel, cfg.empty)
  }

  /** A listed block belongs to the class of its size and is not floating. */
  ghost predicate Classed(cfg: Config, s: Store, F: set<int>)
    requires |s.lists| == cfg.classes
  {
    forall c, x :: 0 <= c < cfg.classes && x in s.lists[c] ==>
      x in s.blocks && cfg.classOf(s.blocks[x].size) == c && x !in F
  }

  /** Every free block that is not floating is on the list of its class. */
  ghost predicate Complete(cfg: Config, s: Store, F: set<int>)
    requires |s.lists| == cfg.classes
  {
    forall x :: x in s.blocks && !s.blocks[x].isAllocated && x !in F ==>
      cfg.classOf(s.blocks[x].size) < cfg.classes && x in s.lists[cfg.classOf(s.blocks[x].size)]
  }

  /** Floating blocks are free blocks. */
  ghost predicate FloatingFree(s: Store, F: set<int>)
  {
    forall x :: x in F ==> x in s.blocks && !s.blocks[x].isAllocated
  }

  /** The block at layout index `j` exists, is free and is not floating. */
  ghost predicate FreeListed(s: Store, F: set<int>, j: int)
  {
    0 <= j < |s.layout| && s.layout[j] in s.blocks && !s.blocks[s.layout[j]].isAllocated && s.layout[j] !in F
  }

  /** The blocks at layout indices `i` and `i + 1` are not both free and settled. */
  ghost predicate Apart(s: Store, F: set<int>, i: int)
  {
    !(FreeListed(s, F, i) && FreeListed(s, F, i + 1))
  }

  /** Of two physical neighbours that are not floating, at least one is allocated. */
  ghost predicate Coalesced(s: Store, F: set<int>)
  {
    forall i :: 0 <= i < |s.layout| - 1 ==> Apart(s, F, i)
  }

  /** The segregated-list invariant with the blocks of `F` floating. */
  ghost predicate Valid(cfg: Config, s: Store, start: int, end: int, F: set<int>)
  {
    Shape(cfg, s, start, end) && ListsLinked(cfg, s) && Classed(cfg, s, F) &&
    Complete(cfg, s, F) && FloatingFree(s, F) && Coalesced(s, F)
  }


  /** A heap with no free block and every class empty satisfies the invariant. */
  lemma ValidNoFree(cfg: Config, s: Store, start: int, end: int)
    requires Shape(cfg, s, start, end)
    requires forall c :: 0 <= c < cfg.classes ==> s.heads[c] == cfg.empty && s.lists[c] == []
    requires forall x :: x in s.blocks ==> s.blocks[x].isAllocated
    ensures Valid(cfg, s, start, end, {})
  {
    forall i | 0 <= i < |s.layout| - 1 ensures Apart(s, {}, i) {
      var x := s.layout[i];
      assert x in s.blocks ==> s.blocks[x].isAllocated;
    }
  }

  // ---- Frame lemmas: what a step that touches only the blocks of `D` keeps. ----

  /** `r` agrees with `s` on every block outside `D` and has no other new block. */
  ghost predicate SameOutside(s: Heap, r: Heap, D: set<int>)
  {
    (forall x :: x in s && x !in D ==> x in r && r[x] == s[x]) &&
    (forall x :: x in r && x !in D ==> x in s)
  }

  /** A listed block is a free block of the heap. */
  lemma ListedFree(cfg: Config, s: Store, c: nat, x: int)
    requires |s.heads| == cfg.classes && |s.lists| == cfg.classes && ListsLinked(cfg, s)
    requires c < cfg.classes && x in s.lists[c]
    ensures x in s.blocks && !s.blocks[x].isAllocated
  {
    var i := IndexOf(s.lists[c], x);
    assert Linked(s.blocks, s.lists[c], s.heads[c], cfg.sentinel, cfg.empty);
  }

  /** Lists survive a step that touches only floating, allocated or new blocks. */
  lemma ListsKept(cfg: Config, s: Store, r: Store, F: set<int>, D: set<int>)
    requires |s.heads| == cfg.classes && |s.lists| == cfg.classes
    requires ListsLinked(cfg, s) && Classed(cfg, s, F)
    requires r.heads == s.heads && r.lists == s.lists && SameOutside(s.blocks, r.blocks, D)
    requires forall x :: x in D && x in s.blocks ==> x in F || s.blocks[x].isAllocated
    ensures ListsLinked(cfg, r)
  {
    forall c | 0 <= c < cfg.classes
      ensures Linked(r.blocks, r.lists[c], r.heads[c], cfg.sentinel, cfg.empty)
    {
      forall x | x in s.lists[c] ensures x in r.blocks && r.blocks[x] == s.blocks[x] {
        ListedFree(cfg, s, c, x);
      }
      assert Linked(s.blocks, s.lists[c], s.heads[c], cfg.sentinel, cfg.empty);
      LinkedFrame(s.blocks, r.blocks, s.lists[c], s.heads[c], cfg.sentinel, cfg.empty);
    }
  }

  /** Class membership survives a step that touches only floating, allocated or new blocks. */
  lemma ClassedKept(cfg: Config, s: Store, r: Store, F: set<int>, F': set<int>, D: set<int>)
    requires |s.heads| == cfg.classes && |s.lists| == cfg.classes
    requires ListsLinked(cfg, s) && Classed(cfg, s, F)
    requires r.lists == s.lists && SameOutside(s.blocks, r.blocks, D)
    requires forall x :: x in D && x in s.blocks ==> x in F || s.blocks[x].isAllocated
    requires F' <= F + D
    ensures Classed(cfg, r, F')
  {
    forall c, x | 0 <= c < cfg.classes && x in r.lists[c]
      ensures x in r.blocks && cfg.classOf(r.blocks[x].size) == c && x !in F'
    {
      ListedFree(cfg, s, c, x);
    }
  }

  /** Completeness survives a step whose touched free blocks all float afterwards. */
  lemma CompleteKept(cfg: Config, s: Store, r: Store, F: set<int>, F': set<int>, D: set<int>)
    requires |s.lists| == cfg.classes && Complete(cfg, s, F)
    requires r.lists == s.lists && SameOutside(s.blocks, r.blocks, D)
    requires forall x :: x in D && x in r.blocks && !r.blocks[x].isAllocated ==> x in F'
    requires F - D <= F'
    ensures Complete(cfg, r, F')
  {
    forall x | x in r.blocks && !r.blocks[x].isAllocated && x !in F'
      ensures cfg.classOf(r.blocks[x].size) < cfg.classes && x in r.lists[cfg.classOf(r.blocks[x].size)]
    {
      assert x !in D && x in s.blocks && x !in F;
    }
  }

  /** Coalescing survives a step that settles no new free block in the same layout. */
  lemma CoalescedMono(s: Store, r: Store, F: set<int>, F': set<int>)
    requires Coalesced(s, F) && r.layout == s.layout
    requires forall j :: FreeListed(r, F', j) ==> FreeListed(s, F, j)
    ensures Coalesced(r, F')
  {
    forall i | 0 <= i < |r.layout| - 1 ensures Apart(r, F', i) {
      assert Apart(s, F, i);
    }
  }

  /**
   * Rewriting the headers of the blocks in `D` keeps the invariant when the new
   * store has the right shape, the floating set moves only within `D` and no
   * free block is left beside a settled one.
   */
  lemma ValidReplace(cfg: Config, s: Store, r: Store, start: int, end: int, end': int, F: set<int>, F': set<int>, D: set<int>)
    requires Valid(cfg, s, start, end, F) && Shape(cfg, r, start, end')
    requires r.heads == s.heads && r.lists == s.lists && SameOutside(s.blocks, r.blocks, D)
    requires forall x :: x in D && x in s.blocks ==> x in F || s.blocks[x].isAllocated
    requires forall x :: x in D && x in r.blocks && !r.blocks[x].isAllocated ==> x in F'
    requires F' <= F + D && F - D <= F'
    requires FloatingFree(r, F') && Coalesced(r, F')
    ensures Valid(cfg, r, start, end', F')
  {
    ListsKept(cfg, s, r, F, D);
    ClassedKept(cfg, s, r, F, F', D);
    CompleteKept(cfg, s, r, F, F', D);
  }

  /**
   * A position that holds no settled free block still holds none after a step that keeps
   * the block there (possibly at a shifted position) with its flag, and keeps it floating if it was.
   */
  lemma KeepNotFreeListed(s: Store, F: set<int>, a: int, r: Store, F': set<int>, a': int)
    requires 0 <= a < |s.layout| && !FreeListed(s, F, a)
    requires 0 <= a' < |r.layout| ==> r.layout[a'] == s.layout[a]
    requires s.layout[a] in r.blocks ==> s.layout[a] in s.blocks && r.blocks[s.layout[a]].isAllocated == s.blocks[s.layout[a]].isAllocated
    requires s.layout[a] in F ==> s.layout[a] in F'
    ensures !FreeListed(r, F', a')
  {
  }

  // ---- Rewriting one header. ----

  /** The store with block `o`'s header replaced. */
  function SetBlock(s: Store, o: int, b: Block): (r: Store)
    ensures r.layout == s.layout && r.lists == s.lists && r.heads == s.heads
    ensures o in r.blocks && r.blocks[o] == b
  {
    s.(blocks := s.blocks[o := b])
  }

  /**
   * Rewriting the header of a floating or allocated block without resizing it: a free
   * result floats (is in `F'`), an allocated one leaves the floating set.
   */
  lemma ValidSetBlock(cfg: Config, s: Store, start: int, end: int, F: set<int>, o: int, b: Block, F': set<int>)
    requires Valid(cfg, s, start, end, F) && o in s.blocks && b.size == s.blocks[o].size
    requires o in F || s.blocks[o].isAllocated
    requires !b.isAllocated ==> o != cfg.sentinel
    requires forall x :: x in F' <==> if x == o then !b.isAllocated else x in F
    ensures Valid(cfg, SetBlock(s, o, b), start, end, F')
  {
    var r := SetBlock(s, o, b);
    assert SameSizes(s.blocks, r.blocks);
    TiledSizes(s.blocks, r.blocks, s.layout, start, end);
    assert SameOutside(s.blocks, r.blocks, {o});
    ListsKept(cfg, s, r, F, {o});
    assert F' <= F + {o} && F - {o} <= F' by {
      forall x | x in F' ensures x in F + {o} {
        assert if x == o then !b.isAllocated else x in F;
      }
      forall x | x in F - {o} ensures x in F' {
        assert x != o;
      }
    }
    ClassedKept(cfg, s, r, F, F', {o});
    CompleteKept(cfg, s, r, F, F', {o});
    CoalescedMono(s, r, F, F');
  }

  // ---- Splicing a block out of its list. ----

  /** The store after splicing `lists[c][k]` out of its list. */
  function EjectStore(cfg: Config, s: Store, c: nat, k: nat): (r: Store)
    requires c < |s.lists| && c < |s.heads| && k < |s.lists[c]|
    ensures r.layout == s.layout && SameSizes(s.blocks, r.blocks)
    ensures forall x :: x in s.blocks ==> r.blocks[x].isAllocated == s.blocks[x].isAllocated
  {
    var l := s.lists[c];
    Store(Unlink(s.blocks, l, k, cfg.sentinel, cfg.empty),
          if k == 0 then s.heads[c := if |l| == 1 then cfg.empty else l[1]] else s.heads,
          s.lists[c := RemoveAt(l, k)], s.layout)
  }

  /** Ejecting leaves every other list, and every block off list `c`, as it was. */
  lemma EjectFrame(cfg: Config, s: Store, c: nat, k: nat)
    requires |s.heads| == cfg.classes && |s.lists| == cfg.classes
    requires ListsLinked(cfg, s) && Classed(cfg, s, {}) && c < cfg.classes && k < |s.lists[c]|
    ensures forall x :: x in s.blocks && x !in s.lists[c] ==> EjectStore(cfg, s, c, k).blocks[x] == s.blocks[x]
    ensures EjectStore(cfg, s, c, k).blocks[s.lists[c][k]] == s.blocks[s.lists[c][k]]
    ensures ListsLinked(cfg, EjectStore(cfg, s, c, k))
  {
    var l := s.lists[c];
    var r := EjectStore(cfg, s, c, k);
    assert Linked(s.blocks, l, s.heads[c], cfg.sentinel, cfg.empty);
    LinkedUnlink(s.blocks, l, k, s.heads[c], cfg.sentinel, cfg.empty);
    forall d | 0 <= d < cfg.classes
      ensures Linked(r.blocks, r.lists[d], r.heads[d], cfg.sentinel, cfg.empty)
    {
      if d != c {
        forall x | x in s.lists[d] ensures x in r.blocks && r.blocks[x] == s.blocks[x] {
          assert x !in l;
        }
        assert Linked(s.blocks, s.lists[d], s.heads[d], cfg.sentinel, cfg.empty);
        LinkedFrame(s.blocks, r.blocks, s.lists[d], s.heads[d], cfg.sentinel, cfg.empty);
      }
    }
  }

  /** Ejecting keeps class membership and completeness, with the ejected block floating. */
  lemma EjectClassed(cfg: Config, s: Store, F: set<int>, c: nat, k: nat)
    requires |s.heads| == cfg.classes && |s.lists| == cfg.classes
    requires Classed(cfg, s, F) && Complete(cfg, s, F) && c < cfg.classes && k < |s.lists[c]|
    requires Distinct(s.lists[c])
    ensures Classed(cfg, EjectStore(cfg, s, c, k), F + {s.lists[c][k]})
    ensures Complete(cfg, EjectStore(cfg, s, c, k), F + {s.lists[c][k]})
  {
    var l := s.lists[c];
    var o := l[k];
    var r := EjectStore(cfg, s, c, k);
    forall d, x | 0 <= d < cfg.classes && x in r.lists[d]
      ensures x in r.blocks && cfg.classOf(r.blocks[x].size) == d && x !in F + {o}
    {
      if d == c {
        InRemoveAt(l, k, x);
      } else {
        assert r.lists[d] == s.lists[d];
        assert cfg.classOf(s.blocks[x].size) == d && cfg.classOf(s.blocks[o].size) == c;
      }
    }
    forall x | x in r.blocks && !r.blocks[x].isAllocated && x !in F + {o}
      ensures cfg.classOf(r.blocks[x].size) < cfg.classes && x in r.lists[cfg.classOf(r.blocks[x].size)]
    {
      if cfg.classOf(s.blocks[x].size) == c {
        InRemoveAt(l, k, x);
      }
    }
  }

  /**
   * Ejecting a listed block makes it floating; it keeps its header, and allocated blocks
   * are untouched.
   */
  lemma ValidEject(cfg: Config, s: Store, start: int, end: int, F: set<int>, c: nat, k: nat)
    requires Valid(cfg, s, start, end, F) && c < cfg.classes && k < |s.lists[c]|
    ensures s.lists[c][k] in s.blocks && !s.blocks[s.lists[c][k]].isAllocated && s.lists[c][k] !in F
    ensures Valid(cfg, EjectStore(cfg, s, c, k), start, end, F + {s.lists[c][k]})
    ensures EjectStore(cfg, s, c, k).blocks[s.lists[c][k]] == s.blocks[s.lists[c][k]]
    ensures Kept(s.blocks, EjectStore(cfg, s, c, k).blocks)
  {
    var l := s.lists[c];
    var o := l[k];
    var r := EjectStore(cfg, s, c, k);
    ListedFree(cfg, s, c, o);
    assert Classed(cfg, s, {});
    EjectFrame(cfg, s, c, k);
    assert Linked(s.blocks, l, s.heads[c], cfg.sentinel, cfg.empty);
    EjectClassed(cfg, s, F, c, k);
    TiledSizes(s.blocks, r.blocks, s.layout, start, end);
    CoalescedMono(s, r, F, F + {o});
    forall x | x in s.blocks && s.blocks[x].isAllocated ensures r.blocks[x] == s.blocks[x] {
      if x in l {
        ListedFree(cfg, s, c, x);
      }
    }
  }

  // ---- Splitting and merging floating blocks. ----

  /** The store after splitting the block at layout index `i` into `front` and `rest`. */
  function SplitStore(s: Store, i: nat, front: Block, rest: Block): (r: Store)
    requires i < |s.layout|
    ensures r.lists == s.lists && r.heads == s.heads
    ensures r.layout == InsertAt(s.layout, i + 1, s.layout[i] + front.size + 2 * OVERHEAD)
  {
    var o := s.layout[i];
    var q := o + front.size + 2 * OVERHEAD;
    s.(blocks := s.blocks[o := front][q := rest], layout := InsertAt(s.layout, i + 1, q))
  }

  /** Splitting a floating block settles no free block. */
  lemma SplitCoalesced(s: Store, F: set<int>, i: nat, front: Block, rest: Block)
    requires Coalesced(s, F) && i < |s.layout| && s.layout[i] in F
    ensures Coalesced(SplitStore(s, i, front, rest), F + {s.layout[i] + front.size + 2 * OVERHEAD})
  {
    var o := s.layout[i];
    var q := o + front.size + 2 * OVERHEAD;
    var r := SplitStore(s, i, front, rest);
    var F' := F + {q};
    InsertAtIndex(s.layout, i + 1, q);
    forall a | 0 <= a < |r.layout| - 1 ensures Apart(r, F', a) {
      if a + 1 < i {
        assert Apart(s, F, a);
        assert r.layout[a] == s.layout[a] && r.layout[a + 1] == s.layout[a + 1];
      } else if a > i + 1 {
        assert Apart(s, F, a - 1);
        assert r.layout[a] == s.layout[a - 1] && r.layout[a + 1] == s.layout[a];
      } else if a + 1 == i {
        assert r.layout[a + 1] == o;
      } else if a == i {
        assert r.layout[a] == o;
      } else {
        assert r.layout[a] == q;
      }
    }
  }

  /** Splitting a free block keeps the shape. */
  lemma SplitShape(cfg: Config, s: Store, start: int, end: int, i: nat, front: Block, rest: Block)
    requires Shape(cfg, s, start, end) && i < |s.layout| && s.layout[i] in s.blocks
    requires !s.blocks[s.layout[i]].isAllocated
    requires front.size + rest.size + 2 * OVERHEAD == s.blocks[s.layout[i]].size
    ensures s.layout[i] + front.size + 2 * OVERHEAD !in s.blocks
    ensures Shape(cfg, SplitStore(s, i, front, rest), start, end)
  {
    var q := s.layout[i] + front.size + 2 * OVERHEAD;
    TilesInterior(s.blocks, s.layout, start, end, i, q);
    var r := SplitStore(s, i, front, rest);
    assert (cfg.sentinel in r.blocks && r.blocks[cfg.sentinel].isAllocated) || cfg.sentinel < start;
    SplitTiled(s, start, end, i, front, rest);
  }

  /** Splitting a block keeps the blocks tiling the heap. */
  lemma SplitTiled(s: Store, start: int, end: int, i: nat, front: Block, rest: Block)
    requires Tiled(s.blocks, s.layout, start, end) && i < |s.layout| && s.layout[i] in s.blocks
    requires front.size + rest.size + 2 * OVERHEAD == s.blocks[s.layout[i]].size
    ensures Tiled(SplitStore(s, i, front, rest).blocks, SplitStore(s, i, front, rest).layout, start, end)
  {
    TiledSplit(s.blocks, s.layout, start, end, i, front, rest);
  }

  /** A split rewrites only the two headers, the block's own and the new one's. */
  lemma SplitOutside(s: Store, i: nat, front: Block, rest: Block)
    requires i < |s.layout|
    ensures SameOutside(s.blocks, SplitStore(s, i, front, rest).blocks, {s.layout[i], s.layout[i] + front.size + 2 * OVERHEAD})
  {
  }

  /** Splitting a floating block gives two floating blocks; the rest's offset is new. */
  lemma ValidSplit(cfg: Config, s: Store, start: int, end: int, F: set<int>, i: nat, front: Block, rest: Block)
    requires Valid(cfg, s, start, end, F) && i < |s.layout| && s.layout[i] in F
    requires !front.isAllocated && !rest.isAllocated
    requires front.size + rest.size + 2 * OVERHEAD == s.blocks[s.layout[i]].size
    ensures s.layout[i] + front.size + 2 * OVERHEAD !in s.blocks
    ensures Valid(cfg, SplitStore(s, i, front, rest), start, end, F + {s.layout[i] + front.size + 2 * OVERHEAD})
  {
    var o := s.layout[i];
    var q := o + front.size + 2 * OVERHEAD;
    var r := SplitStore(s, i, front, rest);
    var F' := F + {q};
    TilesInterior(s.blocks, s.layout, start, end, i, q);
    SplitOutside(s, i, front, rest);
    assert ListsLinked(cfg, r) by { ListsKept(cfg, s, r, F, {o, q}); }
    assert Classed(cfg, r, F') by { ClassedKept(cfg, s, r, F, F', {o, q}); }
    assert Complete(cfg, r, F') by { CompleteKept(cfg, s, r, F, F', {o, q}); }
    assert FloatingFree(r, F');
    assert Coalesced(r, F') by { SplitCoalesced(s, F, i, front, rest); }
    SplitShape(cfg, s, start, end, i, front, rest);
  }

  /** The store after merging the blocks at layout indices `i` and `i + 1` into `b` at the first offset. */
  function MergeStore(s: Store, i: nat, b: Block): (r: Store)
    requires i + 1 < |s.layout|
    ensures r.lists == s.lists && r.heads == s.heads && r.layout == RemoveAt(s.layout, i + 1)
  {
    s.(blocks := (s.blocks - {s.layout[i + 1]})[s.layout[i] := b], layout := RemoveAt(s.layout, i + 1))
  }

  /** Merging two floating neighbours settles no free block. */
  lemma MergeCoalesced(s: Store, F: set<int>, i: nat, b: Block)
    requires Coalesced(s, F) && i + 1 < |s.layout| && s.layout[i] in F && s.layout[i] != s.layout[i + 1]
    ensures Coalesced(MergeStore(s, i, b), F - {s.layout[i + 1]})
  {
    var l := s.layout[i];
    var n := s.layout[i + 1];
    var r := MergeStore(s, i, b);
    var F' := F - {n};
    RemoveAtIndex(s.layout, i + 1);
    forall a | 0 <= a < |r.layout| - 1 ensures Apart(r, F', a) {
      if a + 1 < i {
        assert Apart(s, F, a);
        assert r.layout[a] == s.layout[a] && r.layout[a + 1] == s.layout[a + 1];
      } else if a > i {
        assert Apart(s, F, a + 1);
        assert r.layout[a] == s.layout[a + 1] && r.layout[a + 1] == s.layout[a + 2];
      } else if a + 1 == i {
        assert r.layout[a + 1] == l;
      } else {
        assert r.layout[a] == l;
      }
    }
  }

  /** Merging two floating neighbours gives one floating block. */
  lemma ValidMerge(cfg: Config, s: Store, start: int, end: int, F: set<int>, i: nat, b: Block)
    requires Valid(cfg, s, start, end, F) && i + 1 < |s.layout|
    requires s.layout[i] in F && s.layout[i + 1] in F && !b.isAllocated
    requires b.size == s.blocks[s.layout[i]].size + s.blocks[s.layout[i + 1]].size + 2 * OVERHEAD
    ensures Valid(cfg, MergeStore(s, i, b), start, end, F - {s.layout[i + 1]})
  {
    var l := s.layout[i];
    var n := s.layout[i + 1];
    var r := MergeStore(s, i, b);
    var F' := F - {n};
    TiledDistinct(s.blocks, s.layout, start, end);
    assert Shape(cfg, r, start, end) by {
      TiledMerge(s.blocks, s.layout, start, end, i, b);
    }
    MergeCoalesced(s, F, i, b);
    ValidReplace(cfg, s, r, start, end, end, F, F', {l, n});
  }

  // ---- Growing the heap. ----

  /** The store after laying block `b` over fresh memory at the heap end `end`. */
  function GrowStore(s: Store, end: int, b: Block): (r: Store)
    ensures r.lists == s.lists && r.heads == s.heads && r.layout == s.layout + [end]
    ensures end in r.blocks && r.blocks[end] == b
  {
    s.(blocks := s.blocks[end := b], layout := s.layout + [end])
  }

  /** A free block over grown memory extends the heap and floats. */
  lemma ValidGrow(cfg: Config, s: Store, start: int, end: int, F: set<int>, b: Block)
    requires Valid(cfg, s, start, end, F) && !b.isAllocated
    requires cfg.empty < start || end + b.size + 2 * OVERHEAD <= cfg.empty
    ensures end !in s.blocks
    ensures Valid(cfg, GrowStore(s, end, b), start, end + b.size + 2 * OVERHEAD, F + {end})
  {
    var r := GrowStore(s, end, b);
    var F' := F + {end};
    assert Shape(cfg, r, start, end + b.size + 2 * OVERHEAD) && end !in s.blocks by {
      TiledAppend(s.blocks, s.layout, start, end, b);
    }
    forall a | 0 <= a < |r.layout| - 1 ensures Apart(r, F', a) {
      assert Apart(s, F, a);
      assert r.layout[a] == s.layout[a] && r.layout[a + 1] == (s.layout + [end])[a + 1];
      if a + 1 < |s.layout| {
        assert r.layout[a + 1] == s.layout[a + 1];
      }
    }
    ValidReplace(cfg, s, r, start, end, end + b.size + 2 * OVERHEAD, F, F', {end});
  }

  // ---- Splicing a floating block into a list. ----

  /** The store after splicing block `x` into list `c` at position `k`. */
  function SpliceStore(cfg: Config, s: Store, c: nat, k: nat, x: int): (r: Store)
    requires c < |s.lists| && c < |s.heads| && k <= |s.lists[c]| && x in s.blocks
    ensures r.layout == s.layout && SameSizes(s.blocks, r.blocks)
    ensures forall y :: y in s.blocks ==> r.blocks[y].isAllocated == s.blocks[y].isAllocated
    ensures r.lists == s.lists[c := InsertAt(s.lists[c], k, x)]
  {
    Store(Splice(s.blocks, s.lists[c], k, x, cfg.sentinel, cfg.empty),
          if k == 0 then s.heads[c := x] else s.heads,
          s.lists[c := InsertAt(s.lists[c], k, x)], s.layout)
  }

  /** Splicing a block that is on no list leaves the other lists as they were. */
  lemma SpliceFrame(cfg: Config, s: Store, c: nat, k: nat, x: int)
    requires |s.heads| == cfg.classes && |s.lists| == cfg.classes
    requires ListsLinked(cfg, s) && Classed(cfg, s, {x}) && c < cfg.classes && k <= |s.lists[c]|
    requires x in s.blocks && !s.blocks[x].isAllocated
    ensures forall y :: y in s.blocks && y != x && y !in s.lists[c] ==> SpliceStore(cfg, s, c, k, x).blocks[y] == s.blocks[y]
    ensures ListsLinked(cfg, SpliceStore(cfg, s, c, k, x))
  {
    var l := s.lists[c];
    var r := SpliceStore(cfg, s, c, k, x);
    assert Linked(s.blocks, l, s.heads[c], cfg.sentinel, cfg.empty);
    LinkedSplice(s.blocks, l, s.heads[c], k, x, cfg.sentinel, cfg.empty);
    forall d | 0 <= d < cfg.classes
      ensures Linked(r.blocks, r.lists[d], r.heads[d], cfg.sentinel, cfg.empty)
    {
      if d != c {
        forall y | y in s.lists[d] ensures y in r.blocks && r.blocks[y] == s.blocks[y] {
          assert y !in l;
        }
        assert Linked(s.blocks, s.lists[d], s.heads[d], cfg.sentinel, cfg.empty);
        LinkedFrame(s.blocks, r.blocks, s.lists[d], s.heads[d], cfg.sentinel, cfg.empty);
      }
    }
  }

  /** Splicing a floating block into the list of its class settles it. */
  lemma SpliceClassed(cfg: Config, s: Store, F: set<int>, c: nat, k: nat, x: int)
    requires |s.heads| == cfg.classes && |s.lists| == cfg.classes
    requires Classed(cfg, s, F) && Complete(cfg, s, F) && c < cfg.classes && k <= |s.lists[c]|
    requires x in s.blocks && x in F && cfg.classOf(s.blocks[x].size) == c
    ensures Classed(cfg, SpliceStore(cfg, s, c, k, x), F - {x})
    ensures Complete(cfg, SpliceStore(cfg, s, c, k, x), F - {x})
  {
    var l := s.lists[c];
    var r := SpliceStore(cfg, s, c, k, x);
    forall d, y | 0 <= d < cfg.classes && y in r.lists[d]
      ensures y in r.blocks && cfg.classOf(r.blocks[y].size) == d && y !in F - {x}
    {
      if d == c {
        InInsertAt(l, k, x, y);
      }
    }
    forall y | y in r.blocks && !r.blocks[y].isAllocated && y !in F - {x}
      ensures cfg.classOf(r.blocks[y].size) < cfg.classes && y in r.lists[cfg.classOf(r.blocks[y].size)]
    {
      if cfg.classOf(s.blocks[y].size) == c {
        InInsertAt(l, k, x, y);
      }
    }
  }

  /** Settling the block at layout index `i` keeps coalescing when no neighbour is a settled free block. */
  lemma SpliceCoalesced(s: Store, r: Store, F: set<int>, i: nat)
    requires Coalesced(s, F) && i < |s.layout| && s.layout[i] in F && r.layout == s.layout
    requires forall j, j' :: 0 <= j < |s.layout| && 0 <= j' < |s.layout| && s.layout[j] == s.layout[j'] ==> j == j'
    requires forall y :: y in s.blocks ==> y in r.blocks && r.blocks[y].isAllocated == s.blocks[y].isAllocated
    requires forall y :: y in r.blocks ==> y in s.blocks
    requires !FreeListed(s, F, i - 1) && !FreeListed(s, F, i + 1)
    ensures Coalesced(r, F - {s.layout[i]})
  {
    var F' := F - {s.layout[i]};
    forall a | 0 <= a < |r.layout| - 1 ensures Apart(r, F', a) {
      if a != i && a + 1 != i {
        assert Apart(s, F, a);
      } else if a == i {
        assert !FreeListed(s, F, a + 1);
      } else {
        assert !FreeListed(s, F, a);
      }
    }
  }

  /** Settling the floating block at layout index `i`, with links rewritten but sizes, flags and order kept, gives the invariant back. */
  lemma ValidSettle(cfg: Config, s: Store, r: Store, start: int, end: int, F: set<int>, i: nat)
    requires Valid(cfg, s, start, end, F) && i < |s.layout| && s.layout[i] in F
    requires r.layout == s.layout && Mirrors(s.blocks, r.blocks)
    requires |r.heads| == cfg.classes && |r.lists| == cfg.classes
    requires ListsLinked(cfg, r) && Classed(cfg, r, F - {s.layout[i]}) && Complete(cfg, r, F - {s.layout[i]})
    requires !FreeListed(s, F, i - 1) && !FreeListed(s, F, i + 1)
    ensures Valid(cfg, r, start, end, F - {s.layout[i]})
  {
    TiledSizes(s.blocks, r.blocks, s.layout, start, end);
    TiledDistinct(s.blocks, s.layout, start, end);
    SpliceCoalesced(s, r, F, i);
  }

  /**
   * Splicing a floating block into the list of its class settles it, provided neither
   * physical neighbour is a settled free block; allocated blocks are untouched.
   */
  lemma ValidSplice(cfg: Config, s: Store, start: int, end: int, F: set<int>, c: nat, k: nat, i: nat)
    requires Valid(cfg, s, start, end, F) && i < |s.layout| && s.layout[i] in F
    requires c < cfg.classes && cfg.classOf(s.blocks[s.layout[i]].size) == c && k <= |s.lists[c]|
    requires !FreeListed(s, F, i - 1) && !FreeListed(s, F, i + 1)
    ensures Valid(cfg, SpliceStore(cfg, s, c, k, s.layout[i]), start, end, F - {s.layout[i]})
    ensures Kept(s.blocks, SpliceStore(cfg, s, c, k, s.layout[i]).blocks)
  {
    var x := s.layout[i];
    var r := SpliceStore(cfg, s, c, k, x);
    assert Classed(cfg, s, {x});
    SpliceFrame(cfg, s, c, k, x);
    SpliceClassed(cfg, s, F, c, k, x);
    ValidSettle(cfg, s, r, start, end, F, i);
    forall y | y in s.blocks && s.blocks[y].isAllocated ensures r.blocks[y] == s.blocks[y] {
      if y in s.lists[c] {
        ListedFree(cfg, s, c, y);
      }
    }
  }
}
