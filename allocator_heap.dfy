// The heap of the segregated-fit allocator of src/mem/allocator.rs, on values: its
// constants, the size classes, the search over the free lists, the free-size counter as
// the source keeps it, the heap facts the allocator maintains, and how each heap step
// (eject, take, free, split, merge, grow, push) keeps them.

module AllocatorHeap {
  import opened Common
  import opened FreeList
  import opened SegLists
  import opened Accounting

  const PAGE_SIZE_BYTES: nat := 65536
  const MEM_BOX_MIN_SIZE: nat := 16
  const SEG_CLASS_PTRS_COUNT: nat := 60
  const MAGIC: seq<byte> := [0x53, 0x4D, 0x41, 0x4D]

  /** Payload size of the allocator's own block: magic, the class heads, and the two counters. */
  const SIZE: nat := 4 + SEG_CLASS_PTRS_COUNT * 8 + 2 * 8

  // ---- Powers of two and the size classes. ----

  function Pow2(k: nat): (r: nat)
    ensures r >= 1
  {
    if k == 0 then 1 else 2 * Pow2(k - 1)
  }

  /** The heap never passes 2^63 bytes. */
  const MAX_HEAP: nat := Pow2(63)

  /** The empty-list marker, the largest 64-bit word, 2^64 - 1. */
  const EMPTY_PTR: int := 2 * MAX_HEAP - 1

  lemma {:induction false} Pow2Mono(a: nat, b: nat)
    requires a <= b
    ensures Pow2(a) <= Pow2(b)
    decreases b
  {
    if a < b {
      Pow2Mono(a, b - 1);
    }
  }

  /** The largest `r` with 2^r <= n, and 0 for n <= 1; `fast_log2` is not part of this model, and 0 is taken for n = 0. */
  function FastLog2(n: nat): (r: nat)
    ensures n >= 1 ==> Pow2(r) <= n < Pow2(r + 1)
    ensures n <= 1 ==> r == 0
  {
    if n <= 1 then 0 else 1 + FastLog2(n / 2)
  }

  /** The class of a payload size: 0 up to 16 bytes, else `r` with 2^(r+3) < size <= 2^(r+4). */
  function SegClassId(size: nat): (r: nat)
  {
    var log := FastLog2(size);
    var log := if Pow2(log) < size then log + 1 else log;
    if log > 3 then log - 4 else 0
  }

  lemma Pow2Four()
    ensures Pow2(4) == 16
  {
    assert Pow2(1) == 2 && Pow2(2) == 4 && Pow2(3) == 8;
  }

  /** Sizes up to the minimal block size fall in class 0. */
  lemma SegClassIdSmall(size: nat)
    requires size <= MEM_BOX_MIN_SIZE
    ensures SegClassId(size) == 0
  {
    var f := FastLog2(size);
    Pow2Four();
    if size >= 1 && f >= 4 {
      Pow2Mono(4, f);
    }
  }

  /** Above it, the class id is the rounded-up base-two logarithm less four. */
  lemma SegClassIdLarge(size: nat)
    requires size > MEM_BOX_MIN_SIZE
    ensures Pow2(SegClassId(size) + 3) < size <= Pow2(SegClassId(size) + 4)
  {
    var f := FastLog2(size);
    Pow2Four();
    if Pow2(f) < size {
      assert SegClassId(size) == f - 3;
      assert Pow2(f + 1) == 2 * Pow2(f);
    } else {
      assert SegClassId(size) == f - 4;
      assert Pow2(f) == 2 * Pow2(f - 1);
    }
  }

  lemma SegClassIdBounds(size: nat)
    ensures size <= MEM_BOX_MIN_SIZE ==> SegClassId(size) == 0
    ensures size > MEM_BOX_MIN_SIZE ==> Pow2(SegClassId(size) + 3) < size <= Pow2(SegClassId(size) + 4)
  {
    if size <= MEM_BOX_MIN_SIZE {
      SegClassIdSmall(size);
    } else {
      SegClassIdLarge(size);
    }
  }

  /** Larger sizes never fall in smaller classes. */
  lemma SegClassIdMono(a: nat, b: nat)
    requires a <= b
    ensures SegClassId(a) <= SegClassId(b)
  {
    SegClassIdBounds(a);
    SegClassIdBounds(b);
    if SegClassId(a) > SegClassId(b) && b > MEM_BOX_MIN_SIZE {
      Pow2Mono(SegClassId(b) + 4, SegClassId(a) + 3);
    }
  }

  /** Every size the heap can hold has one of the sixty classes. */
  lemma SegClassIdBelow(size: nat)
    requires size <= MAX_HEAP
    ensures SegClassId(size) < SEG_CLASS_PTRS_COUNT
  {
    SegClassIdBounds(size);
    if SegClassId(size) >= SEG_CLASS_PTRS_COUNT {
      Pow2Mono(63, SegClassId(size) + 3);
    }
  }

  /** A block in a class above the ideal class of `size` is larger than `size`. */
  lemma LargerClassFits(x: nat, size: nat)
    requires SegClassId(x) > SegClassId(size)
    ensures x > size
  {
    SegClassIdBounds(x);
    SegClassIdBounds(size);
    Pow2Mono(SegClassId(size) + 4, SegClassId(x) + 3);
    if size <= MEM_BOX_MIN_SIZE {
      Pow2Mono(4, SegClassId(x) + 3);
      Pow2Four();
    }
  }

  /** The class of a size by repeated halving, rounding up: an independent definition of the classes. */
  function ClassOf(size: nat): nat
  {
    if size <= MEM_BOX_MIN_SIZE then 0 else 1 + ClassOf((size + 1) / 2)
  }

  /** The bounds of `SegClassIdLarge` pin the class down. */
  lemma SegClassIdUnique(size: nat, c: nat)
    requires size > MEM_BOX_MIN_SIZE && Pow2(c + 3) < size <= Pow2(c + 4)
    ensures SegClassId(size) == c
  {
    var d := SegClassId(size);
    SegClassIdLarge(size);
    if d < c {
      Pow2Mono(d + 4, c + 3);
    } else if d > c {
      Pow2Mono(c + 4, d + 3);
    }
  }

  /** `get_seg_class_id` computes the class of repeated halving. */
  lemma {:induction false} SegClassIdIsClassOf(size: nat)
    ensures SegClassId(size) == ClassOf(size)
    decreases size
  {
    if size <= MEM_BOX_MIN_SIZE {
      SegClassIdSmall(size);
    } else {
      var h := (size + 1) / 2;
      if h <= MEM_BOX_MIN_SIZE {
        SegClassIdSmall(h);
        Pow2Four();
        assert Pow2(5) == 32;
        SegClassIdUnique(size, 1);
      } else {
        SegClassIdIsClassOf(h);
        var d := SegClassId(h);
        SegClassIdLarge(h);
        assert Pow2(d + 4) == 2 * Pow2(d + 3) && Pow2(d + 5) == 2 * Pow2(d + 4);
        SegClassIdUnique(size, d + 1);
      }
    }
  }

  /** The free lists of this allocator: class heads are linked from the allocator's own offset. */
  function Cfg(ptr: int): Config
  {
    Config(SEG_CLASS_PTRS_COUNT, ptr, EMPTY_PTR, ClassOf)
  }

  // ---- Growing and splitting. ----

  /**
   * Pages grown for a request, as written: `size / PAGE_SIZE_BYTES + 1`. The block laid over
   * them, after its two headers, falls short of the request exactly when the request ends
   * within the last 16 bytes of a page.
   */
  function GrowPagesAsWritten(size: nat): (r: nat)
    ensures r * PAGE_SIZE_BYTES - 2 * OVERHEAD < size <==> size % PAGE_SIZE_BYTES > PAGE_SIZE_BYTES - 2 * OVERHEAD
  {
    size / PAGE_SIZE_BYTES + 1
  }

  /** As written, growing for 65530 bytes gives a single page whose block holds only 65520. */
  lemma GrowPagesAsWrittenTooSmall()
    ensures GrowPagesAsWritten(65530) * PAGE_SIZE_BYTES - 2 * OVERHEAD == 65520 < 65530
  {
  }

  /** Pages grown for a request: the fewest whose block, after its two headers, holds `size` bytes. */
  function GrowPages(size: nat): (r: nat)
    ensures r >= 1
    ensures r * PAGE_SIZE_BYTES >= size + 2 * OVERHEAD
    ensures (r - 1) * PAGE_SIZE_BYTES < size + 2 * OVERHEAD
  {
    (size + 2 * OVERHEAD + PAGE_SIZE_BYTES - 1) / PAGE_SIZE_BYTES
  }

  /** The payload of the free block laid over the pages grown for `size`. */
  function GrownBlock(size: nat): (r: nat)
    ensures r >= size
  {
    GrowPages(size) * PAGE_SIZE_BYTES - 2 * OVERHEAD
  }

  /** `split` (code not part of this model) cuts a block when the rest can hold a minimal block. */
  predicate CanSplit(blockSize: nat, size: nat)
  {
    blockSize >= size + 2 * OVERHEAD + MEM_BOX_MIN_SIZE
  }

  // ---- The free-size counter. ----

  /** What moves, or should move, the free-size counter of allocator.rs. */
  datatype CounterStep =
    | ResetTo(block: nat)  // reset: the one free block's size (:143)
    | Grown(block: nat)    // stage three of pop: the new block's size is added (:252-253)
    | Taken(block: nat)    // allocate: the returned block's size is subtracted (:85-86)
    | Returned(block: nat) // deallocate: the block's size is added (:99-100)
    | Cut                  // a split of a free block (:223, :255): two headers more
    | Joined               // a merge of two free blocks (:340, :356): two headers fewer

  /** One step of the counter, as written: splits and merges never touch it. */
  function CounterStepAsWritten(counter: int, step: CounterStep): (r: int)
  {
    match step
    case ResetTo(b) => b
    case Grown(b) => counter + b
    case Taken(b) => counter - b
    case Returned(b) => counter + b
    case Cut => counter
    case Joined => counter
  }

  /**
   * One step of the counter of free payload bytes: a split turns 16 free payload bytes
   * into the headers of the new block, and a merge turns the two inner headers back into
   * payload.
   */
  function ExactStep(counter: int, step: CounterStep): (r: int)
  {
    match step
    case Cut => counter - 2 * OVERHEAD
    case Joined => counter + 2 * OVERHEAD
    case _ => CounterStepAsWritten(counter, step)
  }

  /** The counter after the steps, as written, from `counter`. */
  function FreeCounterAsWritten(counter: int, steps: seq<CounterStep>): int
    decreases |steps|
  {
    if steps == [] then counter else FreeCounterAsWritten(CounterStepAsWritten(counter, steps[0]), steps[1..])
  }

  /** The counter of free payload bytes after the steps, from `counter`. */
  function FreeCounter(counter: int, steps: seq<CounterStep>): int
    decreases |steps|
  {
    if steps == [] then counter else FreeCounter(ExactStep(counter, steps[0]), steps[1..])
  }

  /** The number of splits less the number of merges among the steps. */
  function CutsLessJoins(steps: seq<CounterStep>): int
    decreases |steps|
  {
    if steps == [] then 0
    else (match steps[0] case Cut => 1 case Joined => -1 case _ => 0) + CutsLessJoins(steps[1..])
  }

  /**
   * After any steps with no reset, the counter as written is off from the free payload
   * bytes by 16 for every split not made up for by a merge.
   */
  lemma FreeCounterDrift(counter: int, steps: seq<CounterStep>)
    requires forall i :: 0 <= i < |steps| ==> !steps[i].ResetTo?
    ensures FreeCounterAsWritten(counter, steps) == FreeCounter(counter, steps) + 2 * OVERHEAD * CutsLessJoins(steps)
  {
    FreeCounterGap(counter, counter, steps);
  }

  /** Run from two starting values `a` and `e`, the two counters keep their gap, widened by the drift. */
  lemma {:induction false} FreeCounterGap(a: int, e: int, steps: seq<CounterStep>)
    requires forall i :: 0 <= i < |steps| ==> !steps[i].ResetTo?
    ensures FreeCounterAsWritten(a, steps) - FreeCounter(e, steps) == a - e + 2 * OVERHEAD * CutsLessJoins(steps)
    decreases |steps|
  {
    if steps != [] {
      assert !steps[0].ResetTo?;
      forall i | 0 <= i < |steps[1..]| ensures !steps[1..][i].ResetTo? {
        assert steps[1..][i] == steps[i + 1];
      }
      FreeCounterGap(CounterStepAsWritten(a, steps[0]), ExactStep(e, steps[0]), steps[1..]);
    }
  }

  /**
   * Initialised at offset 0 in one page (free block 65004), allocate(100) takes that block
   * from a larger class and splits it: the rest holds 64888 bytes, but the counter as
   * written says 64904.
   */
  lemma FreeCounterSplitAsWritten()
    ensures CanSplit(65004, 100) && 65004 - 100 - 2 * OVERHEAD == 64888
    ensures FreeCounterAsWritten(0, [ResetTo(65004), Cut, Taken(100)]) == 64904
    ensures FreeCounter(0, [ResetTo(65004), Cut, Taken(100)]) == 64888
  {
    var s := [ResetTo(65004), Cut, Taken(100)];
    assert s[1..] == [Cut, Taken(100)];
    assert s[1..][1..] == [Taken(100)];
  }

  /**
   * Initialised at offset 0 in one page (free block 65004), then allocate(65005) grows a
   * page (block 65520, split: front 65005, rest 499), deallocate merges everything into one
   * free block of 130540 bytes, and allocate(130540) takes it whole: no free byte is left,
   * yet the counter as written stands at -16, below zero for its unsigned word, while the
   * counter of free payload bytes is at 0.
   */
  lemma FreeCounterUnderflowAsWritten()
    ensures 65536 - (SIZE + 2 * OVERHEAD) - 2 * OVERHEAD == 65004
    ensures 65520 - 65005 - 2 * OVERHEAD == 499 && CanSplit(65520, 65005)
    ensures 65004 + 65005 + 2 * OVERHEAD + 499 + 2 * OVERHEAD == 130540
    ensures FreeCounterAsWritten(0, [ResetTo(65004), Grown(65520), Cut, Taken(65005), Returned(65005), Joined, Joined, Taken(130540)]) == -16
    ensures FreeCounter(0, [ResetTo(65004), Grown(65520), Cut, Taken(65005), Returned(65005), Joined, Joined, Taken(130540)]) == 0
  {
    var steps := [ResetTo(65004), Grown(65520), Cut, Taken(65005), Returned(65005), Joined, Joined, Taken(130540)];
    var s := steps;
    assert s[1..] == [Grown(65520), Cut, Taken(65005), Returned(65005), Joined, Joined, Taken(130540)];
    s := s[1..];
    assert s[1..] == [Cut, Taken(65005), Returned(65005), Joined, Joined, Taken(130540)];
    s := s[1..];
    assert s[1..] == [Taken(65005), Returned(65005), Joined, Joined, Taken(130540)];
    s := s[1..];
    assert s[1..] == [Returned(65005), Joined, Joined, Taken(130540)];
    s := s[1..];
    assert s[1..] == [Joined, Joined, Taken(130540)];
    s := s[1..];
    assert s[1..] == [Joined, Taken(130540)];
    s := s[1..];
    assert s[1..] == [Taken(130540)];
  }

  // ---- Searching the free lists. ----

  /** The first position at or after `from` whose block holds `size` bytes. */
  ghost function FirstFit(h: Heap, l: seq<int>, size: nat, from: nat): (r: Option<nat>)
    ensures r.Some? ==> from <= r.value < |l| && l[r.value] in h && h[l[r.value]].size >= size
    ensures r.Some? ==> forall j :: from <= j < r.value && l[j] in h ==> h[l[j]].size < size
    ensures r.None? ==> forall j :: from <= j < |l| && l[j] in h ==> h[l[j]].size < size
    decreases |l| - from
  {
    if from >= |l| then None
    else if l[from] in h && h[l[from]].size >= size then Some(from)
    else FirstFit(h, l, size, from + 1)
  }

  /** The first class at or after `d` whose head is not the empty marker. */
  function NextNonEmpty(heads: seq<int>, d: nat): (r: Option<nat>)
    ensures r.Some? ==> d <= r.value < |heads| && heads[r.value] != EMPTY_PTR
    ensures r.Some? ==> forall j :: d <= j < r.value ==> heads[j] == EMPTY_PTR
    ensures r.None? ==> forall j :: d <= j < |heads| ==> heads[j] == EMPTY_PTR
    decreases |heads| - d
  {
    if d >= |heads| then None
    else if heads[d] != EMPTY_PTR then Some(d)
    else NextNonEmpty(heads, d + 1)
  }

  /**
   * The block `pop_allocated_membox` hands out for `size` from store `s` with `pages0` of
   * `maxPages` pages, and its size in the new heap `h`: the first fit of the ideal class,
   * unsplit; else the head of the next non-empty larger class, split when it can be; else a
   * block over freshly grown pages, if the limit allows.
   */
  ghost predicate Chosen(s: Store, pages0: nat, maxPages: nat, size: nat, r: Option<int>, h: Heap)
    requires |s.lists| == SEG_CLASS_PTRS_COUNT && |s.heads| == SEG_CLASS_PTRS_COUNT && size <= MAX_HEAP
  {
    SegClassIdBelow(size);
    var c := SegClassId(size);
    match FirstFit(s.blocks, s.lists[c], size, 0)
    case Some(k) =>
      r == Some(s.lists[c][k]) && r.value in h && h[r.value].size == s.blocks[r.value].size
    case None =>
      match NextNonEmpty(s.heads, c + 1)
      case Some(d) =>
        r == Some(s.heads[d]) && r.value in s.blocks && r.value in h &&
        h[r.value].size == (if CanSplit(s.blocks[r.value].size, size) then size else s.blocks[r.value].size)
      case None =>
        (r.Some? <==> pages0 + GrowPages(size) <= maxPages) &&
        (r.Some? ==> r.value == pages0 * PAGE_SIZE_BYTES && r.value in h &&
                     h[r.value].size == (if CanSplit(GrownBlock(size), size) then size else GrownBlock(size)))
  }

  /** The first fit in the ideal class is the block `Chosen` names. */
  lemma ChosenFit(s: Store, pages0: nat, maxPages: nat, size: nat, r: Option<int>, h: Heap)
    requires |s.lists| == SEG_CLASS_PTRS_COUNT && |s.heads| == SEG_CLASS_PTRS_COUNT && size <= MAX_HEAP
    requires SegClassId(size) < SEG_CLASS_PTRS_COUNT
    requires FirstFit(s.blocks, s.lists[SegClassId(size)], size, 0).Some?
    requires r == Some(s.lists[SegClassId(size)][FirstFit(s.blocks, s.lists[SegClassId(size)], size, 0).value])
    requires r.value in h && h[r.value].size == s.blocks[r.value].size
    ensures Chosen(s, pages0, maxPages, size, r, h)
  {
  }

  /** With no fit in the ideal class, the head of the next non-empty class is the block `Chosen` names. */
  lemma ChosenLarger(s: Store, pages0: nat, maxPages: nat, size: nat, r: Option<int>, h: Heap)
    requires |s.lists| == SEG_CLASS_PTRS_COUNT && |s.heads| == SEG_CLASS_PTRS_COUNT && size <= MAX_HEAP
    requires SegClassId(size) < SEG_CLASS_PTRS_COUNT
    requires FirstFit(s.blocks, s.lists[SegClassId(size)], size, 0).None?
    requires NextNonEmpty(s.heads, SegClassId(size) + 1).Some?
    requires r == Some(s.heads[NextNonEmpty(s.heads, SegClassId(size) + 1).value])
    requires r.value in s.blocks && r.value in h
    requires h[r.value].size == (if CanSplit(s.blocks[r.value].size, size) then size else s.blocks[r.value].size)
    ensures Chosen(s, pages0, maxPages, size, r, h)
  {
  }

  /** With every class too small, the block over grown pages is the one `Chosen` names. */
  lemma ChosenGrown(s: Store, pages0: nat, maxPages: nat, size: nat, r: Option<int>, h: Heap)
    requires |s.lists| == SEG_CLASS_PTRS_COUNT && |s.heads| == SEG_CLASS_PTRS_COUNT && size <= MAX_HEAP
    requires SegClassId(size) < SEG_CLASS_PTRS_COUNT
    requires FirstFit(s.blocks, s.lists[SegClassId(size)], size, 0).None?
    requires NextNonEmpty(s.heads, SegClassId(size) + 1).None?
    requires r.Some? <==> pages0 + GrowPages(size) <= maxPages
    requires r.Some? ==> r.value == pages0 * PAGE_SIZE_BYTES && r.value in h &&
                         h[r.value].size == (if CanSplit(GrownBlock(size), size) then size else GrownBlock(size))
    ensures Chosen(s, pages0, maxPages, size, r, h)
  {
  }

  // ---- Facts about heaps. ----

  /** The offsets of allocated blocks. */
  ghost function AllocatedSet(h: Heap): set<int>
  {
    set x | x in h && h[x].isAllocated
  }

  /** `n` zero bytes. */
  function Zeros(n: nat): (r: seq<byte>)
    ensures |r| == n && forall i :: 0 <= i < n ==> r[i] == 0
  {
    seq(n, _ => 0)
  }

  /**
   * The allocator's heap invariant on values: the segregated lists are valid over
   * `[ptr, end)` with the blocks of `F` floating, the allocator's own block comes first,
   * and the counters are off the free and allocated payload bytes by `df` and `da`.
   */
  ghost predicate Good(s: Store, ptr: nat, end: nat, F: set<int>, freeSize: int, allocatedSize: int, df: int, da: int)
  {
    end <= MAX_HEAP &&
    Valid(Cfg(ptr), s, ptr, end, F) &&
    |s.layout| > 0 && s.layout[0] == ptr && ptr in s.blocks && s.blocks[ptr].size == SIZE && s.blocks[ptr].isAllocated &&
    freeSize + df == Bytes(s.blocks, s.layout, false) &&
    allocatedSize + SIZE + da == Bytes(s.blocks, s.layout, true)
  }

  /** Where a block of the allocator's heap lies, and that its size has a class. */
  lemma BlockFacts(s: Store, ptr: nat, end: nat, F: set<int>, x: int)
    requires Valid(Cfg(ptr), s, ptr, end, F) && end <= MAX_HEAP && x in s.blocks
    ensures ptr <= x && End(s.blocks, x) <= end && x < EMPTY_PTR
    ensures s.blocks[x].size <= MAX_HEAP && SegClassId(s.blocks[x].size) < SEG_CLASS_PTRS_COUNT
  {
    TiledBounds(s.blocks, s.layout, ptr, end);
    SegClassIdBelow(s.blocks[x].size);
  }

  /** Every block other than the allocator's own lies past it, inside the heap. */
  lemma PayloadFacts(s: Store, ptr: nat, end: nat, F: set<int>, fs: int, as': int, df: int, da: int, x: int)
    requires Good(s, ptr, end, F, fs, as', df, da) && x in s.blocks && x != ptr
    ensures End(s.blocks, ptr) <= x && End(s.blocks, x) <= end
  {
    TiledBounds(s.blocks, s.layout, ptr, end);
  }

  /** The size `allocate` asks for: the request raised to the smallest box. */
  function BoxSize(size: nat): (s: nat)
    ensures s >= size && s >= MEM_BOX_MIN_SIZE && (s == size || s == MEM_BOX_MIN_SIZE)
  {
    if size < MEM_BOX_MIN_SIZE then MEM_BOX_MIN_SIZE else size
  }

  /** A listed block is free, so neither the allocator's own offset nor the empty marker is listed. */
  lemma ListFacts(s: Store, ptr: nat, end: nat, F: set<int>, c: nat)
    requires Valid(Cfg(ptr), s, ptr, end, F)
    requires end <= MAX_HEAP && ptr in s.blocks && s.blocks[ptr].isAllocated && c < SEG_CLASS_PTRS_COUNT
    ensures Linked(s.blocks, s.lists[c], s.heads[c], ptr, EMPTY_PTR)
    ensures ptr !in s.lists[c] && EMPTY_PTR !in s.lists[c]
  {
    if EMPTY_PTR in s.lists[c] {
      ListedFree(Cfg(ptr), s, c, EMPTY_PTR);
      BlockFacts(s, ptr, end, F, EMPTY_PTR);
    }
    if ptr in s.lists[c] {
      ListedFree(Cfg(ptr), s, c, ptr);
    }
  }

  /** The list a floating block is pushed onto: its class's, well linked, and not holding it. */
  lemma PushFacts(s: Store, ptr: nat, end: nat, F: set<int>, fs: int, as': int, df: int, da: int, o: int)
    requires Good(s, ptr, end, F, fs, as', df, da) && o in F
    ensures o in s.blocks && SegClassId(s.blocks[o].size) < SEG_CLASS_PTRS_COUNT
    ensures SegClassId(s.blocks[o].size) == ClassOf(s.blocks[o].size)
    ensures Linked(s.blocks, s.lists[ClassOf(s.blocks[o].size)], s.heads[ClassOf(s.blocks[o].size)], ptr, EMPTY_PTR)
    ensures o !in s.lists[ClassOf(s.blocks[o].size)] && EMPTY_PTR !in s.lists[ClassOf(s.blocks[o].size)]
  {
    BlockFacts(s, ptr, end, F, o);
    SegClassIdIsClassOf(s.blocks[o].size);
    var c := ClassOf(s.blocks[o].size);
    ListFacts(s, ptr, end, F, c);
  }

  /** A floating block is not the allocator's own, so it has a left neighbour, another block. */
  lemma LeftNeighbour(s: Store, ptr: nat, end: nat, F: set<int>, fs: int, as': int, df: int, da: int, i: nat)
    requires Good(s, ptr, end, F, fs, as', df, da) && i < |s.layout| && s.layout[i] in F
    ensures 0 < i && s.layout[i - 1] in s.blocks && s.layout[i] in s.blocks && s.layout[i - 1] != s.layout[i]
  {
    var o := s.layout[i];
    assert o in s.blocks && !s.blocks[o].isAllocated;
    TiledDistinct(s.blocks, s.layout, ptr, end);
  }

  /** Every layout position holds a block, and every block has its layout position. */
  lemma LayoutFacts(s: Store, ptr: nat, end: nat, F: set<int>, fs: int, as': int, df: int, da: int, x: int)
    requires Good(s, ptr, end, F, fs, as', df, da)
    ensures x in s.blocks <==> x in s.layout
    ensures forall j :: 0 <= j < |s.layout| ==> s.layout[j] in s.blocks
    ensures NoRepeats(s.layout)
  {
    TiledDistinct(s.blocks, s.layout, ptr, end);
  }

  /** A free block that is not floating is on the list of its class. */
  lemma SettledFacts(s: Store, ptr: nat, end: nat, F: set<int>, fs: int, as': int, df: int, da: int, x: int)
    requires Good(s, ptr, end, F, fs, as', df, da) && x in s.blocks && !s.blocks[x].isAllocated && x !in F
    ensures SegClassId(s.blocks[x].size) < SEG_CLASS_PTRS_COUNT && SegClassId(s.blocks[x].size) == ClassOf(s.blocks[x].size)
    ensures x in s.lists[ClassOf(s.blocks[x].size)]
  {
    BlockFacts(s, ptr, end, F, x);
    SegClassIdIsClassOf(s.blocks[x].size);
  }

  /** Keeping allocated blocks composes. */
  lemma KeptTrans(h: Heap, h': Heap, h'': Heap)
    requires Kept(h, h') && Kept(h', h'')
    ensures Kept(h, h'')
  {
  }

  /**
   * Absorbing the settled free left neighbour of the only floating block (ejecting it, then
   * merging the two) leaves no settled free block left of the merged one: two settled free
   * blocks never touch.
   */
  lemma AbsorbLeft(s: Store, ptr: nat, end: nat, fs: int, as': int, df: int, da: int, i: nat, c: nat, k: nat, r: Store, b: Block)
    requires 0 < i < |s.layout| && Good(s, ptr, end, {s.layout[i]}, fs, as', df, da) && FreeListed(s, {s.layout[i]}, i - 1)
    requires c < SEG_CLASS_PTRS_COUNT && k < |s.lists[c]| && s.lists[c][k] == s.layout[i - 1]
    requires r == MergeStore(SetBlock(EjectStore(Cfg(ptr), s, c, k), s.layout[i - 1],
                                      s.blocks[s.layout[i - 1]].(prev := EMPTY_PTR, next := EMPTY_PTR)), i - 1, b)
    ensures !FreeListed(r, {s.layout[i - 1]}, i - 2)
  {
    TiledDistinct(s.blocks, s.layout, ptr, end);
    AbsorbLeftApart(s, Cfg(ptr), i, c, k, r, b);
  }

  /** The heart of `AbsorbLeft`, on the parts of the invariant it needs. */
  lemma AbsorbLeftApart(s: Store, cfg: Config, i: nat, c: nat, k: nat, r: Store, b: Block)
    requires 0 < i < |s.layout| && Coalesced(s, {s.layout[i]}) && NoRepeats(s.layout) && FreeListed(s, {s.layout[i]}, i - 1)
    requires c < |s.lists| && c < |s.heads| && k < |s.lists[c]|
    requires r == MergeStore(SetBlock(EjectStore(cfg, s, c, k), s.layout[i - 1],
                                      s.blocks[s.layout[i - 1]].(prev := EMPTY_PTR, next := EMPTY_PTR)), i - 1, b)
    ensures !FreeListed(r, {s.layout[i - 1]}, i - 2)
  {
    if i >= 2 {
      var o, p, x := s.layout[i], s.layout[i - 1], s.layout[i - 2];
      assert Apart(s, {o}, i - 2);
      assert x != p && x != o;
      var e := SetBlock(EjectStore(cfg, s, c, k), p, s.blocks[p].(prev := EMPTY_PTR, next := EMPTY_PTR));
      RemoveAtIndex(s.layout, i);
      assert r.layout[i - 2] == x;
      assert x in r.blocks ==> x in e.blocks && r.blocks[x] == e.blocks[x];
      KeepNotFreeListed(s, {o}, i - 2, r, {p}, i - 2);
    }
  }

  /**
   * Absorbing the settled free right neighbour of the only floating block leaves no settled
   * free block right of the merged one, and keeps the left side as it was.
   */
  lemma AbsorbRight(s: Store, ptr: nat, end: nat, fs: int, as': int, df: int, da: int, j: nat, c: nat, k: nat, r: Store, b: Block)
    requires j + 1 < |s.layout| && Good(s, ptr, end, {s.layout[j]}, fs, as', df, da) && FreeListed(s, {s.layout[j]}, j + 1)
    requires c < SEG_CLASS_PTRS_COUNT && k < |s.lists[c]| && s.lists[c][k] == s.layout[j + 1]
    requires r == MergeStore(SetBlock(EjectStore(Cfg(ptr), s, c, k), s.layout[j + 1],
                                      s.blocks[s.layout[j + 1]].(prev := EMPTY_PTR, next := EMPTY_PTR)), j, b)
    ensures !FreeListed(r, {s.layout[j]}, j + 1)
    ensures !FreeListed(s, {s.layout[j]}, j - 1) ==> !FreeListed(r, {s.layout[j]}, j - 1)
  {
    TiledDistinct(s.blocks, s.layout, ptr, end);
    AbsorbRightApart(s, Cfg(ptr), j, c, k, r, b);
  }

  /** The heart of `AbsorbRight`, on the parts of the invariant it needs. */
  lemma AbsorbRightApart(s: Store, cfg: Config, j: nat, c: nat, k: nat, r: Store, b: Block)
    requires j + 1 < |s.layout| && Coalesced(s, {s.layout[j]}) && NoRepeats(s.layout) && FreeListed(s, {s.layout[j]}, j + 1)
    requires c < |s.lists| && c < |s.heads| && k < |s.lists[c]|
    requires r == MergeStore(SetBlock(EjectStore(cfg, s, c, k), s.layout[j + 1],
                                      s.blocks[s.layout[j + 1]].(prev := EMPTY_PTR, next := EMPTY_PTR)), j, b)
    ensures !FreeListed(r, {s.layout[j]}, j + 1)
    ensures !FreeListed(s, {s.layout[j]}, j - 1) ==> !FreeListed(r, {s.layout[j]}, j - 1)
  {
    var m, n := s.layout[j], s.layout[j + 1];
    var e := SetBlock(EjectStore(cfg, s, c, k), n, s.blocks[n].(prev := EMPTY_PTR, next := EMPTY_PTR));
    RemoveAtIndex(s.layout, j + 1);
    if j + 2 < |s.layout| {
      var y := s.layout[j + 2];
      assert Apart(s, {m}, j + 1);
      assert y != n && y != m;
      assert r.layout[j + 1] == y;
      assert y in r.blocks ==> y in e.blocks && r.blocks[y] == e.blocks[y];
      KeepNotFreeListed(s, {m}, j + 2, r, {m}, j + 1);
    }
    if j >= 1 && !FreeListed(s, {m}, j - 1) {
      var x := s.layout[j - 1];
      assert x != n && x != m;
      assert r.layout[j - 1] == x;
      assert x in r.blocks ==> x in e.blocks && r.blocks[x] == e.blocks[x];
      KeepNotFreeListed(s, {m}, j - 1, r, {m}, j - 1);
    }
  }

  // ---- The heap steps, on values, and the invariant each keeps. ----

  /** Rewriting one block's links in a mirror keeps it a mirror. */
  lemma MirrorsSet(h: Heap, h': Heap, o: int, b: Block)
    requires Mirrors(h, h') && o in h && b.size == h[o].size && b.isAllocated == h[o].isAllocated
    ensures Mirrors(h, h'[o := b])
  {
    assert h'[o := b].Keys == h'.Keys;
  }

  /** Rewriting a free block, or adding a block, keeps every allocated block. */
  lemma KeptSet(h: Heap, h': Heap, o: int, b: Block)
    requires Kept(h, h') && (o in h ==> !h[o].isAllocated)
    ensures Kept(h, h'[o := b])
  {
  }

  /** Rewriting a free block and adding a new one keeps every allocated block. */
  lemma KeptSplit(h: Heap, o: int, front: Block, q: int, rest: Block)
    requires o in h && !h[o].isAllocated && q !in h
    ensures Kept(h, h[o := front][q := rest])
  {
  }

  /** Ejecting the listed block at position `k` of class `c` and clearing its links makes it float. */
  lemma GoodEject(s: Store, ptr: nat, end: nat, F: set<int>, fs: int, as': int, df: int, da: int, c: nat, k: nat)
    requires Good(s, ptr, end, F, fs, as', df, da) && c < SEG_CLASS_PTRS_COUNT && k < |s.lists[c]|
    ensures s.lists[c][k] in s.blocks && !s.blocks[s.lists[c][k]].isAllocated && s.lists[c][k] !in F && s.lists[c][k] != ptr
    ensures Good(SetBlock(EjectStore(Cfg(ptr), s, c, k), s.lists[c][k], s.blocks[s.lists[c][k]].(prev := EMPTY_PTR, next := EMPTY_PTR)),
                 ptr, end, F + {s.lists[c][k]}, fs, as', df, da)
    ensures Mirrors(s.blocks, EjectStore(Cfg(ptr), s, c, k).blocks[s.lists[c][k] := s.blocks[s.lists[c][k]].(prev := EMPTY_PTR, next := EMPTY_PTR)])
    ensures Kept(s.blocks, EjectStore(Cfg(ptr), s, c, k).blocks[s.lists[c][k] := s.blocks[s.lists[c][k]].(prev := EMPTY_PTR, next := EMPTY_PTR)])
  {
    ValidEject(Cfg(ptr), s, ptr, end, F, c, k);
    ValidSetBlock(Cfg(ptr), EjectStore(Cfg(ptr), s, c, k), ptr, end, F + {s.lists[c][k]}, s.lists[c][k],
                  s.blocks[s.lists[c][k]].(prev := EMPTY_PTR, next := EMPTY_PTR), F + {s.lists[c][k]});
    assert Mirrors(s.blocks, EjectStore(Cfg(ptr), s, c, k).blocks);
    MirrorsSet(s.blocks, EjectStore(Cfg(ptr), s, c, k).blocks, s.lists[c][k], s.blocks[s.lists[c][k]].(prev := EMPTY_PTR, next := EMPTY_PTR));
    BytesSameSizes(s.blocks, EjectStore(Cfg(ptr), s, c, k).blocks[s.lists[c][k] := s.blocks[s.lists[c][k]].(prev := EMPTY_PTR, next := EMPTY_PTR)], s.layout);
    KeptSet(s.blocks, EjectStore(Cfg(ptr), s, c, k).blocks, s.lists[c][k], s.blocks[s.lists[c][k]].(prev := EMPTY_PTR, next := EMPTY_PTR));
  }

  /** Setting the allocation flag of a floating block (taking it) or of an allocated one (freeing it). */
  lemma GoodTake(s: Store, ptr: nat, end: nat, F: set<int>, fs: int, as': int, df: int, da: int, o: int)
    requires Good(s, ptr, end, F, fs, as', df, da) && o in F
    ensures o in s.blocks && o != ptr
    ensures Good(SetBlock(s, o, s.blocks[o].(isAllocated := true)), ptr, end, F - {o}, fs, as', df - s.blocks[o].size, da + s.blocks[o].size)
  {
    assert o in s.blocks && !s.blocks[o].isAllocated;
    var b := s.blocks[o].(isAllocated := true);
    ValidSetBlock(Cfg(ptr), s, ptr, end, F, o, b, F - {o});
    var i := IndexOf(s.layout, o);
    TiledDistinct(s.blocks, s.layout, ptr, end);
    BytesSet(s.blocks, s.layout, i, b, true);
    BytesSet(s.blocks, s.layout, i, b, false);
  }

  /** Clearing the allocation flag of an allocated block other than the allocator's own makes it float. */
  lemma GoodFree(s: Store, ptr: nat, end: nat, F: set<int>, fs: int, as': int, df: int, da: int, o: int)
    requires Good(s, ptr, end, F, fs, as', df, da) && o in s.blocks && s.blocks[o].isAllocated && o != ptr
    ensures o !in F
    ensures Good(SetBlock(s, o, s.blocks[o].(isAllocated := false)), ptr, end, F + {o}, fs, as', df + s.blocks[o].size, da - s.blocks[o].size)
  {
    var b := s.blocks[o].(isAllocated := false);
    ValidSetBlock(Cfg(ptr), s, ptr, end, F, o, b, F + {o});
    var i := IndexOf(s.layout, o);
    TiledDistinct(s.blocks, s.layout, ptr, end);
    BytesSet(s.blocks, s.layout, i, b, true);
    BytesSet(s.blocks, s.layout, i, b, false);
  }

  /** Splitting a floating block leaves two floating blocks, the second at `q`, and two headers fewer free bytes. */
  lemma GoodSplit(s: Store, ptr: nat, end: nat, F: set<int>, fs: int, as': int, df: int, da: int, i: nat, front: Block, rest: Block, q: int)
    requires Good(s, ptr, end, F, fs, as', df, da) && i < |s.layout| && s.layout[i] in F
    requires !front.isAllocated && !rest.isAllocated
    requires front.size + rest.size + 2 * OVERHEAD == s.blocks[s.layout[i]].size
    requires q == s.layout[i] + front.size + 2 * OVERHEAD
    ensures q !in s.blocks
    ensures Good(SplitStore(s, i, front, rest), ptr, end, F + {q}, fs, as', df - 2 * OVERHEAD, da)
    ensures Kept(s.blocks, SplitStore(s, i, front, rest).blocks)
  {
    var o := s.layout[i];
    assert o in s.blocks && !s.blocks[o].isAllocated;
    TilesInterior(s.blocks, s.layout, ptr, end, i, q);
    KeptSplit(s.blocks, o, front, q, rest);
    ValidSplit(Cfg(ptr), s, ptr, end, F, i, front, rest);
    TiledDistinct(s.blocks, s.layout, ptr, end);
    BytesSplit(s, i, front, rest, true);
    BytesSplit(s, i, front, rest, false);
    SplitFront(s, ptr, i, front, rest);
  }

  /** Splitting a free block keeps the allocator's own block in front. */
  lemma SplitFront(s: Store, ptr: nat, i: nat, front: Block, rest: Block)
    requires i < |s.layout| && s.layout[i] in s.blocks && !s.blocks[s.layout[i]].isAllocated
    requires s.layout[i] + front.size + 2 * OVERHEAD !in s.blocks
    requires |s.layout| > 0 && s.layout[0] == ptr && ptr in s.blocks && s.blocks[ptr].isAllocated
    ensures SplitStore(s, i, front, rest).layout[0] == ptr && SplitStore(s, i, front, rest).blocks[ptr] == s.blocks[ptr]
  {
    assert SplitStore(s, i, front, rest).layout[0] == s.layout[0];
  }

  /** Merging two floating neighbours leaves one floating block and two headers more free bytes. */
  lemma GoodMerge(s: Store, ptr: nat, end: nat, F: set<int>, fs: int, as': int, df: int, da: int, j: nat, b: Block)
    requires Good(s, ptr, end, F, fs, as', df, da) && j + 1 < |s.layout| && s.layout[j] in F && s.layout[j + 1] in F
    requires !b.isAllocated && b.size == s.blocks[s.layout[j]].size + s.blocks[s.layout[j + 1]].size + 2 * OVERHEAD
    ensures Good(MergeStore(s, j, b), ptr, end, F - {s.layout[j + 1]}, fs, as', df + 2 * OVERHEAD, da)
  {
    ValidMerge(Cfg(ptr), s, ptr, end, F, j, b);
    TiledDistinct(s.blocks, s.layout, ptr, end);
    BytesMerge(s, j, b, true);
    BytesMerge(s, j, b, false);
    MergeFront(s, ptr, j, b);
  }

  /** Merging two free blocks keeps the allocator's own block in front. */
  lemma MergeFront(s: Store, ptr: nat, j: nat, b: Block)
    requires j + 1 < |s.layout| && s.layout[j] in s.blocks && !s.blocks[s.layout[j]].isAllocated
    requires s.layout[j + 1] in s.blocks && !s.blocks[s.layout[j + 1]].isAllocated
    requires |s.layout| > 0 && s.layout[0] == ptr && ptr in s.blocks && s.blocks[ptr].isAllocated
    ensures MergeStore(s, j, b).layout[0] == ptr && ptr in MergeStore(s, j, b).blocks && MergeStore(s, j, b).blocks[ptr] == s.blocks[ptr]
  {
    assert MergeStore(s, j, b).layout[0] == s.layout[0];
  }

  /** A free block over `n` grown pages floats at the old heap end; the free counter gains its size. */
  lemma GoodGrow(s: Store, ptr: nat, end: nat, fs: int, as': int, df: int, da: int, b: Block)
    requires Good(s, ptr, end, {}, fs, as', df, da) && !b.isAllocated && end + b.size + 2 * OVERHEAD <= MAX_HEAP
    ensures end !in s.blocks
    ensures Good(GrowStore(s, end, b), ptr, end + b.size + 2 * OVERHEAD, {end}, fs + b.size, as', df, da)
  {
    ValidGrow(Cfg(ptr), s, ptr, end, {}, b);
    assert {} + {end} == {end};
    BytesGrow(s, end, b, true);
    BytesGrow(s, end, b, false);
    assert GrowStore(s, end, b).layout[0] == ptr;
  }

  /** Pushing a floating block whose neighbours are not settled free blocks onto the head of its class. */
  lemma GoodSplice(s: Store, ptr: nat, end: nat, F: set<int>, fs: int, as': int, df: int, da: int, i: nat, c: nat)
    requires Good(s, ptr, end, F, fs, as', df, da) && i < |s.layout| && s.layout[i] in F
    requires c == ClassOf(s.blocks[s.layout[i]].size) && c < SEG_CLASS_PTRS_COUNT
    requires !FreeListed(s, F, i - 1) && !FreeListed(s, F, i + 1)
    ensures Good(SpliceStore(Cfg(ptr), s, c, 0, s.layout[i]), ptr, end, F - {s.layout[i]}, fs, as', df, da)
    ensures Kept(s.blocks, SpliceStore(Cfg(ptr), s, c, 0, s.layout[i]).blocks)
    ensures Mirrors(s.blocks, SpliceStore(Cfg(ptr), s, c, 0, s.layout[i]).blocks)
  {
    ValidSplice(Cfg(ptr), s, ptr, end, F, c, 0, i);
    BytesSameSizes(s.blocks, SpliceStore(Cfg(ptr), s, c, 0, s.layout[i]).blocks, s.layout);
  }

  // ---- Stage two of the search, and a fresh heap. ----

  /** Every non-empty class above `c` is headed by a block larger than `size`. */
  ghost predicate HeadsFit(h: Heap, heads: seq<int>, c: nat, size: nat)
  {
    forall d :: c < d < |heads| && heads[d] != EMPTY_PTR ==> heads[d] in h && h[heads[d]].size > size
  }

  /**
   * Under the heap invariant the head of every non-empty class above the ideal class of
   * `size` fits, so stage two never meets a head that is too small.
   */
  lemma LargerHeadsFit(s: Store, ptr: nat, end: nat, F: set<int>, fs: int, as': int, df: int, da: int, size: nat)
    requires Good(s, ptr, end, F, fs, as', df, da)
    ensures HeadsFit(s.blocks, s.heads, SegClassId(size), size)
  {
    forall d | SegClassId(size) < d < |s.heads| && s.heads[d] != EMPTY_PTR
      ensures s.heads[d] in s.blocks && s.blocks[s.heads[d]].size > size
    {
      assert Linked(s.blocks, s.lists[d], s.heads[d], ptr, EMPTY_PTR);
      var x := s.lists[d][0];
      assert x in s.lists[d];
      assert x in s.blocks && ClassOf(s.blocks[x].size) == d;
      SegClassIdIsClassOf(s.blocks[x].size);
      LargerClassFits(s.blocks[x].size, size);
    }
  }

  /** The class heads after `reset`: every class empty. */
  const NO_HEADS: seq<int> := seq(SEG_CLASS_PTRS_COUNT, _ => EMPTY_PTR)

  /** The class lists after `reset`. */
  const NO_LISTS: seq<seq<int>> := seq(SEG_CLASS_PTRS_COUNT, _ => [])

  /** A heap holding only the allocator's own block `a` satisfies the invariant. */
  lemma GoodAlone(ptr: nat, a: Block)
    requires a.size == SIZE && a.isAllocated && ptr + SIZE + 2 * OVERHEAD <= MAX_HEAP
    ensures Good(Store(map[ptr := a], NO_HEADS, NO_LISTS, [ptr]), ptr, ptr + SIZE + 2 * OVERHEAD, {}, 0, 0, 0, 0)
  {
    var s := Store(map[ptr := a], NO_HEADS, NO_LISTS, [ptr]);
    assert [ptr][1..] == [];
    assert Tiles(s.blocks, [ptr][1..], End(s.blocks, ptr), ptr + SIZE + 2 * OVERHEAD);
    ValidNoFree(Cfg(ptr), s, ptr, ptr + SIZE + 2 * OVERHEAD);
    BytesSingle(s.blocks, ptr, false);
    BytesSingle(s.blocks, ptr, true);
  }

  /**
   * The heap `reset` builds over `[ptr, end)`: the allocator's own block `a`, then one
   * floating free block `b` at `q` over the rest, its size on the free counter.
   */
  lemma GoodFresh(ptr: nat, a: Block, q: nat, b: Block, end: nat)
    requires a.size == SIZE && a.isAllocated && q == ptr + SIZE + 2 * OVERHEAD
    requires q + 2 * OVERHEAD <= end <= MAX_HEAP && b == Block(end - q - 2 * OVERHEAD, false, EMPTY_PTR, EMPTY_PTR)
    ensures Good(Store(map[ptr := a][q := b], NO_HEADS, NO_LISTS, [ptr, q]), ptr, end, {q}, b.size, 0, 0, 0)
  {
    var h := map[ptr := a][q := b];
    var s := Store(h, NO_HEADS, NO_LISTS, [ptr, q]);
    assert [ptr, q][1..] == [q] && [q][1..] == [];
    assert Tiles(h, [q], q, end);
    assert Tiles(h, [ptr, q], ptr, end);
    assert Covers(h, [ptr, q]);
    assert ListsLinked(Cfg(ptr), s);
    assert Apart(s, {q}, 0);
    BytesConcat(h, [ptr], [q], false);
    BytesConcat(h, [ptr], [q], true);
    BytesSingle(h, ptr, false);
    BytesSingle(h, ptr, true);
    BytesSingle(h, q, false);
    BytesSingle(h, q, true);
    assert [ptr] + [q] == [ptr, q];
  }
}
