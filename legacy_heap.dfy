// The heap of the older allocator of src/stable_memory_allocator.rs, on values: its
// constants, the size classes, the class table as it is persisted in memory, the free
// lists kept in address order, the best-fit search, and how each heap step (eject,
// insert, split, merge, grow) keeps the invariant.

module LegacyHeap {
  import opened Common
  import opened FreeList
  import opened SegLists
  import opened Accounting
  import AH = AllocatorHeap

  const PAGE_SIZE_BYTES: nat := 65536
  /** The word that ends a free list, marks an empty class, and is a head's `prev`. */
  const EMPTY_WORD: int := 0
  const MAX_SEGREGATION_CLASSES: nat := 28
  const MAX_COLLECTION_DECLARATIONS: nat := 64
  const MIN_MEM_BLOCK_SIZE_BYTES: nat := 16
  const MAGIC: seq<byte> := [0x53, 0x4D, 0x41, 0x4D]
  /** Bytes of one stored word (a class head or a collection declaration). */
  const WORD_BYTES: nat := 8

  /** The allocator's header at `offset`: magic, the class table, the collection declarations. */
  const SIZE: nat := |MAGIC| + MAX_SEGREGATION_CLASSES * WORD_BYTES + MAX_COLLECTION_DECLARATIONS * WORD_BYTES

  /** Words are 64 bits wide: every offset, size and memory end stays below 2^64. */
  const MAX_MEM: nat := 0x1_0000_0000_0000_0000

  /** The range of `u32`. */
  const U32: nat := 0x1_0000_0000

  datatype SMAError = OutOfMemory | InvalidMagicSequence | NoMemBlockAtAddress

  /** A result or the error that stopped the operation. */
  datatype Result<T> = Success(value: T) | Failure(error: SMAError)

  // ---- Size classes. ----

  lemma Pow2Byte(k: nat)
    ensures AH.Pow2(k + 8) == 256 * AH.Pow2(k)
  {
    assert AH.Pow2(k + 8) == 2 * AH.Pow2(k + 7);
    assert AH.Pow2(k + 7) == 2 * AH.Pow2(k + 6);
    assert AH.Pow2(k + 6) == 2 * AH.Pow2(k + 5);
    assert AH.Pow2(k + 5) == 2 * AH.Pow2(k + 4);
    assert AH.Pow2(k + 4) == 2 * AH.Pow2(k + 3);
    assert AH.Pow2(k + 3) == 2 * AH.Pow2(k + 2);
    assert AH.Pow2(k + 2) == 2 * AH.Pow2(k + 1);
  }

  /** The word widths as powers of two. */
  lemma Pow2Words()
    ensures AH.Pow2(32) == U32 && AH.Pow2(64) == MAX_MEM
  {
    assert AH.Pow2(0) == 1;
    Pow2Byte(0);
    Pow2Byte(8);
    Pow2Byte(16);
    Pow2Byte(24);
    Pow2Byte(32);
    Pow2Byte(40);
    Pow2Byte(48);
    Pow2Byte(56);
  }

  /** A 32-bit argument has a logarithm below 32. */
  lemma Log2Below32(n: nat)
    requires n < U32
    ensures AH.FastLog2(n) < 32
  {
    var r := AH.FastLog2(n);
    if n >= 1 && r >= 32 {
      Pow2Words();
      AH.Pow2Mono(32, r);
    }
  }

  /**
   * `find_seg_class_idx`: the base-two logarithm, rounded down, of the size cast to 32
   * bits, less four, and 0 when that logarithm is at most 3 (`fast_log2_32` is not part of
   * this model: it is taken to give the rounded-down logarithm, and 0 for 0).
   */
  function FindSegClassIdx(blockSize: nat): (r: nat)
    ensures r < MAX_SEGREGATION_CLASSES
  {
    var x := blockSize % U32;
    Log2Below32(x);
    var log := AH.FastLog2(x);
    if log > 3 then log - 4 else 0
  }

  /** For sizes from 16 bytes up to 4 GiB, class `c` holds the sizes in `[2^(c+4), 2^(c+5))`. */
  lemma FindSegClassIdxBounds(size: nat)
    requires MIN_MEM_BLOCK_SIZE_BYTES <= size < U32
    ensures AH.Pow2(FindSegClassIdx(size) + 4) <= size < AH.Pow2(FindSegClassIdx(size) + 5)
  {
    var log := AH.FastLog2(size);
    assert FindSegClassIdx(size) == if log > 3 then log - 4 else 0 by {
      assert size % U32 == size;
    }
    assert log >= 4 by {
      AH.Pow2Four();
      if log < 4 {
        AH.Pow2Mono(log + 1, 4);
      }
    }
    assert FindSegClassIdx(size) + 4 == log;
  }

  /** Sizes below 32 bytes fall in class 0. */
  lemma FindSegClassIdxSmall(size: nat)
    requires size < 32
    ensures FindSegClassIdx(size) == 0
  {
    FindSegClassIdxLow(size);
    assert AH.Pow2(5) == 32 by {
      AH.Pow2Four();
    }
    Log2Below(size, 5);
  }

  /** Below 4 GiB the cast to 32 bits changes nothing. */
  lemma FindSegClassIdxLow(size: nat)
    requires size < U32
    ensures FindSegClassIdx(size) == if AH.FastLog2(size) > 3 then AH.FastLog2(size) - 4 else 0
  {
    assert size % U32 == size;
  }

  /** A number below `2^k` has a logarithm below `k`. */
  lemma Log2Below(n: nat, k: nat)
    requires 1 <= k && n < AH.Pow2(k)
    ensures AH.FastLog2(n) < k
  {
    var r := AH.FastLog2(n);
    if n >= 1 && r >= k {
      AH.Pow2Mono(k, r);
    }
  }

  /** The class depends on the low 32 bits only: a 4 GiB block and a 16-byte block share class 0. */
  lemma FindSegClassIdxTruncates()
    ensures FindSegClassIdx(U32 + 16) == FindSegClassIdx(16) == 0
  {
    FindSegClassIdxSmall(16);
    assert (U32 + 16) % U32 == 16;
  }

  /** The segregated lists of this allocator: heads' `prev` and list ends are `EMPTY_WORD`. */
  const LCfg: Config := Config(MAX_SEGREGATION_CLASSES, EMPTY_WORD, EMPTY_WORD, FindSegClassIdx)

  // ---- Pages. ----

  /** Whole pages holding `bytes`: `bytes / PAGE_SIZE_BYTES`, plus one for a partial page. */
  function PagesFor(bytes: nat): (r: nat)
    ensures r * PAGE_SIZE_BYTES >= bytes
    ensures r > 0 ==> (r - 1) * PAGE_SIZE_BYTES < bytes
  {
    var n := bytes / PAGE_SIZE_BYTES;
    if bytes % PAGE_SIZE_BYTES > 0 then n + 1 else n
  }

  // ---- Little-endian words and the persisted class table. ----

  /** `w.to_le_bytes()` over `n` bytes. */
  function LeBytes(w: nat, n: nat): (r: seq<byte>)
    ensures |r| == n
  {
    if n == 0 then [] else [(w % 256) as byte] + LeBytes(w / 256, n - 1)
  }

  /** `from_le_bytes`: the number the bytes spell, least significant first. */
  function LeValue(b: seq<byte>): nat
  {
    if b == [] then 0 else b[0] as nat + 256 * LeValue(b[1..])
  }

  /** Dropping the low byte of a number below `256 * bound`. */
  lemma DropByte(w: nat, bound: nat)
    requires w < 256 * bound
    ensures w / 256 < bound && w == w % 256 + 256 * (w / 256)
  {
  }

  /** The bytes of `w` are its low byte followed by the bytes of the rest. */
  lemma LeStep(w: nat, n: nat)
    requires n > 0
    ensures LeValue(LeBytes(w, n)) == w % 256 + 256 * LeValue(LeBytes(w / 256, n - 1))
  {
    var b := LeBytes(w, n);
    assert b[1..] == LeBytes(w / 256, n - 1);
  }

  /** Reading back the bytes of a word that fits gives the word. */
  lemma {:induction false} LeRoundTrip(w: nat, n: nat)
    requires w < AH.Pow2(8 * n)
    ensures LeValue(LeBytes(w, n)) == w
    decreases n
  {
    if n == 0 {
      assert AH.Pow2(0) == 1;
    } else {
      Pow2Byte(8 * (n - 1));
      assert 8 * (n - 1) + 8 == 8 * n;
      DropByte(w, AH.Pow2(8 * (n - 1)));
      LeRoundTrip(w / 256, n - 1);
      LeStep(w, n);
    }
  }

  /** The stored word at `p`. */
  function Word(mem: seq<byte>, p: nat): nat
    requires p + WORD_BYTES <= |mem|
  {
    LeValue(mem[p .. p + WORD_BYTES])
  }

  /** `context.write(p, &w.to_le_bytes())`. */
  function WriteWord(mem: seq<byte>, p: nat, w: nat): (r: seq<byte>)
    requires p + WORD_BYTES <= |mem|
    ensures |r| == |mem|
  {
    mem[..p] + LeBytes(w, WORD_BYTES) + mem[p + WORD_BYTES..]
  }

  /** A written word reads back; words that do not overlap it are untouched. */
  lemma WordAfterWrite(mem: seq<byte>, p: nat, w: nat, q: nat)
    requires p + WORD_BYTES <= |mem| && q + WORD_BYTES <= |mem| && w < MAX_MEM
    requires q == p || q + WORD_BYTES <= p || p + WORD_BYTES <= q
    ensures Word(WriteWord(mem, p, w), q) == if q == p then w else Word(mem, q)
  {
    var m := WriteWord(mem, p, w);
    if q == p {
      assert m[p .. p + WORD_BYTES] == LeBytes(w, WORD_BYTES);
      Pow2Words();
      LeRoundTrip(w, WORD_BYTES);
    } else {
      assert m[q .. q + WORD_BYTES] == mem[q .. q + WORD_BYTES];
    }
  }

  /** The magic bytes at the allocator's offset. */
  predicate Magic(mem: seq<byte>, offset: nat)
  {
    offset + |MAGIC| <= |mem| && mem[offset .. offset + |MAGIC|] == MAGIC
  }

  /** Where class `idx`'s head is stored. */
  function TableAt(offset: nat, idx: nat): nat
  {
    offset + |MAGIC| + idx * WORD_BYTES
  }

  /** The stored class table reads back as `classes`. */
  ghost predicate Persisted(mem: seq<byte>, offset: nat, classes: seq<int>)
  {
    offset + SIZE <= |mem| && |classes| == MAX_SEGREGATION_CLASSES &&
    forall idx :: 0 <= idx < MAX_SEGREGATION_CLASSES ==> Word(mem, TableAt(offset, idx)) == classes[idx]
  }

  /** Stored words past the magic bytes keep the magic bytes. */
  lemma MagicAfterWrite(mem: seq<byte>, offset: nat, p: nat, w: nat)
    requires Magic(mem, offset) && offset + |MAGIC| <= p && p + WORD_BYTES <= |mem|
    ensures Magic(WriteWord(mem, p, w), offset)
  {
    var m := WriteWord(mem, p, w);
    assert m[offset .. offset + |MAGIC|] == mem[offset .. offset + |MAGIC|];
  }

  /** `set_segregation_class`'s write keeps the stored table in step with the class array. */
  lemma TableAfterWrite(mem: seq<byte>, offset: nat, classes: seq<int>, idx: nat, w: nat)
    requires Persisted(mem, offset, classes) && idx < MAX_SEGREGATION_CLASSES && w < MAX_MEM
    ensures Persisted(WriteWord(mem, TableAt(offset, idx), w), offset, classes[idx := w])
  {
    var p := TableAt(offset, idx);
    forall j | 0 <= j < MAX_SEGREGATION_CLASSES
      ensures Word(WriteWord(mem, p, w), TableAt(offset, j)) == classes[idx := w][j]
    {
      WordAfterWrite(mem, p, w, TableAt(offset, j));
    }
  }

  /** Growing memory at its end keeps the magic bytes and the stored table. */
  lemma AppendKeeps(mem: seq<byte>, more: seq<byte>, offset: nat, classes: seq<int>)
    ensures Magic(mem, offset) ==> Magic(mem + more, offset)
    ensures Persisted(mem, offset, classes) ==> Persisted(mem + more, offset, classes)
  {
    if Magic(mem, offset) {
      assert (mem + more)[offset .. offset + |MAGIC|] == mem[offset .. offset + |MAGIC|];
    }
    if Persisted(mem, offset, classes) {
      forall j | 0 <= j < MAX_SEGREGATION_CLASSES
        ensures Word(mem + more, TableAt(offset, j)) == classes[j]
      {
        var p := TableAt(offset, j);
        assert (mem + more)[p .. p + WORD_BYTES] == mem[p .. p + WORD_BYTES];
      }
    }
  }

  /** `context.write(offset, &MAGIC)`. */
  function WriteMagic(mem: seq<byte>, offset: nat): (r: seq<byte>)
    requires offset + |MAGIC| <= |mem|
    ensures |r| == |mem| && Magic(r, offset)
  {
    mem[..offset] + MAGIC + mem[offset + |MAGIC|..]
  }

  /** The class table as it was stored before `init` wrote the magic bytes. */
  lemma TableAfterMagic(mem: seq<byte>, offset: nat, classes: seq<int>)
    requires Persisted(mem, offset, classes)
    ensures Persisted(WriteMagic(mem, offset), offset, classes)
  {
    var m := WriteMagic(mem, offset);
    forall j | 0 <= j < MAX_SEGREGATION_CLASSES
      ensures Word(m, TableAt(offset, j)) == classes[j]
    {
      var p := TableAt(offset, j);
      assert offset + |MAGIC| <= p && p + WORD_BYTES <= offset + SIZE;
      forall t | p <= t < p + WORD_BYTES ensures m[t] == mem[t] {
        assert m[t] == mem[offset + |MAGIC|..][t - offset - |MAGIC|];
      }
      assert m[p .. p + WORD_BYTES] == mem[p .. p + WORD_BYTES];
    }
  }

  /** Every class empty. */
  const NO_CLASSES: seq<int> := seq(MAX_SEGREGATION_CLASSES, _ => EMPTY_WORD)

  /** The lists of an all-empty class table. */
  const NO_LISTS: seq<seq<int>> := seq(MAX_SEGREGATION_CLASSES, _ => [])

  // ---- `reinit`. ----

  /** What `reinit` rebuilds from memory: the class table and the allocator's offset. */
  datatype Restored = Restored(classes: seq<int>, offset: nat)

  /** The stored class table at `offset`. */
  function ReadTable(mem: seq<byte>, offset: nat): (r: seq<int>)
    requires offset + SIZE <= |mem|
    ensures |r| == MAX_SEGREGATION_CLASSES
    ensures forall idx :: 0 <= idx < MAX_SEGREGATION_CLASSES ==> r[idx] == Word(mem, TableAt(offset, idx))
  {
    seq(MAX_SEGREGATION_CLASSES, idx requires 0 <= idx < MAX_SEGREGATION_CLASSES => Word(mem, TableAt(offset, idx)))
  }

  /**
   * `reinit` as written (:174-228): it checks the magic bytes, reads the class table, and
   * returns the allocator with `offset` advanced past the magic bytes and the class table.
   */
  function ReinitAsWritten(mem: seq<byte>, offset: nat): (r: Result<Restored>)
    requires offset + SIZE <= |mem|
  {
    if mem[offset .. offset + |MAGIC|] != MAGIC then Failure(InvalidMagicSequence)
    else Success(Restored(ReadTable(mem, offset), offset + |MAGIC| + MAX_SEGREGATION_CLASSES * WORD_BYTES))
  }

  /** `reinit` with the allocator's offset kept where its header starts. */
  function Reinit(mem: seq<byte>, offset: nat): (r: Result<Restored>)
    requires offset + SIZE <= |mem|
    ensures r.Failure? <==> !Magic(mem, offset)
    ensures r.Failure? ==> r.error == InvalidMagicSequence
    ensures r.Success? ==> r.value.offset == offset
  {
    if mem[offset .. offset + |MAGIC|] != MAGIC then Failure(InvalidMagicSequence)
    else Success(Restored(ReadTable(mem, offset), offset))
  }

  /** Over memory whose table is in step with `classes`, `reinit` restores exactly that allocator. */
  lemma ReinitRestores(mem: seq<byte>, offset: nat, classes: seq<int>)
    requires Persisted(mem, offset, classes) && Magic(mem, offset)
    ensures Reinit(mem, offset) == Success(Restored(classes, offset))
  {
    assert ReadTable(mem, offset) == classes;
  }

  /**
   * `reinit` as written restores the table but not the offset: the allocator it returns
   * sits 228 bytes past its header and would store class heads over the collection
   * declarations.
   */
  lemma ReinitAsWrittenMovesOffset(mem: seq<byte>, offset: nat, classes: seq<int>)
    requires Persisted(mem, offset, classes) && Magic(mem, offset)
    ensures ReinitAsWritten(mem, offset) == Success(Restored(classes, offset + 228))
    ensures ReinitAsWritten(mem, offset) != Reinit(mem, offset)
  {
    assert ReadTable(mem, offset) == classes;
  }
  // ---- The heap invariant. ----

  /** Offsets strictly ascending. */
  ghost predicate Sorted(l: seq<int>)
  {
    forall i, j :: 0 <= i < j < |l| ==> l[i] < l[j]
  }

  /** Every class list ascends by offset. */
  ghost predicate AllSorted(lists: seq<seq<int>>)
  {
    forall c :: 0 <= c < |lists| ==> Sorted(lists[c])
  }

  /**
   * The allocator's heap invariant: the segregated lists are valid over `[start, end)`
   * with the blocks of `F` floating, every class list ascends by offset, and the heap
   * lies above `EMPTY_WORD` and below 2^64.
   */
  ghost predicate LGood(s: Store, start: nat, end: nat, F: set<int>)
  {
    EMPTY_WORD < start && end <= MAX_MEM && Valid(LCfg, s, start, end, F) && AllSorted(s.lists)
  }

  /** Where a block lies: inside the heap, so never at `EMPTY_WORD`. */
  lemma BlockFacts(s: Store, start: nat, end: nat, F: set<int>, x: int)
    requires LGood(s, start, end, F) && x in s.blocks
    ensures start <= x && End(s.blocks, x) <= end && x != EMPTY_WORD
  {
    TiledBounds(s.blocks, s.layout, start, end);
  }

  /** Every block offset lies strictly between `EMPTY_WORD` and 2^64. */
  lemma BelowMax(s: Store, start: nat, end: nat, F: set<int>)
    requires LGood(s, start, end, F)
    ensures forall x :: x in s.blocks ==> EMPTY_WORD < x < MAX_MEM
  {
    TiledBounds(s.blocks, s.layout, start, end);
  }

  /** A class list: linked from its head, without the empty marker, in address order. */
  lemma ListFacts(s: Store, start: nat, end: nat, F: set<int>, c: nat)
    requires LGood(s, start, end, F) && c < MAX_SEGREGATION_CLASSES
    ensures Linked(s.blocks, s.lists[c], s.heads[c], EMPTY_WORD, EMPTY_WORD)
    ensures EMPTY_WORD !in s.lists[c] && Sorted(s.lists[c])
    ensures s.heads[c] == EMPTY_WORD <==> s.lists[c] == []
  {
    if EMPTY_WORD in s.lists[c] {
      ListedFree(LCfg, s, c, EMPTY_WORD);
      BlockFacts(s, start, end, F, EMPTY_WORD);
    }
    if s.lists[c] != [] {
      assert s.lists[c][0] in s.lists[c];
    }
  }

  /** Every layout position holds a block, every block has its position, and none repeats. */
  lemma LayoutFacts(s: Store, start: nat, end: nat, F: set<int>, x: int)
    requires LGood(s, start, end, F)
    ensures x in s.blocks <==> x in s.layout
    ensures forall j :: 0 <= j < |s.layout| ==> s.layout[j] in s.blocks
    ensures NoRepeats(s.layout)
  {
    TiledDistinct(s.blocks, s.layout, start, end);
  }

  /** A free block that is not floating is on the list of its class. */
  lemma SettledFacts(s: Store, start: nat, end: nat, F: set<int>, x: int)
    requires LGood(s, start, end, F) && x in s.blocks && !s.blocks[x].isAllocated && x !in F
    ensures x in s.lists[FindSegClassIdx(s.blocks[x].size)]
  {
  }

  /**
   * The physical neighbours of a settled free block are allocated or floating: this is
   * why the recursive `try_merge` on a neighbour that is about to be absorbed finds nothing
   * to merge on its far side.
   */
  lemma SettledNeighbours(s: Store, start: nat, end: nat, F: set<int>, j: nat)
    requires LGood(s, start, end, F) && FreeListed(s, F, j)
    ensures j + 1 < |s.layout| && s.layout[j + 1] !in F ==> s.blocks[s.layout[j + 1]].isAllocated
    ensures 0 < j && s.layout[j - 1] !in F ==> s.blocks[s.layout[j - 1]].isAllocated
  {
    LayoutFacts(s, start, end, F, s.layout[j]);
    if j + 1 < |s.layout| {
      assert Apart(s, F, j);
    }
    if 0 < j {
      assert Apart(s, F, j - 1);
    }
  }

  // ---- Ordered lists. ----

  /** `k` is where `x` goes to keep `l` ascending. */
  ghost predicate SlotFor(l: seq<int>, k: nat, x: int)
  {
    k <= |l| && (forall j :: 0 <= j < k ==> l[j] < x) && (forall j :: k <= j < |l| ==> x < l[j])
  }

  lemma SortedInsert(l: seq<int>, k: nat, x: int)
    requires Sorted(l) && SlotFor(l, k, x)
    ensures Sorted(InsertAt(l, k, x))
  {
    var l' := InsertAt(l, k, x);
    InsertAtIndex(l, k, x);
    forall i, j | 0 <= i < j < |l'| ensures l'[i] < l'[j] {
      if i < k && j > k {
        assert l'[i] == l[i] && l'[j] == l[j - 1];
      } else if i > k {
        assert l'[i] == l[i - 1] && l'[j] == l[j - 1];
      } else if j < k {
        assert l'[i] == l[i] && l'[j] == l[j];
      }
    }
  }

  lemma SortedRemove(l: seq<int>, k: nat)
    requires Sorted(l) && k < |l|
    ensures Sorted(RemoveAt(l, k))
  {
    var l' := RemoveAt(l, k);
    RemoveAtIndex(l, k);
    forall i, j | 0 <= i < j < |l'| ensures l'[i] < l'[j] {
      assert l'[i] == l[if i < k then i else i + 1];
      assert l'[j] == l[if j < k then j else j + 1];
    }
  }

  /** Replacing one class list by an ascending list keeps every list ascending. */
  lemma SortedUpdate(lists: seq<seq<int>>, c: nat, l: seq<int>)
    requires AllSorted(lists) && c < |lists| && Sorted(l)
    ensures AllSorted(lists[c := l])
  {
    var r := lists[c := l];
    forall d | 0 <= d < |r| ensures Sorted(r[d]) {
      if d != c {
        assert r[d] == lists[d];
      }
    }
  }

  lemma EjectSorted(s: Store, c: nat, k: nat)
    requires AllSorted(s.lists) && c < |s.lists| && c < |s.heads| && k < |s.lists[c]|
    ensures AllSorted(EjectStore(LCfg, s, c, k).lists)
  {
    SortedRemove(s.lists[c], k);
    SortedUpdate(s.lists, c, RemoveAt(s.lists[c], k));
  }

  lemma SpliceSorted(s: Store, c: nat, k: nat, x: int)
    requires AllSorted(s.lists) && c < |s.lists| && c < |s.heads| && x in s.blocks && SlotFor(s.lists[c], k, x)
    ensures AllSorted(SpliceStore(LCfg, s, c, k, x).lists)
  {
    SortedInsert(s.lists[c], k, x);
    SortedUpdate(s.lists, c, InsertAt(s.lists[c], k, x));
  }

  // ---- The heap steps and the invariant each keeps. ----

  /** Ejecting the listed block at position `k` of class `c` makes it float; its neighbours are not settled free blocks. */
  lemma GoodEject(s: Store, start: nat, end: nat, F: set<int>, c: nat, k: nat)
    requires LGood(s, start, end, F) && c < MAX_SEGREGATION_CLASSES && k < |s.lists[c]|
    ensures s.lists[c][k] in s.blocks && !s.blocks[s.lists[c][k]].isAllocated && s.lists[c][k] !in F
    ensures LGood(EjectStore(LCfg, s, c, k), start, end, F + {s.lists[c][k]})
    ensures EjectStore(LCfg, s, c, k).blocks[s.lists[c][k]] == s.blocks[s.lists[c][k]]
    ensures Kept(s.blocks, EjectStore(LCfg, s, c, k).blocks)
  {
    EjectSorted(s, c, k);
    ValidEject(LCfg, s, start, end, F, c, k);
  }

  /** A block ejected from its list was settled, so neither of its neighbours is a settled free block. */
  lemma EjectNeighbours(s: Store, start: nat, end: nat, F: set<int>, c: nat, k: nat, i: nat)
    requires LGood(s, start, end, F) && c < MAX_SEGREGATION_CLASSES && k < |s.lists[c]|
    requires i < |s.layout| && s.layout[i] == s.lists[c][k]
    ensures !FreeListed(EjectStore(LCfg, s, c, k), F + {s.lists[c][k]}, i - 1)
    ensures !FreeListed(EjectStore(LCfg, s, c, k), F + {s.lists[c][k]}, i + 1)
  {
    var x := s.lists[c][k];
    ListedFree(LCfg, s, c, x);
    assert FreeListed(s, F, i);
    if i > 0 {
      assert Apart(s, F, i - 1);
    }
    if i + 1 < |s.layout| {
      assert Apart(s, F, i);
    }
  }

  /** Rewriting the header of a floating or allocated block without resizing it. */
  lemma GoodSetBlock(s: Store, start: nat, end: nat, F: set<int>, o: int, b: Block, F': set<int>)
    requires LGood(s, start, end, F) && o in s.blocks && b.size == s.blocks[o].size
    requires o in F || s.blocks[o].isAllocated
    requires forall x :: x in F' <==> if x == o then !b.isAllocated else x in F
    ensures LGood(SetBlock(s, o, b), start, end, F')
  {
    BlockFacts(s, start, end, F, o);
    ValidSetBlock(LCfg, s, start, end, F, o, b, F');
  }

  /** Splitting a floating block at layout index `i` leaves two floating blocks, the second at `q`. */
  lemma GoodSplit(s: Store, start: nat, end: nat, F: set<int>, i: nat, front: Block, rest: Block, q: int)
    requires LGood(s, start, end, F) && i < |s.layout| && s.layout[i] in F
    requires !front.isAllocated && !rest.isAllocated
    requires front.size + rest.size + 2 * OVERHEAD == s.blocks[s.layout[i]].size
    requires q == s.layout[i] + front.size + 2 * OVERHEAD
    ensures q !in s.blocks
    ensures LGood(SplitStore(s, i, front, rest), start, end, F + {q})
    ensures Kept(s.blocks, SplitStore(s, i, front, rest).blocks)
    ensures !FreeListed(s, F, i + 1) ==> !FreeListed(SplitStore(s, i, front, rest), F + {q}, i + 2)
  {
    var o := s.layout[i];
    assert o in s.blocks && !s.blocks[o].isAllocated;
    TilesInterior(s.blocks, s.layout, start, end, i, q);
    AH.KeptSplit(s.blocks, o, front, q, rest);
    ValidSplit(LCfg, s, start, end, F, i, front, rest);
    var r := SplitStore(s, i, front, rest);
    InsertAtIndex(s.layout, i + 1, q);
    if i + 1 < |s.layout| && !FreeListed(s, F, i + 1) {
      assert r.layout[i + 2] == s.layout[i + 1];
      TiledDistinct(s.blocks, s.layout, start, end);
      assert s.layout[i + 1] != o;
      KeepNotFreeListed(s, F, i + 1, r, F + {q}, i + 2);
    }
  }

  /** Merging two floating neighbours leaves one floating block. */
  lemma GoodMerge(s: Store, start: nat, end: nat, F: set<int>, j: nat, b: Block)
    requires LGood(s, start, end, F) && j + 1 < |s.layout| && s.layout[j] in F && s.layout[j + 1] in F
    requires !b.isAllocated && b.size == s.blocks[s.layout[j]].size + s.blocks[s.layout[j + 1]].size + 2 * OVERHEAD
    ensures LGood(MergeStore(s, j, b), start, end, F - {s.layout[j + 1]})
    ensures Kept(s.blocks, MergeStore(s, j, b).blocks)
  {
    ValidMerge(LCfg, s, start, end, F, j, b);
  }

  /** A free block over grown memory extends the heap and floats. */
  lemma GoodGrow(s: Store, start: nat, end: nat, b: Block)
    requires LGood(s, start, end, {}) && !b.isAllocated && end + b.size + 2 * OVERHEAD <= MAX_MEM
    ensures end !in s.blocks
    ensures LGood(GrowStore(s, end, b), start, end + b.size + 2 * OVERHEAD, {end})
    ensures Kept(s.blocks, GrowStore(s, end, b).blocks)
  {
    ValidGrow(LCfg, s, start, end, {}, b);
    assert {} + {end} == {end};
  }

  /**
   * Inserting the floating block at layout index `i` into the list of its class at the
   * slot that keeps the list ascending settles it, provided neither physical neighbour
   * is a settled free block.
   */
  lemma GoodSplice(s: Store, start: nat, end: nat, F: set<int>, i: nat, c: nat, k: nat)
    requires LGood(s, start, end, F) && i < |s.layout| && s.layout[i] in F
    requires c == FindSegClassIdx(s.blocks[s.layout[i]].size) && SlotFor(s.lists[c], k, s.layout[i])
    requires !FreeListed(s, F, i - 1) && !FreeListed(s, F, i + 1)
    ensures LGood(SpliceStore(LCfg, s, c, k, s.layout[i]), start, end, F - {s.layout[i]})
    ensures Kept(s.blocks, SpliceStore(LCfg, s, c, k, s.layout[i]).blocks)
  {
    SpliceSorted(s, c, k, s.layout[i]);
    ValidSplice(LCfg, s, start, end, F, c, k, i);
  }

  /**
   * Absorbing the settled free left neighbour `p` (layout index `i - 1`) of the only
   * floating block: `p` leaves its list and one free block at `p` spans both. Two settled
   * free blocks never touch, so nothing left of the result is a settled free block.
   */
  lemma AbsorbLeft(s: Store, start: nat, end: nat, i: nat, c: nat, k: nat, r: Store, b: Block)
    requires 0 < i < |s.layout| && LGood(s, start, end, {s.layout[i]}) && FreeListed(s, {s.layout[i]}, i - 1)
    requires c < MAX_SEGREGATION_CLASSES && k < |s.lists[c]|
    requires r == MergeStore(EjectStore(LCfg, s, c, k), i - 1, b)
    ensures !FreeListed(r, {s.layout[i - 1]}, i - 2)
    ensures !FreeListed(s, {s.layout[i]}, i + 1) ==> !FreeListed(r, {s.layout[i - 1]}, i)
  {
    TiledDistinct(s.blocks, s.layout, start, end);
    AbsorbLeftApart(s, i, c, k, r, b);
  }

  /** The heart of `AbsorbLeft`, on the parts of the invariant it needs. */
  lemma AbsorbLeftApart(s: Store, i: nat, c: nat, k: nat, r: Store, b: Block)
    requires 0 < i < |s.layout| && Coalesced(s, {s.layout[i]}) && NoRepeats(s.layout) && FreeListed(s, {s.layout[i]}, i - 1)
    requires c < |s.lists| && c < |s.heads| && k < |s.lists[c]|
    requires r == MergeStore(EjectStore(LCfg, s, c, k), i - 1, b)
    ensures !FreeListed(r, {s.layout[i - 1]}, i - 2)
    ensures !FreeListed(s, {s.layout[i]}, i + 1) ==> !FreeListed(r, {s.layout[i - 1]}, i)
  {
    var e := EjectStore(LCfg, s, c, k);
    RemoveAtIndex(s.layout, i);
    if i + 1 < |s.layout| && !FreeListed(s, {s.layout[i]}, i + 1) {
      var o, p, y := s.layout[i], s.layout[i - 1], s.layout[i + 1];
      assert y != p && y != o;
      assert r.layout[i] == y;
      assert y in r.blocks ==> y in e.blocks && r.blocks[y] == e.blocks[y];
      KeepNotFreeListed(s, {o}, i + 1, r, {p}, i);
    }
    if i >= 2 {
      var o, p, x := s.layout[i], s.layout[i - 1], s.layout[i - 2];
      assert Apart(s, {o}, i - 2);
      assert x != p && x != o;
      assert r.layout[i - 2] == x;
      assert x in r.blocks ==> x in e.blocks && r.blocks[x] == e.blocks[x];
      KeepNotFreeListed(s, {o}, i - 2, r, {p}, i - 2);
    }
  }

  /**
   * Absorbing the settled free right neighbour (layout index `j + 1`) of the only floating
   * block `m`: nothing right of the result is a settled free block, and the left side is
   * as it was.
   */
  lemma AbsorbRight(s: Store, start: nat, end: nat, j: nat, c: nat, k: nat, r: Store, b: Block)
    requires j + 1 < |s.layout| && LGood(s, start, end, {s.layout[j]}) && FreeListed(s, {s.layout[j]}, j + 1)
    requires c < MAX_SEGREGATION_CLASSES && k < |s.lists[c]|
    requires r == MergeStore(EjectStore(LCfg, s, c, k), j, b)
    ensures !FreeListed(r, {s.layout[j]}, j + 1)
    ensures !FreeListed(s, {s.layout[j]}, j - 1) ==> !FreeListed(r, {s.layout[j]}, j - 1)
  {
    TiledDistinct(s.blocks, s.layout, start, end);
    AbsorbRightApart(s, j, c, k, r, b);
  }

  /** The heart of `AbsorbRight`, on the parts of the invariant it needs. */
  lemma AbsorbRightApart(s: Store, j: nat, c: nat, k: nat, r: Store, b: Block)
    requires j + 1 < |s.layout| && Coalesced(s, {s.layout[j]}) && NoRepeats(s.layout) && FreeListed(s, {s.layout[j]}, j + 1)
    requires c < |s.lists| && c < |s.heads| && k < |s.lists[c]|
    requires r == MergeStore(EjectStore(LCfg, s, c, k), j, b)
    ensures !FreeListed(r, {s.layout[j]}, j + 1)
    ensures !FreeListed(s, {s.layout[j]}, j - 1) ==> !FreeListed(r, {s.layout[j]}, j - 1)
  {
    var m, n := s.layout[j], s.layout[j + 1];
    var e := EjectStore(LCfg, s, c, k);
    RemoveAtIndex(s.layout, j + 1);
    if j + 2 < |s.layout| {
      var y := s.layout[j + 2];
      assert Apart(s, {m}, j + 1);
      assert y != n && y != m;
      assert r.layout[j + 1] == y;
      assert y in r.blocks ==> y in e.blocks && r.blocks[y] == e.blocks[y];
      KeepNotFreeListed(s, {m}, j + 2, r, {m}, j + 1);
    }
    if j >= 1 && !FreeListed(s, {m}, j - 1) {
      var x := s.layout[j - 1];
      assert x != n && x != m;
      assert r.layout[j - 1] == x;
      assert x in r.blocks ==> x in e.blocks && r.blocks[x] == e.blocks[x];
      KeepNotFreeListed(s, {m}, j - 1, r, {m}, j - 1);
    }
  }

  // ---- Building and searching the lists. ----

  /** A block as the free-block primitives leave it: free, with both link words empty. */
  function Freed(b: Block): (r: Block)
    ensures r.size == b.size && !r.isAllocated && r.prev == EMPTY_WORD && r.next == EMPTY_WORD
  {
    Block(b.size, false, EMPTY_WORD, EMPTY_WORD)
  }

  /**
   * What `try_merge` towards the next block adds to block `o`: the block that starts
   * where `o` ends, when there is one and it is free, brings its payload and the two
   * headers between them; otherwise nothing.
   */
  ghost function RightGain(h: Heap, o: int): (g: nat)
    requires o in h
  {
    var n := End(h, o);
    if n in h && !h[n].isAllocated then h[n].size + 2 * OVERHEAD else 0
  }

  /** The number of entries of `l` below `x`: where `x` goes in an ascending list. */
  function SlotOf(l: seq<int>, x: int): (k: nat)
    ensures k <= |l|
    ensures Sorted(l) && x !in l ==> SlotFor(l, k, x)
  {
    if l == [] || x < l[0] then 0
    else
      assert Sorted(l) ==> Sorted(l[1..]);
      1 + SlotOf(l[1..], x)
  }

  /** The slot for `x`, where there is one, is `SlotOf`. */
  lemma {:induction false} SlotOfIs(l: seq<int>, k: nat, x: int)
    requires SlotFor(l, k, x)
    ensures SlotOf(l, x) == k
    decreases |l|
  {
    if l != [] && !(x < l[0]) {
      assert 0 < k;
      assert SlotFor(l[1..], k - 1, x);
      SlotOfIs(l[1..], k - 1, x);
    }
  }

  /** The heap after `add_block_to_free_list(x)`: `x` spliced into its class's list where the order puts it. */
  ghost function AddStore(s: Store, x: int): (r: Store)
    requires |s.lists| == MAX_SEGREGATION_CLASSES && |s.heads| == MAX_SEGREGATION_CLASSES && x in s.blocks
  {
    var c := FindSegClassIdx(s.blocks[x].size);
    SpliceStore(LCfg, s, c, SlotOf(s.lists[c], x), x)
  }

  /**
   * The class-table bytes at `offset` that memory already holds are all zero, as in
   * memory that was never written; memory grown later is zero too.
   */
  ghost predicate TableClear(mem: seq<byte>, offset: nat)
  {
    forall j :: offset + |MAGIC| <= j < offset + |MAGIC| + MAX_SEGREGATION_CLASSES * WORD_BYTES && j < |mem| ==> mem[j] == 0
  }

  lemma {:induction false} LeZero(b: seq<byte>)
    requires forall j :: 0 <= j < |b| ==> b[j] == 0
    ensures LeValue(b) == 0
  {
    if b != [] {
      LeZero(b[1..]);
    }
  }

  /** A cleared table reads back as every class empty. */
  lemma ClearPersists(mem: seq<byte>, offset: nat)
    requires TableClear(mem, offset) && offset + SIZE <= |mem|
    ensures Persisted(mem, offset, NO_CLASSES)
  {
    forall idx | 0 <= idx < MAX_SEGREGATION_CLASSES ensures Word(mem, TableAt(offset, idx)) == NO_CLASSES[idx] {
      var p := TableAt(offset, idx);
      var w := mem[p .. p + WORD_BYTES];
      forall j | 0 <= j < |w| ensures w[j] == 0 {
        assert w[j] == mem[p + j];
      }
      LeZero(w);
    }
  }

  /** Growing memory at its end by zero bytes keeps a cleared table clear. */
  lemma ClearAfterAppend(mem: seq<byte>, n: nat, offset: nat)
    requires TableClear(mem, offset)
    ensures TableClear(mem + AH.Zeros(n), offset)
  {
    var m := mem + AH.Zeros(n);
    forall j | offset + |MAGIC| <= j < offset + |MAGIC| + MAX_SEGREGATION_CLASSES * WORD_BYTES && j < |m| ensures m[j] == 0 {
      if j < |mem| {
        assert m[j] == mem[j];
      } else {
        assert m[j] == AH.Zeros(n)[j - |mem|];
      }
    }
  }

  /** Writing the magic bytes keeps a cleared table clear. */
  lemma ClearAfterMagic(mem: seq<byte>, offset: nat)
    requires TableClear(mem, offset) && offset + |MAGIC| <= |mem|
    ensures TableClear(WriteMagic(mem, offset), offset)
  {
    var m := WriteMagic(mem, offset);
    forall j | offset + |MAGIC| <= j < offset + |MAGIC| + MAX_SEGREGATION_CLASSES * WORD_BYTES && j < |m| ensures m[j] == 0 {
      assert m[j] == mem[j];
    }
  }

  /** The heap before the first block: no blocks, every class empty. */
  lemma GoodEmpty(start: nat)
    requires EMPTY_WORD < start <= MAX_MEM
    ensures LGood(Store(map[], NO_CLASSES, NO_LISTS, []), start, start, {})
  {
    var s := Store(map[], NO_CLASSES, NO_LISTS, []);
    assert Tiles(s.blocks, s.layout, start, start);
    ValidNoFree(LCfg, s, start, start);
  }

  /** Some block of list `l` holds at least `size` bytes. */
  ghost predicate HasFit(h: Heap, l: seq<int>, size: nat)
  {
    exists j :: 0 <= j < |l| && l[j] in h && h[l[j]].size >= size
  }

  /**
   * Position `k` of list `l` holds a block of at least `size` bytes with the least surplus,
   * and it is the first such position.
   */
  ghost predicate BestFit(h: Heap, l: seq<int>, size: nat, k: nat)
  {
    k < |l| && (forall j :: 0 <= j < |l| ==> l[j] in h) && h[l[k]].size >= size &&
    (forall j :: 0 <= j < |l| && h[l[j]].size >= size ==> h[l[k]].size <= h[l[j]].size) &&
    (forall j :: 0 <= j < k && h[l[j]].size >= size ==> h[l[k]].size < h[l[j]].size)
  }

  /**
   * The class `find_appropriate_free_mem_block` settles on among `[lo, hi)`: every class
   * with a fitting block overwrites the answer, so the highest such class wins.
   */
  ghost function LastFit(h: Heap, lists: seq<seq<int>>, size: nat, lo: nat, hi: nat): (r: Option<nat>)
    requires hi <= |lists|
    ensures r.Some? ==> lo <= r.value < hi && HasFit(h, lists[r.value], size)
    ensures r.Some? ==> forall d :: r.value < d < hi ==> !HasFit(h, lists[d], size)
    ensures r.None? ==> forall d :: lo <= d < hi ==> !HasFit(h, lists[d], size)
    decreases hi
  {
    if hi <= lo then None
    else if HasFit(h, lists[hi - 1], size) then Some(hi - 1)
    else LastFit(h, lists, size, lo, hi - 1)
  }

  /** How many class heads are not empty. */
  function NonEmptyClasses(heads: seq<int>): (n: nat)
    ensures n <= |heads|
  {
    if heads == [] then 0
    else (if heads[0] != EMPTY_WORD then 1 else 0) + NonEmptyClasses(heads[1..])
  }

  lemma {:induction false} NoneNonEmpty(heads: seq<int>)
    requires forall d :: 0 <= d < |heads| ==> heads[d] == EMPTY_WORD
    ensures NonEmptyClasses(heads) == 0
  {
    if heads != [] {
      assert heads[0] == EMPTY_WORD;
      NoneNonEmpty(heads[1..]);
    }
  }

  lemma {:induction false} OneNonEmpty(heads: seq<int>, c: nat)
    requires c < |heads| && forall d :: 0 <= d < |heads| ==> (heads[d] != EMPTY_WORD <==> d == c)
    ensures NonEmptyClasses(heads) == 1
  {
    if c == 0 {
      NoneNonEmpty(heads[1..]);
    } else {
      assert heads[0] == EMPTY_WORD;
      OneNonEmpty(heads[1..], c - 1);
    }
  }

  /**
   * Once every block of a non-empty heap is free, coalescing has left a single block, and
   * exactly one class head is not empty.
   */
  lemma AllFreeOneClass(s: Store, start: nat, end: nat)
    requires LGood(s, start, end, {}) && start < end
    requires forall x :: x in s.blocks ==> !s.blocks[x].isAllocated
    ensures |s.layout| == 1 && NonEmptyClasses(s.heads) == 1
  {
    LayoutFacts(s, start, end, {}, 0);
    assert s.layout != [];
    assert FreeListed(s, {}, 0);
    assert |s.layout| >= 2 ==> FreeListed(s, {}, 1);
    assert |s.layout| >= 2 ==> Apart(s, {}, 0);
    var x := s.layout[0];
    var c := FindSegClassIdx(s.blocks[x].size);
    assert x in s.lists[c];
    forall d | 0 <= d < MAX_SEGREGATION_CLASSES ensures s.heads[d] != EMPTY_WORD <==> d == c {
      ListFacts(s, start, end, {}, d);
      if s.lists[d] != [] {
        var y := s.lists[d][0];
        assert y in s.lists[d];
        assert y in s.blocks && FindSegClassIdx(s.blocks[y].size) == d;
        assert y in s.layout;
      }
    }
    OneNonEmpty(s.heads, c);
  }

  // ---- The first free block. ----

  /**
   * `init_first_free_mem_block` as written: the size of the first block is computed from
   * the memory grown so far, wrapping around below 16 bytes as the `usize` subtraction
   * does in a 64-bit release build (a debug build panics there), and one more page is grown when it is too small, without the size
   * being computed again. The result is the block size and the pages grown.
   */
  function InitFirstAsWritten(start: nat, grown: nat): (r: (nat, nat))
    requires start <= grown
    ensures r.0 < MAX_MEM && r.1 <= 1
    ensures r.1 == 1 <==> r.0 < MIN_MEM_BLOCK_SIZE_BYTES
  {
    var size := (grown - start - 2 * OVERHEAD) % MAX_MEM;
    (size, if size < MIN_MEM_BLOCK_SIZE_BYTES then 1 else 0)
  }

  /** With 20 bytes left, the block gets 4 bytes and ends a page short of the grown memory. */
  lemma InitFirstAsWrittenShort()
    ensures InitFirstAsWritten(65516, 65536) == (4, 1)
    ensures 65516 + 4 + 2 * OVERHEAD < 65536 + PAGE_SIZE_BYTES
  {
  }

  /** With no byte left at all, the size wraps around and the block claims memory past the heap. */
  lemma InitFirstAsWrittenWraps()
    ensures InitFirstAsWritten(65536, 65536) == (MAX_MEM - 2 * OVERHEAD, 0)
    ensures 65536 + InitFirstAsWritten(65536, 65536).0 + 2 * OVERHEAD > 65536
  {
  }

  /**
   * The first block as intended: it always fills the memory up to the end of the pages,
   * one more page being grown when what is left cannot hold a minimal block.
   */
  function InitFirstSize(start: nat, grown: nat): (r: (nat, nat))
    requires start <= grown
    ensures r.0 >= MIN_MEM_BLOCK_SIZE_BYTES && r.1 <= 1
    ensures start + r.0 + 2 * OVERHEAD == grown + r.1 * PAGE_SIZE_BYTES
    ensures r.1 == 1 <==> grown - start < MIN_MEM_BLOCK_SIZE_BYTES + 2 * OVERHEAD
  {
    if grown - start < MIN_MEM_BLOCK_SIZE_BYTES + 2 * OVERHEAD then
      (grown + PAGE_SIZE_BYTES - start - 2 * OVERHEAD, 1)
    else (grown - start - 2 * OVERHEAD, 0)
  }

  /** The pages `init_grow_if_need` leaves: at least enough for the allocator's header at `offset`. */
  function HeaderPages(offset: nat, pages: nat): (n: nat)
    ensures n >= pages && n * PAGE_SIZE_BYTES >= offset + SIZE
    ensures n == pages || n == PagesFor(offset + SIZE)
  {
    var need := PagesFor(offset + SIZE);
    if pages < need then need else pages
  }

  /**
   * The pages `init` ends with: those `init_grow_if_need` leaves, and one more when what
   * is left after the header cannot hold a minimal block.
   */
  function InitPages(offset: nat, pages: nat): (n: nat)
  {
    var p := HeaderPages(offset, pages);
    p + InitFirstSize(offset + SIZE, p * PAGE_SIZE_BYTES).1
  }

  /** The heap `init` lays out: one free block at `start`, the only entry of its class. */
  function FirstStore(start: nat, size: nat): (r: Store)
  {
    var c := FindSegClassIdx(size);
    Store(map[start := Block(size, false, EMPTY_WORD, EMPTY_WORD)],
          seq(MAX_SEGREGATION_CLASSES, d => if d == c then start else EMPTY_WORD),
          seq(MAX_SEGREGATION_CLASSES, d => if d == c then [start] else []), [start])
  }

  /** The first block keeps the invariant, and only its class is not empty. */
  lemma GoodFirst(start: nat, size: nat)
    requires EMPTY_WORD < start && start + size + 2 * OVERHEAD <= MAX_MEM
    ensures LGood(FirstStore(start, size), start, start + size + 2 * OVERHEAD, {})
    ensures NonEmptyClasses(FirstStore(start, size).heads) == 1
  {
    GoodGrownSplice(start, size);
    FirstIsSplice(start, size);
    OneNonEmpty(FirstStore(start, size).heads, FindSegClassIdx(size));
  }

  /** Growing an empty heap by one free block and splicing it into its class keeps the invariant. */
  lemma GoodGrownSplice(start: nat, size: nat)
    requires EMPTY_WORD < start && start + size + 2 * OVERHEAD <= MAX_MEM
    ensures var b := Block(size, false, EMPTY_WORD, EMPTY_WORD);
      LGood(SpliceStore(LCfg, GrowStore(Store(map[], NO_CLASSES, NO_LISTS, []), start, b), FindSegClassIdx(size), 0, start),
            start, start + size + 2 * OVERHEAD, {})
  {
    var c := FindSegClassIdx(size);
    var b := Block(size, false, EMPTY_WORD, EMPTY_WORD);
    var s0 := Store(map[], NO_CLASSES, NO_LISTS, []);
    GoodEmpty(start);
    GoodGrow(s0, start, start, b);
    var s1 := GrowStore(s0, start, b);
    assert s1.layout == [start] && s1.layout[0] == start;
    assert SlotFor(s1.lists[c], 0, start) by {
      assert s1.lists[c] == [];
    }
    GoodSplice(s1, start, start + size + 2 * OVERHEAD, {start}, 0, c, 0);
    assert {start} - {start} == {};
  }

  /** The first block is the grown block of an empty heap, spliced into its class. */
  lemma FirstIsSplice(start: nat, size: nat)
    ensures var b := Block(size, false, EMPTY_WORD, EMPTY_WORD);
      SpliceStore(LCfg, GrowStore(Store(map[], NO_CLASSES, NO_LISTS, []), start, b), FindSegClassIdx(size), 0, start) ==
      FirstStore(start, size)
  {
    var c := FindSegClassIdx(size);
    var b := Block(size, false, EMPTY_WORD, EMPTY_WORD);
    var s1 := GrowStore(Store(map[], NO_CLASSES, NO_LISTS, []), start, b);
    var s2 := SpliceStore(LCfg, s1, c, 0, start);
    var f := FirstStore(start, size);
    assert s2.blocks == f.blocks;
    assert s2.heads == f.heads;
    assert InsertAt(s1.lists[c], 0, start) == [start];
    assert s2.lists == f.lists;
  }

  // ---- The reallocation fallback. ----

  /**
   * `reallocate`'s fallback as written: the block at layout index `i`, freed and merged
   * with its right neighbour, goes straight onto the list of its class, whatever lies on
   * its left.
   */
  ghost function AddUnmergedAsWritten(m: Store, i: nat): (r: Store)
    requires i < |m.layout| && m.layout[i] in m.blocks
    requires |m.lists| == MAX_SEGREGATION_CLASSES && |m.heads| == MAX_SEGREGATION_CLASSES
    ensures r.layout == m.layout && |r.lists| == MAX_SEGREGATION_CLASSES
    ensures m.layout[i] in r.lists[FindSegClassIdx(m.blocks[m.layout[i]].size)]
  {
    var o := m.layout[i];
    var c := FindSegClassIdx(m.blocks[o].size);
    var k := SlotOf(m.lists[c], o);
    InsertAtIndex(m.lists[c], k, o);
    SpliceStore(LCfg, m, c, k, o)
  }

  /**
   * Three 16-byte blocks: a settled free block at 1000, the freed block at 1032 that
   * `reallocate` could not grow, and an allocated block at 1064.
   */
  const REALLOC_EXAMPLE: Store :=
    Store(map[1000 := Block(16, false, EMPTY_WORD, EMPTY_WORD), 1032 := Block(16, false, EMPTY_WORD, EMPTY_WORD),
              1064 := Block(16, true, EMPTY_WORD, EMPTY_WORD)],
          NO_CLASSES[0 := 1000], NO_LISTS[0 := [1000]], [1000, 1032, 1064])

  lemma ReallocExampleGood()
    ensures LGood(REALLOC_EXAMPLE, 1000, 1096, {1032})
  {
    ReallocExampleTiled();
    ReallocExampleLinked();
    ReallocExampleClassed();
    ReallocExampleApart();
  }

  lemma ReallocExampleClassed()
    ensures Classed(LCfg, REALLOC_EXAMPLE, {1032}) && Complete(LCfg, REALLOC_EXAMPLE, {1032})
    ensures AllSorted(REALLOC_EXAMPLE.lists)
  {
    var s := REALLOC_EXAMPLE;
    FindSegClassIdxSmall(16);
    forall c | 0 < c < MAX_SEGREGATION_CLASSES ensures s.lists[c] == [] {
      assert s.lists[c] == NO_LISTS[c];
    }
    forall c | 0 <= c < MAX_SEGREGATION_CLASSES ensures Sorted(s.lists[c]) {
      assert |s.lists[c]| <= 1;
    }
  }

  lemma ReallocExampleApart()
    ensures Coalesced(REALLOC_EXAMPLE, {1032})
  {
    var s := REALLOC_EXAMPLE;
    assert Apart(s, {1032}, 0) && Apart(s, {1032}, 1);
  }

  lemma ReallocExampleTiled()
    ensures Tiled(REALLOC_EXAMPLE.blocks, REALLOC_EXAMPLE.layout, 1000, 1096)
  {
    var s := REALLOC_EXAMPLE;
    assert s.layout[1..] == [1032, 1064] && s.layout[2..] == [1064] && s.layout[3..] == [];
    assert Tiles(s.blocks, [1064], 1064, 1096);
    assert Tiles(s.blocks, [1032, 1064], 1032, 1096);
  }

  lemma ReallocExampleLinked()
    ensures ListsLinked(LCfg, REALLOC_EXAMPLE)
  {
    var s := REALLOC_EXAMPLE;
    assert Linked(s.blocks, [1000], 1000, EMPTY_WORD, EMPTY_WORD);
    forall d | 0 <= d < MAX_SEGREGATION_CLASSES ensures Linked(s.blocks, s.lists[d], s.heads[d], EMPTY_WORD, EMPTY_WORD) {
      if d != 0 {
        assert s.lists[d] == [] && s.heads[d] == EMPTY_WORD;
      }
    }
  }

  /** The fallback as written leaves the two free neighbours at 1000 and 1032 both settled. */
  lemma AddUnmergedBreaks()
    ensures !Coalesced(AddUnmergedAsWritten(REALLOC_EXAMPLE, 1), {})
  {
    var s := REALLOC_EXAMPLE;
    var r := AddUnmergedAsWritten(s, 1);
    FindSegClassIdxSmall(16);
    assert SlotOf([1000], 1032) == 1;
    assert r.blocks.Keys == s.blocks.Keys;
    assert !r.blocks[1000].isAllocated && !r.blocks[1032].isAllocated;
    assert !Apart(r, {}, 0);
  }
}
