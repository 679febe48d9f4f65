# Stable-memory allocators and the stable B-tree map

This project models the core of `ic-stable-memory-allocator`, a Rust library that keeps
data structures in the stable memory of an Internet Computer canister, and proves
properties of that model. It covers four parts.

- **The segregated-fit allocator of `src/mem/allocator.rs`** (modules `AllocatorHeap`
  and `MemAllocator`).
  - The heap is a sequence of blocks. Each block carries its payload size, an
    allocation flag and two link words.
  - There are sixty size classes. A block's class is `ceil(log2(size)) - 4`, or 0 when
    that is below 1.
  - Each class keeps a doubly-linked free list threaded through the link words of its
    free blocks. The allocator's own block, which stores the class heads, is the
    sentinel of every list.
  - A freed block is merged with its free physical neighbours, then pushed at the head
    of its class.
  - To allocate, the allocator takes the first fitting block of the ideal class,
    unsplit. Failing that, it takes the head of the next non-empty larger class, and
    splits it. Failing that, it grows the heap.
  - Two persisted counters hold the free and the allocated payload bytes.
- **The older allocator of `src/stable_memory_allocator.rs`** (modules `LegacyHeap`
  and `LegacyAllocator`).
  - It has 28 classes, with class `floor(log2(size)) - 4`.
  - The class lists are kept sorted by address.
  - Within a class it chooses the smallest fitting block.
  - Its class table and magic bytes are persisted as little-endian words in front of
    the heap.
  - `reallocate` grows a block in place through its free right neighbour.
- **The flat internal-node layer of `src/collections/btree_map/internal_node.rs`**
  (module `InternalNode`). An internal node is a fixed record of `CAPACITY` key slots and
  `CHILDREN_CAPACITY` child-pointer slots. It has a hand-written binary search,
  shift-based insert and remove on both arrays, split of a full node, merge of two
  minimal nodes, and steals from either sibling. The class keeps two arrays and a length.
- **The B-tree engine of `src/collections/btree_map/mod.rs`** (modules `BTreeNodes`,
  `OrderedPairs`, `BTreeMap`, `BTreeFindings`). This is an order-6 CLRS B-tree.
  - Insert uses a pre-emptive split.
  - Delete uses borrow-or-merge, with predecessor or successor replacement.
  - Nodes are values holding their sequence of pairs and children. `SBTreeMap` is a
    class holding the root and `len`.
  - Every operation is proved against the sorted sequence of the tree's pairs and the
    abstract `map` it stands for.

Shared infrastructure:
- `FreeList` defines the block tiling and the linked-list-in-a-map predicates.
- `SegLists` defines the segregated-list invariant and the heap steps that keep it.
- `Accounting` counts payload bytes.
- `Common` holds `Option` and the sequence helpers.

Some behaviour of the code that the model keeps as written:
- The older allocator inserts each freed block into its class list at the place that
  keeps the list sorted by block address.
- The older allocator's class loop never stops early. The block it returns comes from
  the highest-index class that holds a fitting block (`LegacyHeap.LastFit`).
- The older allocator's `init` writes the magic bytes but never writes the class table.
  The table it persists is therefore right only over zeroed memory
  (`TableClear` in `LegacyHeap`).
- The newer allocator grows `size / PAGE_SIZE_BYTES + 1` pages. The model keeps this
  formula beside the corrected one (see Findings).

Constants that the source imports from files not part of this model are fixed as
follows. `membox::common` and `types.rs` are not part of this model.
- `Size` and `Word` are 64 bits wide, as on a 64-bit target. So
  `SEG_CLASS_PTRS_COUNT = Size::BITS - 4` is 60. The newer allocator's block then has
  `SIZE = 4 + 60 * 8 + 2 * 8 = 500` bytes. `AllocatorHeap.SegClassIdBelow` bounds the
  class of any size up to 2^63 by those 60 classes.
- The older allocator takes `MAX_SEGREGATION_CLASSES = 28`,
  `MAX_COLLECTION_DECLARATIONS = 64` and the magic bytes `SMAM` from `types.rs`, with an
  8-byte word. Its header then has `SIZE = 4 + 28 * 8 + 64 * 8 = 740` bytes. The
  228 bytes of the `reinit` finding (`4 + 28 * 8`) depend on these values too.
- A page is 65536 bytes.
- The overhead on each side of a block is 8 bytes.
- The minimal block and box size is 16 bytes.
- `EMPTY_WORD` is 0, and `EMPTY_PTR` is the all-ones 64-bit word.
- `B` is 6, with `CAPACITY = 2B - 1` and `CHILDREN_CAPACITY = 2B`.

The host memory is a sequence of `byte` (the integers 0 to 255) together with a page count
and a page limit. Growing fails exactly when the limit would be passed.

## Model

| member | source | states |
|---|---|---|
| AllocatorHeap.SegClassIdSmall | src/mem/allocator.rs:378-390 | every size up to the minimal box size gets class 0 |
| AllocatorHeap.SegClassIdLarge | src/mem/allocator.rs:378-390 | a size above 16 gets the class c with 2^(c+3) < size <= 2^(c+4), i.e. ceil(log2 size) - 4 |
| AllocatorHeap.SegClassIdBounds | src/mem/allocator.rs:378-390 | both cases of the class formula in one statement |
| AllocatorHeap.SegClassIdUnique | src/mem/allocator.rs:378-390 | the class of a size above 16 is the only c with 2^(c+3) < size <= 2^(c+4) |
| AllocatorHeap.SegClassIdMono | src/mem/allocator.rs:378-390 | a larger size never gets a smaller class |
| AllocatorHeap.SegClassIdBelow | src/mem/allocator.rs:371-390 | every size up to 2^63 gets a class below SEG_CLASS_PTRS_COUNT, so its head slot lies inside the allocator block |
| AllocatorHeap.LargerClassFits | src/mem/allocator.rs:202-218 | a block of a strictly larger class is strictly larger than the request |
| AllocatorHeap.SegClassIdIsClassOf | src/mem/allocator.rs:378-390 | the fast_log2 formula equals an independent recursive class definition |
| AllocatorHeap.FastLog2 | src/mem/allocator.rs:379 | the result r satisfies 2^r <= n < 2^(r+1) for n >= 1 |
| AllocatorHeap.GrowPages | src/mem/allocator.rs:239-243 | the fewest pages whose block, after both headers, holds the request |
| AllocatorHeap.GrownBlock | src/mem/allocator.rs:239-250 | the block laid over the grown pages holds at least the requested size |
| AllocatorHeap.GrowPagesAsWritten | src/mem/allocator.rs:240 | the page count of the code; the block over those pages is smaller than the request exactly when the request ends in the last 16 bytes of a page |
| AllocatorHeap.GrowPagesAsWrittenTooSmall | src/mem/allocator.rs:240-267 | for 65530 bytes the code grows one page whose block holds 65520 bytes, less than asked |
| AllocatorHeap.FirstFit | src/mem/allocator.rs:180-200 | the index of the first block of a list that fits, every earlier block being too small; None when no block fits |
| AllocatorHeap.NextNonEmpty | src/mem/allocator.rs:206-218 | the first class at or above d with a non-empty head, every class before it being empty; None when all are empty |
| AllocatorHeap.LargerHeadsFit | src/mem/allocator.rs:206-218 | under the heap invariant every head of a class above the ideal one fits, so the too-small last head case cannot occur |
| AllocatorHeap.BoxSize | src/mem/allocator.rs:77-79 | a request is raised to at least the minimal box size and never lowered |
| AllocatorHeap.FreeCounterDrift | src/mem/allocator.rs:85-103 | over any steps without a reset, the counter as written equals the free payload bytes plus 16 for every split less 16 for every merge |
| AllocatorHeap.FreeCounterGap | src/mem/allocator.rs:223-259 | from any two starting values, the counter as written and the free payload bytes keep their gap, widened by 16 per split and narrowed by 16 per merge |
| AllocatorHeap.FreeCounterSplitAsWritten | src/mem/allocator.rs:220-233 | after reset in one page and allocate(100), which splits the free block, the counter as written says 64904 while 64888 bytes are free |
| AllocatorHeap.FreeCounterUnderflowAsWritten | src/mem/allocator.rs:331-365 | after reset, a grown and split allocation, its release with two merges and one whole allocation, the counter as written is -16 while the free payload bytes are 0 |
| AllocatorHeap.GoodEject | src/mem/allocator.rs:301-329 | unlinking a listed free block keeps the heap invariant with that block floating, and keeps every other header |
| AllocatorHeap.GoodTake | src/mem/allocator.rs:85-89 | marking a floating free block allocated keeps the invariant, the counter offsets moving by its size |
| AllocatorHeap.GoodFree | src/mem/allocator.rs:94-103 | marking an allocated block free keeps the invariant with that block floating |
| AllocatorHeap.GoodSplice | src/mem/allocator.rs:149-172 | linking a floating block with no free neighbour into its class list settles it and keeps the invariant |
| AllocatorHeap.GoodSplit | src/mem/allocator.rs:223-259 | cutting a floating block in two keeps the tiling and leaves both halves floating |
| AllocatorHeap.GoodMerge | src/mem/allocator.rs:331-365 | joining two adjacent floating blocks keeps the tiling with the joined block floating |
| AllocatorHeap.GoodGrow | src/mem/allocator.rs:239-250 | a free block laid over new pages at the old end keeps the invariant up to the new end |
| AllocatorHeap.AbsorbLeft | src/mem/allocator.rs:333-348 | after absorbing the free left neighbour, the merged block's left neighbour is not free |
| AllocatorHeap.AbsorbRight | src/mem/allocator.rs:349-363 | after absorbing the free right neighbour, the merged block's right neighbour is not free |
| MemAllocator.StableMemoryAllocator.EjectWrites | src/mem/allocator.rs:301-329 | the link writes of the unlink: the list loses the block, the neighbours are relinked, the head moves to the successor when the block was the head |
| MemAllocator.StableMemoryAllocator.Eject | src/mem/allocator.rs:301-329 | the block ends with both links EMPTY_PTR, off its list, other lists untouched, and the invariant holds with it floating |
| MemAllocator.StableMemoryAllocator.PushWrites | src/mem/allocator.rs:155-172 | the block becomes the head of its class with the allocator as its prev, and the old head's prev becomes the block |
| MemAllocator.StableMemoryAllocator.PushFront | src/mem/allocator.rs:155-172 | a floating block with no free neighbour is pushed at the head of its class, settling it |
| MemAllocator.StableMemoryAllocator.EjectMergePrev | src/mem/allocator.rs:333-341 | the free left neighbour is unlinked and the two blocks become one |
| MemAllocator.StableMemoryAllocator.AbsorbPrev | src/mem/allocator.rs:333-347 | as EjectMergePrev, and no free block is left on the left; the free counter gains the 16 header bytes that become payload, the corrected counting of Findings (the code leaves the counter as it is) |
| MemAllocator.StableMemoryAllocator.EjectMergeNext | src/mem/allocator.rs:349-357 | the free right neighbour is unlinked and absorbed: sizes add up with both headers |
| MemAllocator.StableMemoryAllocator.AbsorbNext | src/mem/allocator.rs:349-363 | as EjectMergeNext, and neither neighbour is free afterwards; the free counter gains the 16 header bytes that become payload, the corrected counting of Findings (the code leaves the counter as it is) |
| MemAllocator.StableMemoryAllocator.MergeLeft | src/mem/allocator.rs:331-348 | either nothing changes or the block is absorbed into the free block ending at its start |
| MemAllocator.StableMemoryAllocator.JoinPrev | src/mem/allocator.rs:336-341 | a free left neighbour that ends where the block starts absorbs it, and no free block is left on its left |
| MemAllocator.StableMemoryAllocator.MergeRight | src/mem/allocator.rs:349-365 | the block only grows and ends with no free right neighbour |
| MemAllocator.StableMemoryAllocator.MaybeMergeWithFreeNeighbors | src/mem/allocator.rs:331-365 | the result has no free neighbour on either side, and the invariant holds with it the only floating block |
| MemAllocator.StableMemoryAllocator.PushFreeMembox | src/mem/allocator.rs:149-172 | merge then push restores the full invariant and leaves the block free |
| MemAllocator.StableMemoryAllocator.SearchClass | src/mem/allocator.rs:180-200 | the walk down one class finds exactly the first fitting block |
| MemAllocator.StableMemoryAllocator.SearchLarger | src/mem/allocator.rs:202-218 | the scan over the larger classes stops at the first non-empty head |
| MemAllocator.StableMemoryAllocator.MarkAllocated | src/mem/allocator.rs:85-89 | only the flag of the block changes, and the invariant's counter offsets move by its size |
| MemAllocator.StableMemoryAllocator.MarkFree | src/mem/allocator.rs:94-103 | only the flag of the block changes, and the counter offsets move back by its size |
| MemAllocator.StableMemoryAllocator.AddFree | src/mem/allocator.rs:281-287 | the free counter moves by delta, the invariant's offset compensating |
| MemAllocator.StableMemoryAllocator.AddAllocated | src/mem/allocator.rs:273-279 | the allocated counter moves by delta, the invariant's offset compensating |
| MemAllocator.StableMemoryAllocator.SplitWrites | src/mem/allocator.rs:223-259 | the header writes of a cut: the front keeps the offset and the rest starts after it |
| MemAllocator.StableMemoryAllocator.Split | src/mem/allocator.rs:223-259 | a cut happens exactly when the rest can hold a minimal block; the rest floats beside the front |
| MemAllocator.StableMemoryAllocator.SplitCounted | src/mem/allocator.rs:223-259 | a cut with the free counter lowered by the two headers it costs, keeping the counters exact |
| MemAllocator.StableMemoryAllocator.Merge | src/mem/allocator.rs:331-365 | two adjacent floating blocks become one whose size is both sizes plus both headers |
| MemAllocator.StableMemoryAllocator.GrowWrites | src/mem/allocator.rs:239-250 | the new pages are zeroed memory and the new block starts at the old end |
| MemAllocator.StableMemoryAllocator.GrowFreeBlock | src/mem/allocator.rs:239-253 | growth succeeds exactly within the page limit and lays one floating block of n pages minus the headers at the old end; otherwise nothing changes |
| MemAllocator.StableMemoryAllocator.TakeFloating | src/mem/allocator.rs:223-267 | the floating block is cut to the size when it can be, marked allocated, and the rest pushed |
| MemAllocator.StableMemoryAllocator.TakeListed | src/mem/allocator.rs:184-193 | a listed free block is unlinked and marked allocated at its full size |
| MemAllocator.StableMemoryAllocator.PopFirstFit | src/mem/allocator.rs:180-200 | stage one returns exactly the first fitting block of the ideal class, unsplit; on a miss nothing changes |
| MemAllocator.StableMemoryAllocator.TakeHead | src/mem/allocator.rs:220-233 | the chosen head is unlinked, cut to the size when possible and allocated |
| MemAllocator.StableMemoryAllocator.PopLarger | src/mem/allocator.rs:202-237 | stage two takes the head of the first non-empty larger class, which is larger than the request; on a miss nothing changes |
| MemAllocator.StableMemoryAllocator.PopGrown | src/mem/allocator.rs:238-269 | stage three succeeds exactly within the page limit and returns the block at the old end of the heap |
| MemAllocator.StableMemoryAllocator.PopBeyond | src/mem/allocator.rs:202-269 | stages two and three: the head of the first non-empty larger class, else the block at the old end when growth stays within the limit; on failure nothing changes |
| MemAllocator.StableMemoryAllocator.PopAllocatedMembox | src/mem/allocator.rs:175-271 | the result follows the three stages in order; it is a block that was not allocated, now allocated and at least as large as the request |
| MemAllocator.StableMemoryAllocator.Allocate | src/mem/allocator.rs:76-92 | keeps the invariant; on success the block is allocated, at least BoxSize(size) bytes, newly taken, and the allocated counter grows by its size; failure changes nothing |
| MemAllocator.StableMemoryAllocator.CountAllocated | src/mem/allocator.rs:85-89 | the block's size moves from the free counter to the allocated counter, restoring the invariant |
| MemAllocator.StableMemoryAllocator.Release | src/mem/allocator.rs:94-103 | the block's size moves back from the allocated to the free counter and the block floats free |
| MemAllocator.StableMemoryAllocator.Deallocate | src/mem/allocator.rs:94-107 | keeps the invariant, the allocated counter drops by the block's size, and the block is no longer allocated |
| MemAllocator.AllFreedCountsZero | src/mem/allocator.rs:466-471 | once only the allocator's own block is allocated, the allocated counter is 0, whatever happened before |
| MemAllocator.StableMemoryAllocator.WritePayload | src/mem/allocator.rs:119 | the bytes land OVERHEAD bytes past the block's offset, nothing else of memory changes, and the blocks, counters and invariant are kept |
| MemAllocator.StableMemoryAllocator.AllocateCopy | src/mem/allocator.rs:118-119 | a new block of at least the size whose payload starts with the given bytes |
| MemAllocator.StableMemoryAllocator.CopyTo | src/mem/allocator.rs:119 | the bytes are stored at the front of the payload of the block given, if any, and the blocks and counters stay as they are |
| MemAllocator.StableMemoryAllocator.Reallocate | src/mem/allocator.rs:109-122 | on success the new block holds the old payload at its start and is at least the new size; the old block is freed in every case |
| MemAllocator.StableMemoryAllocator.Reset | src/mem/allocator.rs:124-147 | all counters restart: nothing is allocated, and the rest of memory is one free block whose size is the free counter, or nothing when no byte is left; a leftover of 1 to 15 bytes stops it with the classes emptied and the counters cleared |
| MemAllocator.StableMemoryAllocator.LayHeap | src/mem/allocator.rs:134-146 | lays the allocator block alone or followed by one free block reaching the end of memory; ok is false exactly for a leftover of 1 to 15 bytes, and then nothing is laid |
| MemAllocator.StableMemoryAllocator.LayFree | src/mem/allocator.rs:139-146 | the free block after the allocator reaches the end of memory and is the only free block |
| MemAllocator.StableMemoryAllocator.FreshWrites | src/mem/allocator.rs:139-145 | the two headers of a fresh heap, with the free block next to no other free block |
| MemAllocator.StableMemoryAllocator.Place | src/mem/allocator.rs:51-53 | the allocator's block alone at the offset, with the magic bytes at the front of its payload |
| MemAllocator.StableMemoryAllocator.Init | src/mem/allocator.rs:50-57 | writes the magic bytes and resets: a valid allocator, nothing allocated, the free block covering the rest; ok is false exactly when 1 to 15 bytes are left after the allocator's block |
| MemAllocator.Reinit | src/mem/allocator.rs:60-74 | None unless the block at the offset is allocated, has the allocator's size and starts with the magic bytes |
| MemAllocator.ReinitFinds | src/mem/allocator.rs:60-74 | every allocator that keeps its invariant is found again at its own offset |
| MemAllocator.MagicWrite | src/mem/allocator.rs:50-57 | writes past the magic bytes keep them |
| MemAllocator.MagicAppend | src/mem/allocator.rs:239-243 | growing memory keeps the magic bytes |
| LegacyHeap.FindSegClassIdx | src/stable_memory_allocator.rs:476-484 | every class index is below MAX_SEGREGATION_CLASSES |
| LegacyHeap.FindSegClassIdxBounds | src/stable_memory_allocator.rs:476-484 | for 16 <= size < 2^32 the class c satisfies 2^(c+4) <= size < 2^(c+5), i.e. floor(log2 size) - 4 |
| LegacyHeap.FindSegClassIdxSmall | src/stable_memory_allocator.rs:476-484 | sizes below 32 get class 0 |
| LegacyHeap.FindSegClassIdxTruncates | src/stable_memory_allocator.rs:478 | the 32-bit cast puts 2^32 + 16 in the same class as 16 |
| LegacyHeap.PagesFor | src/stable_memory_allocator.rs:236-239 | the fewest pages holding the bytes |
| LegacyHeap.LeRoundTrip | src/stable_memory_allocator.rs:497-502 | reading back n little-endian bytes gives the word written |
| LegacyHeap.WordAfterWrite | src/stable_memory_allocator.rs:497-502 | a word write changes that word only |
| LegacyHeap.TableAfterWrite | src/stable_memory_allocator.rs:486-503 | writing a head's word keeps the persisted table in step with the class array |
| LegacyHeap.MagicAfterWrite | src/stable_memory_allocator.rs:497-502 | table writes keep the magic bytes |
| LegacyHeap.AppendKeeps | src/stable_memory_allocator.rs:528-548 | growing memory keeps the magic bytes and the table |
| LegacyHeap.ReadTable | src/stable_memory_allocator.rs:183-201 | the table read back holds, at every index, the word stored at that slot |
| LegacyHeap.Reinit | src/stable_memory_allocator.rs:174-228 | fails with InvalidMagicSequence exactly when the magic bytes are wrong, otherwise keeps the allocator's offset |
| LegacyHeap.ReinitRestores | src/stable_memory_allocator.rs:174-228 | over memory whose table is in step with the classes, reinit gives back exactly those classes |
| LegacyHeap.ReinitAsWrittenMovesOffset | src/stable_memory_allocator.rs:174-228 | as written, reinit returns the offset moved 228 bytes past the header's start |
| LegacyHeap.TableAfterMagic | src/stable_memory_allocator.rs:161-165 | writing the magic bytes keeps the persisted table |
| LegacyHeap.ClearPersists | src/stable_memory_allocator.rs:156-172 | a zeroed table is in step with the all-empty class array |
| LegacyHeap.ClearAfterMagic | src/stable_memory_allocator.rs:161-165 | writing the magic bytes keeps a zeroed table zeroed |
| LegacyHeap.ClearAfterAppend | src/stable_memory_allocator.rs:528-548 | growing memory keeps a zeroed table zeroed |
| LegacyHeap.SlotOf | src/stable_memory_allocator.rs:304-364 | the insertion position that keeps a sorted list sorted |
| LegacyHeap.SlotOfIs | src/stable_memory_allocator.rs:304-364 | the position is unique: any slot between smaller and larger offsets is SlotOf |
| LegacyHeap.SortedInsert | src/stable_memory_allocator.rs:304-364 | inserting at the slot keeps a list ascending |
| LegacyHeap.SortedRemove | src/stable_memory_allocator.rs:257-292 | removing any element keeps a list ascending |
| LegacyHeap.LastFit | src/stable_memory_allocator.rs:377-446 | the highest class in range with a fitting block, no higher class fitting; None when none fits |
| LegacyHeap.GoodEject | src/stable_memory_allocator.rs:257-292 | unlinking keeps the invariant with the block floating and its header unchanged |
| LegacyHeap.EjectNeighbours | src/stable_memory_allocator.rs:62-107 | a block just unlinked has no free listed neighbour |
| LegacyHeap.GoodSplice | src/stable_memory_allocator.rs:294-364 | linking a floating block with no free neighbour at its sorted slot settles it |
| LegacyHeap.GoodSplit | src/stable_memory_allocator.rs:550-565 | cutting a block keeps the tiling, and the rest is a new floating block |
| LegacyHeap.GoodMerge | src/stable_memory_allocator.rs:62-107 | joining two floating neighbours keeps the tiling |
| LegacyHeap.GoodGrow | src/stable_memory_allocator.rs:230-255 | a block over the new pages keeps the invariant up to the new end |
| LegacyHeap.GoodSetBlock | src/stable_memory_allocator.rs:46-60 | flipping a flag of a floating or allocated block keeps the invariant |
| LegacyHeap.SettledNeighbours | src/stable_memory_allocator.rs:62-107 | the neighbours of a settled free block are allocated, so try_merge's recursive call merges nothing |
| LegacyHeap.AbsorbLeft | src/stable_memory_allocator.rs:86-101 | after merging into the free left neighbour, no free neighbour is left on the left |
| LegacyHeap.AbsorbRight | src/stable_memory_allocator.rs:69-85 | after merging with the free right neighbour, no free neighbour is left on the right |
| LegacyHeap.Freed | src/stable_memory_allocator.rs:46-60 | a freed header keeps its size and has empty links |
| LegacyHeap.NonEmptyClasses | src/stable_memory_allocator.rs:715-724 | the count of non-empty class heads is at most the number of classes |
| LegacyHeap.OneNonEmpty | src/stable_memory_allocator.rs:715-724 | exactly one non-empty head counts one |
| LegacyHeap.AllFreeOneClass | src/stable_memory_allocator.rs:688-724 | when every block is free the heap is one block and exactly one class is non-empty |
| LegacyHeap.InitFirstSize | src/stable_memory_allocator.rs:452-474 | the first block is at least minimal and ends exactly at the end of the memory, grown by one page when needed |
| LegacyHeap.InitFirstAsWritten | src/stable_memory_allocator.rs:462-469 | the code's size, wrapping modulo 2^64 as the usize subtraction of :463 does in a 64-bit release build (a debug build panics instead), with one page grown exactly when it is below the minimum |
| LegacyHeap.InitFirstAsWrittenShort | src/stable_memory_allocator.rs:462-469 | with 20 bytes left the code keeps size 4 and the block ends a page short |
| LegacyHeap.InitFirstAsWrittenWraps | src/stable_memory_allocator.rs:462-469 | with no byte left the size wraps and the block claims memory past the heap |
| LegacyHeap.HeaderPages | src/stable_memory_allocator.rs:528-548 | the pages after init_grow_if_need hold the header; they are the old pages or just enough |
| LegacyHeap.GoodGrownSplice | src/stable_memory_allocator.rs:452-474 | a block over empty memory, listed in its class, meets the invariant |
| LegacyHeap.GoodFirst | src/stable_memory_allocator.rs:452-474 | the first free block alone meets the invariant with exactly one class non-empty |
| LegacyHeap.AddUnmergedAsWritten | src/stable_memory_allocator.rs:133-135 | the fallback pushes the block on its class list without merging its left neighbour |
| LegacyHeap.ReallocExampleGood | src/stable_memory_allocator.rs:123-135 | the three-block example heap meets the invariant with the freed block floating |
| LegacyHeap.AddUnmergedBreaks | src/stable_memory_allocator.rs:123-135 | as written, the example ends with two adjacent free blocks |
| LegacyAllocator.StableMemoryAllocator.SetSegregationClass | src/stable_memory_allocator.rs:486-503 | the head is set in the array and in its persisted word; magic and table stay in step |
| LegacyAllocator.StableMemoryAllocator.RemoveWrites | src/stable_memory_allocator.rs:257-292 | the unlink on the heap, with the table word rewritten only when the head changed |
| LegacyAllocator.StableMemoryAllocator.UnlinkInner | src/stable_memory_allocator.rs:276-290 | a non-head block is unlinked without touching the table |
| LegacyAllocator.StableMemoryAllocator.UnlinkHead | src/stable_memory_allocator.rs:262-275 | a head is unlinked and its successor, or EMPTY_WORD, becomes the head |
| LegacyAllocator.StableMemoryAllocator.RemoveBlockFromFreeList | src/stable_memory_allocator.rs:257-292 | the block's header stays, it floats, and the invariant and persisted table are kept |
| LegacyAllocator.StableMemoryAllocator.LinkOnly | src/stable_memory_allocator.rs:300-309 | the block becomes the only member and head of an empty class |
| LegacyAllocator.StableMemoryAllocator.LinkBeforeHead | src/stable_memory_allocator.rs:316-329 | a block below the head becomes the new head |
| LegacyAllocator.StableMemoryAllocator.LinkAfter | src/stable_memory_allocator.rs:346-355 | a block above every member is linked at the end |
| LegacyAllocator.StableMemoryAllocator.LinkBetween | src/stable_memory_allocator.rs:336-345 | a block goes between the two members around its address |
| LegacyAllocator.StableMemoryAllocator.LinkAlong | src/stable_memory_allocator.rs:331-362 | the walk finds the sorted slot and links there |
| LegacyAllocator.StableMemoryAllocator.AddWrites | src/stable_memory_allocator.rs:294-364 | the block is inserted at its sorted slot; the table word changes only when it becomes the head |
| LegacyAllocator.StableMemoryAllocator.AddBlockToFreeList | src/stable_memory_allocator.rs:294-364 | the free block is settled at its sorted slot, lists stay ascending and linked, persisted table in step |
| LegacyAllocator.StableMemoryAllocator.ScanClass | src/stable_memory_allocator.rs:377-446 | a class holds a fit exactly when found, and then the result has the smallest surplus in that class |
| LegacyAllocator.StableMemoryAllocator.ScanRest | src/stable_memory_allocator.rs:390-444 | the rest of the walk keeps the best fit so far |
| LegacyAllocator.StableMemoryAllocator.FindAppropriateFreeMemBlock | src/stable_memory_allocator.rs:368-449 | None exactly when no class at or above the ideal one fits; otherwise the best fit of the last class with a fit |
| LegacyAllocator.StableMemoryAllocator.SplitWrites | src/stable_memory_allocator.rs:550-565 | the header writes of a cut |
| LegacyAllocator.StableMemoryAllocator.Split | src/stable_memory_allocator.rs:556-561 | the front keeps the size and the rest is a new free block right after it |
| LegacyAllocator.StableMemoryAllocator.SplitIfNeeded | src/stable_memory_allocator.rs:550-565 | cuts exactly when the surplus is at least a minimal block, and lists the rest; the block ends within a minimal block of the size |
| LegacyAllocator.StableMemoryAllocator.GrowWrites | src/stable_memory_allocator.rs:230-255 | the new pages are zeroed and the new block starts at the old end |
| LegacyAllocator.StableMemoryAllocator.GrowAndCreateNewFreeBlock | src/stable_memory_allocator.rs:230-255 | whole pages rounded up; OutOfMemory exactly past the limit; the block sits at the old end with pages times PAGE minus headers |
| LegacyAllocator.StableMemoryAllocator.MarkFree | src/stable_memory_allocator.rs:46-60 | only the block's header changes: free, same size, empty links |
| LegacyAllocator.StableMemoryAllocator.MarkAllocated | src/stable_memory_allocator.rs:39-41 | only the block's flag changes |
| LegacyAllocator.StableMemoryAllocator.Merge | src/stable_memory_allocator.rs:62-107 | two floating neighbours become one block of both sizes plus both headers |
| LegacyAllocator.StableMemoryAllocator.RemoveMergePrev | src/stable_memory_allocator.rs:86-101 | the free left neighbour is unlinked and the block absorbed into it |
| LegacyAllocator.StableMemoryAllocator.AbsorbPrev | src/stable_memory_allocator.rs:86-101 | as RemoveMergePrev, with no free block left on the left |
| LegacyAllocator.StableMemoryAllocator.RemoveMergeNext | src/stable_memory_allocator.rs:69-85 | the free right neighbour is unlinked and absorbed |
| LegacyAllocator.StableMemoryAllocator.AbsorbNext | src/stable_memory_allocator.rs:69-85 | as RemoveMergeNext, with no free block left on the right |
| LegacyAllocator.StableMemoryAllocator.MergeLeft | src/stable_memory_allocator.rs:86-101 | either nothing changes or the block joins its free left neighbour |
| LegacyAllocator.StableMemoryAllocator.MergeRight | src/stable_memory_allocator.rs:69-85 | the block gains its right neighbour exactly when that is free; otherwise nothing changes |
| LegacyAllocator.StableMemoryAllocator.Deallocate | src/stable_memory_allocator.rs:46-60 | keeps the invariant and the persisted table; the block is no longer allocated and every other allocated block keeps its header |
| LegacyAllocator.StableMemoryAllocator.TakeFloating | src/stable_memory_allocator.rs:34-41 | the floating block is cut if needed and allocated within a minimal block of the size |
| LegacyAllocator.StableMemoryAllocator.TakeFound | src/stable_memory_allocator.rs:30-33 | the found block is unlinked, cut if needed and allocated |
| LegacyAllocator.StableMemoryAllocator.TakeGrown | src/stable_memory_allocator.rs:25-44 | growth for size plus headers; OutOfMemory exactly past the limit; the block starts at the old end |
| LegacyAllocator.StableMemoryAllocator.Allocate | src/stable_memory_allocator.rs:25-44 | a fit gives the best fit of the last fitting class; otherwise it grows or fails with OutOfMemory, changing nothing; a success is a newly allocated block within a minimal block of the size |
| LegacyAllocator.StableMemoryAllocator.ReleaseRight | src/stable_memory_allocator.rs:117-121 | the block is freed and absorbs its free right neighbour |
| LegacyAllocator.StableMemoryAllocator.Relocate | src/stable_memory_allocator.rs:123-135 | the freed block is merged on its left as well and listed, then a new block is allocated elsewhere, or OutOfMemory with the block freed |
| LegacyAllocator.StableMemoryAllocator.Reallocate | src/stable_memory_allocator.rs:109-136 | same offset when the block suffices or absorbing the free right neighbour suffices; otherwise a different offset or OutOfMemory |
| LegacyAllocator.StableMemoryAllocator.FromFirstBlock | src/stable_memory_allocator.rs:452-474 | an allocator whose heap is the one first block, its class head set and persisted |
| LegacyAllocator.InitGrowIfNeed | src/stable_memory_allocator.rs:528-548 | grows to hold the header, with OutOfMemory exactly past the limit |
| LegacyAllocator.InitFirstFreeMemBlock | src/stable_memory_allocator.rs:452-474 | one free block ending exactly at the end of memory, one class non-empty, OutOfMemory exactly past the limit |
| LegacyAllocator.Init | src/stable_memory_allocator.rs:156-172 | OutOfMemory exactly past the page limit; otherwise a valid allocator whose heap is one free block ending at the end of memory, with exactly one class non-empty; over zeroed memory its table is persisted and reinit restores it |
| InternalNode.InternalBTreeNode.CreateEmpty | src/collections/btree_map/internal_node.rs:50-61 | a valid node of length 0 with fresh arrays |
| InternalNode.InternalBTreeNode.Create | src/collections/btree_map/internal_node.rs:63-80 | a node of length 1 holding the key between its two child pointers |
| InternalNode.InternalBTreeNode.WriteLen | src/collections/btree_map/internal_node.rs:354-357 | the length is set |
| InternalNode.InternalBTreeNode.BinarySearch | src/collections/btree_map/internal_node.rs:87-130 | Ok(i) exactly when the key is present, at i; Err(i) splits the keys into smaller and larger; with length 0 the first probe reads the stale slot 0, so the answer is Ok(0), Err(0) or Err(1) from that slot |
| InternalNode.InternalBTreeNode.ReadKeysToBuf | src/collections/btree_map/internal_node.rs:305-309 | the buffer is that range of keys |
| InternalNode.InternalBTreeNode.WriteKeysFromBuf | src/collections/btree_map/internal_node.rs:327-330 | that range of keys becomes the buffer; the rest is unchanged |
| InternalNode.InternalBTreeNode.ReadChildPtrsToBuf | src/collections/btree_map/internal_node.rs:316-320 | the buffer is that range of child pointers |
| InternalNode.InternalBTreeNode.WriteChildPtrsFromBuf | src/collections/btree_map/internal_node.rs:337-340 | that range of child pointers becomes the buffer; the rest is unchanged |
| InternalNode.InternalBTreeNode.PushKey | src/collections/btree_map/internal_node.rs:222-224 | only slot len changes |
| InternalNode.InternalBTreeNode.InsertKey | src/collections/btree_map/internal_node.rs:226-236 | the key at idx with keys[idx..len) one slot up, lower slots unchanged; a plain push at idx == len |
| InternalNode.InternalBTreeNode.RemoveKey | src/collections/btree_map/internal_node.rs:238-246 | keys above idx one slot down, lower slots unchanged; nothing written at idx == len - 1 |
| InternalNode.InternalBTreeNode.PushChildPtr | src/collections/btree_map/internal_node.rs:248-250 | only slot childrenLen changes |
| InternalNode.InternalBTreeNode.InsertChildPtr | src/collections/btree_map/internal_node.rs:252-268 | the same shift as InsertKey over the child slots |
| InternalNode.InternalBTreeNode.RemoveChildPtr | src/collections/btree_map/internal_node.rs:270-277 | the same shift as RemoveKey over the child slots |
| InternalNode.ShiftInLive | src/collections/btree_map/internal_node.rs:226-236 | on the live slots the shift is insertion into the sequence |
| InternalNode.ShiftOutLive | src/collections/btree_map/internal_node.rs:238-246 | on the live slots the shift is removal from the sequence |
| InternalNode.ShiftOutShiftIn | src/collections/btree_map/internal_node.rs:226-246 | removing at idx after inserting at idx gives back the live slots |
| InternalNode.InternalBTreeNode.ReadLeftSibling | src/collections/btree_map/internal_node.rs:279-287 | None exactly at idx 0, else the child to the left |
| InternalNode.InternalBTreeNode.ReadRightSibling | src/collections/btree_map/internal_node.rs:289-297 | None exactly at idx == len, else the child to the right |
| InternalNode.InternalBTreeNode.StealFromLeft | src/collections/btree_map/internal_node.rs:132-156 | the parent key and the left sibling's last child come in at the front; the parent key becomes the left sibling's last key |
| InternalNode.InternalBTreeNode.StealFromRight | src/collections/btree_map/internal_node.rs:158-191 | the parent key and the right sibling's first child come in at the end; the parent key becomes the right sibling's first key, which shifts left |
| InternalNode.InternalBTreeNode.SplitMaxLen | src/collections/btree_map/internal_node.rs:193-207 | a fresh right node gets keys [B, B+5) and children [B, B+6); the median is key 5; the left node is unchanged |
| InternalNode.InternalBTreeNode.MergeMinLen | src/collections/btree_map/internal_node.rs:209-219 | the left keys, the median and the right keys, and both child halves, in order |
| InternalNode.SplitMergeRoundTrip | src/collections/btree_map/internal_node.rs:485-533 | merge after split restores all CAPACITY keys and all children of a full node |
| OrderedPairs.Lookup | src/collections/btree_map/mod.rs:86-98 | a key has a value exactly when present, and the pair is in the sequence |
| OrderedPairs.LookupUpsert | src/collections/btree_map/mod.rs:38-61 | after insert the key maps to the new value and other keys are unchanged |
| OrderedPairs.LookupWithout | src/collections/btree_map/mod.rs:63-68 | after removal the key is absent and other keys are unchanged |
| OrderedPairs.ToMapUpsert | src/collections/btree_map/mod.rs:38-61 | insert is map update |
| OrderedPairs.ToMapWithout | src/collections/btree_map/mod.rs:63-68 | remove is map key removal |
| OrderedPairs.UpsertSorted | src/collections/btree_map/mod.rs:117-144 | insert keeps the pairs strictly ascending |
| OrderedPairs.WithoutSorted | src/collections/btree_map/mod.rs:171-242 | removal keeps the pairs strictly ascending |
| BTreeNodes.EntriesSorted | src/collections/btree_map/mod.rs:567-588 | the in-order pairs of a sorted tree are ascending within every node |
| BTreeNodes.SplitElements | src/collections/btree_map/mod.rs:146-169 | splitting a child keeps the in-order pairs |
| BTreeNodes.SplitTree | src/collections/btree_map/mod.rs:146-169 | both halves get B-1 keys, the median goes up at idx, and the tree stays balanced |
| BTreeNodes.RotateElements | src/collections/btree_map/mod.rs:364-404 | a rotation keeps the in-order pairs |
| BTreeNodes.RotateTree | src/collections/btree_map/mod.rs:364-404 | child gains one pair, sibling loses one, parent count unchanged, tree balanced |
| BTreeNodes.RotateOrder | src/collections/btree_map/mod.rs:364-404 | the separating key moves toward the sibling it came from |
| BTreeNodes.MergeElements | src/collections/btree_map/mod.rs:319-362 | a merge keeps the in-order pairs |
| BTreeNodes.MergeTree | src/collections/btree_map/mod.rs:319-362 | child, separator and sibling become one node; parent loses one key and child; an emptied root is replaced by the merged child |
| BTreeMap.Search | src/collections/btree_map/mod.rs:90-98 | Ok(i) at the key; Err(i) with smaller keys before i and a larger key at i |
| BTreeMap.SearchSorted | src/collections/btree_map/mod.rs:90-98 | on sorted pairs Ok exactly when the key is present |
| BTreeMap.NodeGet | src/collections/btree_map/mod.rs:90-98 | the descent finds exactly the value the in-order pairs hold |
| BTreeMap.NodeContainsKey | src/collections/btree_map/mod.rs:104-115 | true exactly when the key is among the tree's keys |
| BTreeMap.InsertNonFull | src/collections/btree_map/mod.rs:117-144 | the tree stays balanced and its pairs are the upsert; the result is the old value |
| BTreeMap.InsertIntoChild | src/collections/btree_map/mod.rs:126-140 | inserting through a non-full child is an upsert of the whole node |
| BTreeMap.LeafInsert | src/collections/btree_map/mod.rs:121-125 | inserting into a leaf at the search position is an upsert of a new key |
| BTreeMap.SplitChild | src/collections/btree_map/mod.rs:146-169 | same pairs, one more key at idx equal to the child's median, both halves of B-1 keys |
| BTreeMap.Delete | src/collections/btree_map/mod.rs:171-242 | the pairs lose exactly the key, the result is its old value, and the tree stays balanced; the height drops only by an emptied root |
| BTreeMap.DeleteDescend | src/collections/btree_map/mod.rs:183-238 | deleting below a node, after borrow or merge, removes exactly the key |
| BTreeMap.Rebalance | src/collections/btree_map/mod.rs:196-231 | the child on the path ends with at least B keys by rotation or merge |
| BTreeMap.RotatedFor | src/collections/btree_map/mod.rs:196-215 | rotating into the deficient child keeps the pairs and gives it B keys |
| BTreeMap.MergedFor | src/collections/btree_map/mod.rs:216-231 | merging around the deficient child keeps the pairs; an emptied root gives a full root one level lower |
| BTreeMap.LeafRemove | src/collections/btree_map/mod.rs:174-178 | removing from a leaf removes exactly that key and finds its value |
| BTreeMap.LeafAbsent | src/collections/btree_map/mod.rs:185-187 | a key missing from a leaf is missing from the tree, and remove changes nothing |
| BTreeMap.DeleteFromChild | src/collections/btree_map/mod.rs:233-238 | deleting through a child with room changes only that child and removes exactly the key |
| BTreeMap.DeleteInternalNode | src/collections/btree_map/mod.rs:244-268 | a key held by an internal node is removed by predecessor, successor or merge, keeping balance |
| BTreeMap.PredecessorSwap | src/collections/btree_map/mod.rs:244-255 | replacing the key by its predecessor removes exactly that key |
| BTreeMap.SuccessorSwap | src/collections/btree_map/mod.rs:256-262 | replacing the key by its successor removes exactly that key |
| BTreeMap.DeletePredecessor | src/collections/btree_map/mod.rs:270-293 | the result is the subtree's last pair and the rest stays balanced |
| BTreeMap.DeleteSuccessor | src/collections/btree_map/mod.rs:295-317 | the result is the subtree's first pair and the rest stays balanced |
| BTreeMap.DeleteSibling | src/collections/btree_map/mod.rs:364-404 | the node after a rotation from sibling j into child i |
| BTreeMap.DeleteMerge | src/collections/btree_map/mod.rs:319-362 | the node after merging the two children around separator min(i, j) |
| BTreeMap.InsertAtRoot | src/collections/btree_map/mod.rs:38-53 | a full root is split first; the height grows only then; the pairs are the upsert |
| BTreeMap.NewRoot | src/collections/btree_map/mod.rs:39-48 | a new root over the full old root holds the same pairs one level higher |
| BTreeMap.SBTreeMap.constructor | src/collections/btree_map/mod.rs:16-21 | an empty map of length 0 |
| BTreeMap.SBTreeMap.Len | src/collections/btree_map/mod.rs:23-25 | the number of keys |
| BTreeMap.SBTreeMap.IsEmpty | src/collections/btree_map/mod.rs:27-29 | true exactly when the map is empty |
| BTreeMap.SBTreeMap.GetCopy | src/collections/btree_map/mod.rs:86-98 | the map's value for the key, None exactly when absent |
| BTreeMap.SBTreeMap.ContainsKey | src/collections/btree_map/mod.rs:100-115 | true exactly when the key is in the map |
| BTreeMap.SBTreeMap.Insert | src/collections/btree_map/mod.rs:38-61 | the map is updated at the key; old value or None; len grows exactly for a new key |
| BTreeMap.SBTreeMap.Remove | src/collections/btree_map/mod.rs:63-68 | the key leaves the map; old value or None; len drops exactly for a present key |
| BTreeFindings.InsertNonFullDuplicatesMedian | src/collections/btree_map/mod.rs:129-131 | inserting the median's own key returns None and leaves the tree unsorted with the key twice |
| BTreeFindings.DeletePredecessorMissesLast | src/collections/btree_map/mod.rs:277-289 | on a valid subtree whose last pair is 605, the code answers 505 |
| BTreeFindings.DeleteSuccessorOverflows | src/collections/btree_map/mod.rs:301-307 | merging a deficient first child with a full second child gives a node of 16 keys |

## Left out

- Host memory: `stable::grow`, `size_pages` and the context reads and writes become the
  `mem` byte sequence, the page count and a page limit. A grow fails exactly when it
  would pass the limit.
- `MemBlock`, `MemBox`, `SSlice` and `SVec` are not part of this model. Their
  operations (`read_at`, `split`, `merge_with_neighbor`, `get_neighbor`,
  `new_total_size`, link reads and writes) become steps on the block map and layout with
  contracts only. Block headers and links live in the map, not in `mem`.
- The link words that the source leaves stale in blocks taken off a list or absorbed by
  a merge are taken as EMPTY in the model.
- The older allocator's `try_merge` recurses on the merged block. The model proves the
  recursive call is a no-op (`LegacyHeap.SettledNeighbours`) and does not repeat it.
- The allocating methods exclude by their requires `fast_log2(0)`, the 64-bit overflow
  of `size + 16`, and requests above 2^63 bytes. `Reset` and `Init` do reach
  `fast_log2(0)`, for a leftover of exactly 16 bytes (see the line for `Reset` below).
- The u32 cast in `find_seg_class_idx` is modelled (`LegacyHeap.FindSegClassIdxTruncates`).
  The heap invariant only covers block sizes below 2^32.
- The older allocator's collection declarations (`src/stable_memory_allocator.rs:505-526`)
  are auxiliary bookkeeping. They are never called by the core.
- `read_at`, `is_allocated_at` and `write_at` (`src/stable_memory_allocator.rs:138-154`)
  only read or write user bytes at a block.
- A failing older `init` can leave memory partly grown. The model does not state what
  memory holds after the error.
- The older `reallocate` does not copy the payload, and the model does not track
  payload bytes.
- The u64 wrap-around of the newer allocator's counters is not modelled. They are
  unbounded integers. The corrected counters are never negative.
- MemAllocator.StableMemoryAllocator.Reset, LayHeap and Init: a leftover of 1 to 15 bytes
  after the allocator's block reaches `MemBox::new_total_size` (:141) with a total size
  below the two headers of a block. `new_total_size` is not part of this model, so the
  model stops there and returns `ok` false, with the classes emptied and the counters
  cleared; what the allocator is left as afterwards is not modelled.
- MemAllocator.StableMemoryAllocator.Reset, LayHeap and Init: a leftover of exactly 16
  bytes after the allocator's block becomes a free box of payload 0. Pushing it computes
  its class with `get_seg_class_id(0)` (src/mem/allocator.rs:378-379), which calls
  `fast_log2(0)`. `fast_log2` is not part of this model, so its result at 0 is not
  known. The model takes it as 0 (`AllocatorHeap.FastLog2`), so the empty block goes
  into class 0.
- MemAllocator.StableMemoryAllocator.Init: requires the allocator's block to fit in
  memory, where `MemBox::init` (:51) writes its headers.
- MemAllocator.StableMemoryAllocator.Deallocate: the panic of `assert_allocated` (:96) on
  a block that is not allocated is a precondition.
- LegacyAllocator.StableMemoryAllocator.Deallocate: the `unreachable!` panics of
  `src/stable_memory_allocator.rs:46-52`, for an offset with no block or a block that is
  not allocated, are a precondition.
- MemAllocator.StableMemoryAllocator.Reallocate: requires the new size to be at least
  the block's current size. The source copies `old_size` bytes, so a smaller new size
  would read past the new block.
- LegacyAllocator.StableMemoryAllocator.SetSegregationClass: the panic for an index past
  the table is a precondition.
- Hashing and certification (`write_root_hash`, `read_root_hash`,
  `read_child_root_hash`, `AsHashTree`) are left out, because the hash function is
  foreign.
- Left out as library plumbing, not logic of the core:
  - `speedy` serialisation and pointer casts;
  - `drop` and `destroy`;
  - `to_string` and the tree printers;
  - the benchmark.
- The single-slot accessors of `internal_node.rs` are written directly as array
  indexing in the model. They are `read_key`, `write_key`, `read_child_ptr`,
  `write_child_ptr` and `read_len`.
- B-tree keys are `int`. The key trait's ordering becomes integer order, and the value
  type is generic.
- The B-tree engine works on node values, not through `SVec` pointers. The map class
  holds the root node itself.
- The test's concrete nine-key insert and removal sequence is not replayed. What it
  checks follows from the `Insert` and `Remove` contracts for any sequence.

## Findings

| source | as written | input that shows it | evidently intended | confidence | as-written member | corrected member |
|---|---|---|---|---|---|---|
| src/collections/btree_map/mod.rs:129-131 | after splitting the child, the descent goes right only for a key greater than the new separator | insert key 6 into a root whose full child has median 6 | a key equal to the separator replaces its value and returns the old one | not executed | BTreeFindings.InsertNonFullDuplicatesMedian | BTreeMap.InsertNonFull |
| src/collections/btree_map/mod.rs:277-289 | rotates into the last child, then descends into the one before it | a valid two-level subtree whose last pair is 605 | descend into the last child, which holds the predecessor | not executed | BTreeFindings.DeletePredecessorMissesLast | BTreeMap.DeletePredecessor |
| src/collections/btree_map/mod.rs:301-307 | chooses rotation or merge from the first child's size alone, so it merges a deficient first child with a full second child | first child with 5 keys, second with 11 | rotate when the sibling has at least B keys, merge only two minimal children | not executed | BTreeFindings.DeleteSuccessorOverflows | BTreeMap.DeleteSuccessor |
| src/mem/allocator.rs:240 | grows size / PAGE_SIZE_BYTES + 1 pages, ignoring the 16 header bytes | allocate 65530 bytes with no free block | enough pages for size plus both headers | not executed | AllocatorHeap.GrowPagesAsWrittenTooSmall | AllocatorHeap.GrowPages |
| src/mem/allocator.rs:223-259 | a split never moves the free counter, though the cut turns 16 payload bytes into headers: the counter ends 16 too high | reset in one page, allocate 100 | the counter equals the free payload bytes | not executed | AllocatorHeap.FreeCounterSplitAsWritten | MemAllocator.StableMemoryAllocator.SplitCounted |
| src/mem/allocator.rs:333-347 | merging with a free left neighbour never moves the free counter, though two headers become payload: the counter ends 16 too low | reset in one page, allocate 65005, free it, allocate 130540: the counter underflows to -16 | the counter equals the free payload bytes | not executed | AllocatorHeap.FreeCounterUnderflowAsWritten | MemAllocator.StableMemoryAllocator.AbsorbPrev |
| src/mem/allocator.rs:349-363 | merging with a free right neighbour never moves the free counter, though two headers become payload: the counter ends 16 too low | reset in one page, allocate 65005, free it, allocate 130540: the counter underflows to -16 | the counter equals the free payload bytes | not executed | AllocatorHeap.FreeCounterUnderflowAsWritten | MemAllocator.StableMemoryAllocator.AbsorbNext |
| src/stable_memory_allocator.rs:133-135 | the reallocation fallback lists the block without merging its free left neighbour | free 16-byte block at 1000 next to the reallocated block at 1032 | merge with both neighbours before listing | not executed | LegacyHeap.AddUnmergedBreaks | LegacyAllocator.StableMemoryAllocator.Relocate |
| src/stable_memory_allocator.rs:462-469 | the first block's size is computed before the extra page and never recomputed; the usize subtraction of :463 wraps modulo 2^64 in a 64-bit release build (a debug build panics) | 20 bytes, or no byte, left after the header | the block ends exactly at the end of memory | not executed | LegacyHeap.InitFirstAsWrittenShort | LegacyHeap.InitFirstSize |
| src/stable_memory_allocator.rs:183-227 | reinit returns the allocator with its offset moved past the magic bytes and the class table | any memory with a valid header | the allocator keeps the offset of its header | not executed | LegacyHeap.ReinitAsWrittenMovesOffset | LegacyHeap.ReinitRestores |
