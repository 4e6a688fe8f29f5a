# Verified models of the vendored algorithms

A Dafny model, with proofs, of the five algorithmic headers that this repository vendors:

- the dlmalloc/nedmalloc allocator of `include/nedmalloc/malloc.c.h`, as used through its `mspace_*` entry points, and its
  reentrant spin lock;
- the chained hash table of `include/libevent/ht-internal.h`;
- the timer heap of `include/libevent/minheap-internal.h`;
- the ordered acquisition of two locks of `include/libevent/evthread-internal.h`;
- the intrusive reference counts of `include/LuaBridge/RefCountedObject.h`.

`dafny verify dfyconfig.toml` verifies the whole project.

## The allocator

The allocator is modelled in layers, each proved before the next is built on it.

1. Bins. `TreeIndex`, `BinMap` and `TriePath` are the index and bit arithmetic. `SmallBins` and `TreeBins` are classes whose
   fields are the link words of the binned chunks and the bin maps; a ghost view (the rings, and for the tries the position of
   each ring as a path of bits) ties them to the map from chunk to size that the rest of the project uses. `TreeSearch` is the
   best-fit search.
2. Chunks. `Tiling` has memory as 64-bit words and the chunks as a ghost tiling that the boundary tags describe; its lemmas say
   what merging, splitting, taking, cutting and growing keep. `Coverage` shows that the chunks partition each segment.
3. Spaces. `HeapState` is the state of a space as a value with its invariant `Ok`: tiling and tags, bins, segments and their
   fenceposts, directly mapped regions, and who owns which chunk. `HeapBlocks`, `HeapSegments` and `HeapDirect` show that each
   change keeps `Ok` and disturbs no other block: it keeps its place, its size and every word its owner may have written.
   `Requests` has the size macros and the macros that write heads and feet, `Footprint` the system and the accounts.
4. Operations. `Mspace` is a class with the fields of the program's state. Its methods follow the program statement by
   statement, and each is proved to keep `Valid` and to have the outcome that `Outcomes` defines. `Alignment` and `Bytes` are
   the bit arithmetic of memalign and the bytes of words.
5. Programs. `Client` runs any sequence of calls and writes against a map from blocks to bytes, and shows that the space
   refines it, and what its footprint is after every step.

The configuration is that of a 64-bit system with an alignment of 8: `MIN_CHUNK_SIZE` is 32, `TOP_FOOT_SIZE` 72, the state
1016 bytes, with its spin lock, and the first segment record at offset 896; FOOTERS, INSECURE, PROCEED_ON_ERROR and MORECORE
are off, and no flags are given. `compute_tree_index` has its portable form. `CALL_MMAP` gives fresh pages or fails,
`CALL_MUNMAP` succeeds or fails, as the system pleases. Pages and units of mapping are powers of two of 4096 bytes or more. The
run-time checks that free and realloc make (`ok_address`, `ok_inuse`, `ok_next`, `ok_pinuse`) are asserted where they make
them, and hold; those of the bin operations are not written out, and hold by `Outcomes.BinnedReachable`.

## What does not hold, and exactly when

- `realloc` may keep a directly mapped chunk whose usable size, as `mspace_usable_size` counts it, is less than was asked for:
  the test leaves one word, the overhead counted is three. It happens exactly when the padded request is no small one and the
  chunk is larger by just that word (`Mspace.Mspace.Realloc`, `Outcomes.KeptShortExactly`); `Client.ResizedShort` is a program
  that meets it. The bytes asked for still lie within the chunk.
- The loop with which `memalign` rounds an alignment up never ends for one above 2 to the 63 (`Alignment.RoundingEnds`).
- The footprint is the bytes of the segments and of the mapped regions of live blocks exactly as long as the system takes back
  the region of every mapped block that is freed or moved (`Client.FootprintExactly`). The bytes of a region that it refuses
  stay in the footprint, and nothing else does.
- The do-while loop of `HT_GROW` would read past the table of primes when no prime is large enough. As insert and replace call
  it, in a table within its limit, this cannot happen exactly if the load factor gives the last prime a limit above one, and
  not the limits two and three to the last two (`HashTable.CallsInRange`); `HashTable.RunOut` is the run that gets there for
  every other load factor. A table over its limit, after a failed grow, gets there exactly if it has not the last size and
  its entries, with one more, reach the last limit (`HashTable.Table.CallInRangeExactly`).
- `HT_INSERT` and `HT_REPLACE` do not look at the answer of `HT_GROW`: without memory for a first array `HT_INSERT` divides by
  the table length of zero, and `HT_REPLACE` reads through the null pointer that the search for a slot gives
  (`HashTable.Table.Insert`, `HashTable.Table.Replace`).
- Not every reachable table passes the representation check: one that is full, and is given a new key when it has the last size
  or there is no memory to grow, is over its limit, and fails (`HashTable.OverFill`). A table passes after every call of a run
  exactly if each call adds no entry, or finds room within the limit, or memory for a larger array (`HashTable.PassesExactly`).
- `HT_REPLACE` of an element that is in the table already counts it a second time, and the table then fails the representation
  check (`HashTable.Table.Replace`, `HashTable.Table.CountedTwiceIsBad`).
- An object that the program holds no more, not even through others, may stay: exactly when it lies in a set of counted objects
  to which only members of its own objects refer (`RefCount.LeakedExactly`). Such a set stays through whatever the program does
  without naming its objects (`RefCount.CycleStays`), and two objects that are made members of each other and let go of are one
  (`RefCount.MakeCycle`).

## Model

| member | source | states |
|---|---|---|
| TreeIndex.ComputeTreeIndexCorrect | include/nedmalloc/malloc.c.h:3115-3131 | the branch-free form of compute_tree_index, with its 32-bit wrap-around, is 2 floor(log2) plus the next bit for every size, saturating at bin 31 |
| TreeIndex.BranchFreeIsFloorLog2 | include/nedmalloc/malloc.c.h:3120-3129 | the masked shifts compute floor(log2 x) for every 16-bit x > 0 |
| TreeIndex.BinRange | include/nedmalloc/malloc.c.h:3115-3146 | minsize(bin) <= size < minsize(bin + 1), except that the last bin has no upper bound |
| TreeIndex.BinUnique | include/nedmalloc/malloc.c.h:3115-3146 | the ranges partition the large sizes: a size is in the range of bin i if and only if i is its bin |
| TreeIndex.BinMonotone | include/nedmalloc/malloc.c.h:3115-3131 | a larger size never has a smaller bin |
| TreeIndex.LaterBinIsLarger | include/nedmalloc/malloc.c.h:4657-4665 | every size of a later bin exceeds every size of an earlier one, so that any chunk in left_bits fits |
| BinMap.MarkAll | include/nedmalloc/malloc.c.h:3155-3160 | marking bin i sets the bit of i and changes no other |
| BinMap.ClearAll | include/nedmalloc/malloc.c.h:3155-3160 | clearing bin i clears the bit of i and changes no other |
| BinMap.FirstIndexIsLowest | include/nedmalloc/malloc.c.h:3163-3213 | least_bit and compute_bit2idx find the lowest bin marked |
| BinMap.NextLeft | include/nedmalloc/malloc.c.h:3166-3167 | left_bits(idx2bit(i)) & map is zero if and only if no bin after i is marked; otherwise the first index found is the nearest such bin |
| BinMap.NextTwoBins | include/nedmalloc/malloc.c.h:5503-5507 | (smallbits & 3) != 0 after the shift if and only if bin i or i + 1 is in use, and ~smallbits & 1 picks the first of them that is |
| BinMap.LeftOfShifted | include/nedmalloc/malloc.c.h:5523 | (smallbits << idx) & left_bits(idx2bit(idx)) are exactly the bins after idx in the map |
| BinMap.NoBinFrom | include/nedmalloc/malloc.c.h:5519 | a shifted map of zero means that no bin from idx on is in use |
| TriePath.KeyDecides | include/nedmalloc/malloc.c.h:3933-3939 | at each level of a descent the top bit of the shifted key says which half of the node's range the size is in, while bits are left |
| TriePath.KeyIsRest | include/nedmalloc/malloc.c.h:3135-3141 | the key at each level is the uninspected bits of the size, shifted to the top |
| TriePath.DepthBound | include/nedmalloc/malloc.c.h:2659-2663 | a position that holds a size is no deeper than the bits below the fixed prefix of its bin |
| TreeBins.TreeBins.FindSlot | include/nedmalloc/malloc.c.h:3932-3950 | the descent ends at the node of the same size, or at the empty child slot that is the only place for it, and goes past no more nodes than the bin has bits |
| TreeBins.TreeBins.Insert | include/nedmalloc/malloc.c.h:3918-3967 | insert_large_chunk keeps the trie invariant, adds exactly the one chunk, writes no chunk outside the bins, and its loop turns no more often than the bin has bits |
| TreeBins.TreeBins.Unlink | include/nedmalloc/malloc.c.h:3986-4055 | unlink_large_chunk keeps the trie invariant, removes exactly the one chunk, and writes no chunk outside the bins |
| TreeBins.TreeBins.RightmostLeaf | include/nedmalloc/malloc.c.h:4000-4014 | the replacement of an inner node is a leaf below it, found with the child slot that points to it, in no more turns than bits are left; there is none if and only if the node is a leaf |
| TreeBins.TreeBins.Relink | include/nedmalloc/malloc.c.h:4016-4054 | parent, children, root slot and bin map are redirected to the replacement, and the map bit is cleared only when the root goes without one |
| TreeBins.TreeBins.UnlinkLast | include/nedmalloc/malloc.c.h:4000-4054 | the last chunk of its size: a leaf is taken off, an inner node gives its place to its rightmost leaf |
| TreeBins.TreeBins.UnlinkShared | include/nedmalloc/malloc.c.h:3989-4054 | a chunk with others of its size: its ring closes around it, and if it was the tree node its successor takes its place |
| TreeBins.InnerRemoved | include/nedmalloc/malloc.c.h:4000-4054 | the trie with an inner node replaced by its rightmost leaf satisfies the whole trie invariant |
| TreeBins.LeafAdded | include/nedmalloc/malloc.c.h:3940-3944 | a leaf added at the empty slot on the path of its size keeps the trie invariant and adds the one chunk |
| TreeBins.ChainAdded | include/nedmalloc/malloc.c.h:3951-3958 | a chunk chained to the node of its size keeps the trie invariant and adds the one chunk |
| TreeSearch.RemainderTest | include/nedmalloc/malloc.c.h:4640-4643 | the unsigned comparison trem < rsize prefers a chunk if and only if it fits and leaves less; a chunk that is too small wraps and never wins |
| TreeSearch.SearchBin | include/nedmalloc/malloc.c.h:4634-4656 | after the first loop every chunk that fits is no better than the best seen, or lies in the deepest untaken right subtree, or is larger than all of it; the loop turns at most once for each bit of the bin, and once more |
| TreeSearch.WalkToSmallest | include/nedmalloc/malloc.c.h:4667-4674 | walking the leftmost children of a subtree finds the best of all its chunks, visiting at most one node for each bit that is left |
| TreeSearch.WalkLeft | include/nedmalloc/malloc.c.h:2683 | going to the leftmost child keeps the smallest chunk in reach |
| TreeSearch.FindBestFit | include/nedmalloc/malloc.c.h:4628-4674 | the search returns a binned chunk of least size among all that fit, and null if and only if none fits, in two walks of at most one node for each bit of a size |
| TreeSearch.FindSmallest | include/nedmalloc/malloc.c.h:4699-4714 | the search of tmalloc_small returns a chunk of least size among all in the trees, in one walk down one trie |
| SmallBins.SmallBins.Insert | include/nedmalloc/malloc.c.h:3845-3861 | insert_small_chunk keeps every ring and the map, puts exactly the one chunk first in the bin of its size, and writes no links of other chunks |
| SmallBins.SmallBins.Unlink | include/nedmalloc/malloc.c.h:3864-3881 | unlink_small_chunk keeps every ring and the map, removes exactly the one chunk, and clears the bit, leaving stale header links, if and only if the bin is empty |
| SmallBins.SmallBins.UnlinkFirst | include/nedmalloc/malloc.c.h:3884-3898 | unlink_first_small_chunk of a bin in use removes the chunk that was put in that bin last of those still there |
| Tiling.MergeKeeps | include/nedmalloc/malloc.c.h:5676-5708 | merging a run of chunks and setting its tags keeps tiling, tags, footers and the rule that no two free chunks touch |
| Tiling.CarveKeeps | include/nedmalloc/malloc.c.h:5564-5586 | splitting a free chunk into one in use and a free rest keeps all of these |
| Tiling.TakeKeeps | include/nedmalloc/malloc.c.h:3294-3297 | set_inuse_and_pinuse of a free chunk keeps all of these |
| Tiling.HalveKeeps | include/nedmalloc/malloc.c.h:4762-4764 | cutting a chunk in use in two, both in use, keeps all of these, whatever the owner left in the words between |
| Tiling.ExpandKeeps | include/nedmalloc/malloc.c.h:4770-4774 | growing a chunk in use into top keeps all of these |
| Coverage.Covered | include/nedmalloc/malloc.c.h:3699-3727 | every byte of the tiled part of every segment lies in exactly one chunk |
| Coverage.EachInSegment | include/nedmalloc/malloc.c.h:3699-3727 | every chunk lies whole in the tiled part of one segment, and the last one ends where that part ends |
| Coverage.NoFreeNeighbours | include/nedmalloc/malloc.c.h:3553 | no two free chunks are adjacent |
| Coverage.OnePlace | include/nedmalloc/malloc.c.h:3540-3560 | a free chunk is top, or dv, or in exactly the bin of its size; a chunk in use is none of these |
| Coverage.LinksInside | include/nedmalloc/malloc.c.h:2600-2676 | the link words of a binned chunk lie in the chunk, and no block handed out has any of them |
| HeapState.LastChunk | include/nedmalloc/malloc.c.h:4274-4293 | only the top chunk and segment records are last in a segment |
| HeapState.Neighbours | include/nedmalloc/malloc.c.h:5645-5677 | what free reads around a block: the next chunk exists and has pinuse set, and a clear pinuse bit means a free chunk of the size in prev_foot before it |
| HeapState.RangeUndisturbed | include/nedmalloc/malloc.c.h:2529-2562 | a change of the chunks in a range writes no word that the owner of a block elsewhere may have written |
| HeapBlocks.TakeOk | include/nedmalloc/malloc.c.h:3294-3297 | taking a free chunk whole keeps the invariant of the whole space, and disturbs no other block |
| HeapBlocks.CarveOk | include/nedmalloc/malloc.c.h:5564-5586 | splitting top, dv or a binned chunk, the rest becoming top, dv or a binned chunk, keeps the invariant and disturbs no other block |
| HeapBlocks.FreeOk | include/nedmalloc/malloc.c.h:5648-5717 | freeing a block with its free neighbours into top, dv or a bin keeps the invariant and disturbs no other block |
| HeapBlocks.HalveOk | include/nedmalloc/malloc.c.h:4762-4765 | cutting a block in two blocks keeps the invariant and disturbs no other block |
| HeapBlocks.ExpandOk | include/nedmalloc/malloc.c.h:4769-4777 | growing a block into top keeps the invariant, its own words and all other blocks |
| HeapSegments.RecordFits | include/nedmalloc/malloc.c.h:4255-4270 | for every top size the record of the old segment fits with two fenceposts or more, and leaves a rest that is empty or a whole chunk |
| HeapSegments.AddSegmentOk | include/nedmalloc/malloc.c.h:4255-4305 | add_segment re-establishes the tiling of the old and the new segment, and disturbs no block |
| HeapSegments.PrependOk | include/nedmalloc/malloc.c.h:4213-4220 | memory mapped before a segment joins it as a block, keeping the invariant |
| HeapSegments.TopResizeOk | include/nedmalloc/malloc.c.h:4169-4181 | init_top with a larger or smaller size, when the segment changes with it, keeps the invariant |
| HeapSegments.ReleaseOk | include/nedmalloc/malloc.c.h:4537-4543 | taking out a segment whose blocks are all free keeps the invariant |
| HeapSegments.OnlyRecordLeft | include/nedmalloc/malloc.c.h:4524-4527 | a segment that passes the test of release_unused_segments holds one free chunk and its own record, and nothing else |
| HeapDirect.DirectMapOk | include/nedmalloc/malloc.c.h:4102-4128 | a directly mapped block, with its offset and fake next chunk, keeps the invariant and disturbs no other block |
| HeapDirect.DirectUnmapOk | include/nedmalloc/malloc.c.h:5651-5654 | unmapping a direct block keeps the invariant and disturbs no other block |
| HeapDirect.DirectShiftOk | include/nedmalloc/malloc.c.h:4861-4863 | moving a direct block up within its region, by growing the offset in prev_foot, keeps the invariant |
| HeapDirect.StoreOk | include/nedmalloc/malloc.c.h:2529-2562 | an owner may write any word of its block: the invariant holds and no other block is disturbed |
| HeapDirect.OwnedOnce | include/nedmalloc/malloc.c.h:2529-2562 | no word belongs to two blocks |
| Requests.RequestSize | include/nedmalloc/malloc.c.h:2487-2506 | request2size is the least aligned size that holds the request and its overhead and is no smaller than a chunk |
| Requests.PaddedSize | include/nedmalloc/malloc.c.h:4406-4407 | padding and rounding in 64 bits either wraps to something no larger than the request or is exact up to one unit: the test size > nb finds every wrap |
| Requests.CutWords | include/nedmalloc/malloc.c.h:4763-4764 | either order of writing the two heads gives the tags of the two parts |
| Requests.MergeWords | include/nedmalloc/malloc.c.h:2557-2562 | set_free_with_pinuse, set_size_and_pinuse_of_free_chunk and the head of top each give the tags of the merged chunk |
| Footprint.DirectBytesAt | include/nedmalloc/malloc.c.h:3753-3755 | the mapped bytes of direct blocks, split off for any one of them |
| Footprint.SegmentRemoved | include/nedmalloc/malloc.c.h:4537-4543 | removing one segment lowers the bytes of the segments by its size |
| Footprint.Os.Map | include/nedmalloc/malloc.c.h:1641-1668 | mmap gives whole pages that nothing else has, or fails |
| Footprint.Os.Unmap | include/nedmalloc/malloc.c.h:4537 | munmap takes back memory that was mapped, or fails and changes nothing; the bytes of a directly mapped region that it refuses are counted, and no others |
| Outcomes.FirstOk | include/nedmalloc/malloc.c.h:5395-5416 | a new space, over memory that may hold anything, satisfies the invariant |
| Outcomes.CarveDone | include/nedmalloc/malloc.c.h:5564-5586 | each way of splitting a free chunk completes an allocation: a new aligned block of the size asked for, with the accounts kept |
| Outcomes.FreeDone | include/nedmalloc/malloc.c.h:5648-5717 | each way of merging completes a release, with the accounts kept |
| Outcomes.MapDone | include/nedmalloc/malloc.c.h:4107-4126 | mmap_alloc completes an allocation and adds the mapped bytes to the footprint |
| Outcomes.AddDone | include/nedmalloc/malloc.c.h:4255-4305 | add_segment keeps the accounts: the footprint grows by the new segment |
| Outcomes.PrependDone | include/nedmalloc/malloc.c.h:4213-4252 | prepend_alloc completes an allocation whichever of top, dv, a free chunk or a chunk in use was first in the segment |
| Outcomes.ReleaseDone | include/nedmalloc/malloc.c.h:4537-4543 | a released segment leaves the footprint by its size |
| Outcomes.BackOutDone | include/nedmalloc/malloc.c.h:4544-4546 | backing out of a release puts the chunk, even if it was dv, in the tree, and keeps the invariant and the accounts |
| Outcomes.TrimDone | include/nedmalloc/malloc.c.h:4578-4607 | trimming top keeps the invariant, and the footprint falls by what was given back |
| Outcomes.UnmapDone | include/nedmalloc/malloc.c.h:5650-5655 | freeing a direct block lowers the footprint by its region, or, when munmap fails, leaves it counted |
| Outcomes.VictimFitsBetter | include/nedmalloc/malloc.c.h:4676-4677 | rsize < dvsize - nb in unsigned arithmetic holds if and only if dv does not fit or leaves more |
| Outcomes.RoomExactly | include/nedmalloc/malloc.c.h:5498-5594 | a free chunk can serve a request, from whatever place, if and only if the source chosen for it is not the system |
| Outcomes.FreeFacts | include/nedmalloc/malloc.c.h:5645-5676 | in every state, the checks free makes of the next chunk and of the chunk before hold |
| Outcomes.BinnedReachable | include/nedmalloc/malloc.c.h:3246 | no binned chunk, nor dv, nor top is ever below least_addr, so ok_address holds wherever the bin operations test it |
| Outcomes.ReleaseFacts | include/nedmalloc/malloc.c.h:4524-4527 | what release_unused_segments reads is what its test means |
| Outcomes.KeptShortExactly | include/nedmalloc/malloc.c.h:4131-4138 | a mapped block kept by realloc counts fewer usable bytes than were asked for if and only if its chunk is one word larger than the padded request |
| Outcomes.MappedChecked | include/nedmalloc/malloc.c.h:3514-3527 | what the checker of mapped chunks asserts holds of every one in every state: among it, that the chunk is not small and its region is whole pages, also after memalign has moved it |
| Outcomes.ShiftedLarge | include/nedmalloc/malloc.c.h:4857-4864 | wherever memalign moves a mapped block within its region, what stays of its chunk is not small |
| Client.ResizedShort | include/nedmalloc/malloc.c.h:4131-4138 | a program can meet it: a block that mmap_alloc made of 74 pages stays as it is when asked to hold 8 bytes more than it has |
| Outcomes.MoveOutcome | include/nedmalloc/malloc.c.h:4799-4808 | malloc, copy and free together are a realloc that keeps the first bytes and disturbs no other block |
| Outcomes.ShrinkOutcome | include/nedmalloc/malloc.c.h:4758-4767 | cutting and freeing the rest together are a realloc in place |
| Outcomes.ExpandOutcome | include/nedmalloc/malloc.c.h:4768-4778 | growing into top is a realloc in place |
| Outcomes.PinnedByState | include/nedmalloc/malloc.c.h:2946-2954 | no other segment's record lies in the segment of top, so only the state itself can pin it |
| Mspace.Mspace.constructor | include/nedmalloc/malloc.c.h:5395-5416 | init_user_mstate makes exactly the first state over its memory: the chunk of the state, top and its foot, nothing binned and no blocks; the footprint is the memory, and the thresholds are set |
| Mspace.Mspace.FromVictim | include/nedmalloc/malloc.c.h:5561-5579 | a request from dv gets its first bytes, and the rest is the new dv; dv is used up if and only if the rest would be less than a chunk |
| Mspace.Mspace.FromReserve | include/nedmalloc/malloc.c.h:5561-5594 | what dv can hold is cut from dv, what it cannot and top can from top, without a call to the system and with the same footprint |
| Mspace.Mspace.FromTop | include/nedmalloc/malloc.c.h:5581-5591 | a request from top gets its first bytes, and the rest is the new top |
| Mspace.Mspace.ReplaceDv | include/nedmalloc/malloc.c.h:3904-3913 | replace_dv puts the old victim in its small bin and makes the new one the victim |
| Mspace.Mspace.TmallocSmall | include/nedmalloc/malloc.c.h:4699-4734 | cuts the request from a chunk of least size of all in the trees, and the rest is the new dv |
| Mspace.Mspace.TmallocLarge | include/nedmalloc/malloc.c.h:4628-4696 | cuts the request from a binned large chunk of least size >= nb, and the rest goes to a bin, unless dv fits at least as well; returns null exactly in that case or when none fits |
| Mspace.Mspace.SmallRequest | include/nedmalloc/malloc.c.h:5498-5550 | a small request is cut from a chunk of its own bin or of the next; or, if dv cannot hold it, from one of the least later bin in use, or else from the smallest chunk of the trees; null, with nothing changed, if and only if none of these is there |
| Mspace.Mspace.MmapAlloc | include/nedmalloc/malloc.c.h:4102-4128 | a block in a mapped region of its own, of the request with its overhead rounded up to whole pages; or nothing, and then the system refused unless the padded request would wrap |
| Mspace.Mspace.InitTop | include/nedmalloc/malloc.c.h:4169-4181 | the top chunk, moved up to an aligned place, and the top foot are written, and trim_check is reset |
| Mspace.Mspace.Append | include/nedmalloc/malloc.c.h:4464-4474 | memory mapped after the segment of top makes top larger by exactly that |
| Mspace.Mspace.InsertFences | include/nedmalloc/malloc.c.h:4283-4293 | the loop writes a fencepost in every aligned word up to the old end, and nothing else |
| Mspace.Mspace.AddSegment | include/nedmalloc/malloc.c.h:4255-4305 | a new segment becomes the first; its memory is top, and the old top, record and fenceposts tile the old one |
| Mspace.Mspace.PrependAlloc | include/nedmalloc/malloc.c.h:4213-4252 | a segment is extended downwards, the block is at its new base, and the rest joins what was first |
| Mspace.Mspace.SegmentHolding | include/nedmalloc/malloc.c.h:2935-2943 | finds the first segment that holds an address |
| Mspace.Mspace.UseNew | include/nedmalloc/malloc.c.h:4462-4500 | new memory extends the segment of top if it follows it, and otherwise the segment it precedes, if the program mapped them; else it is a new first segment, and the old first one ends with its record. The footprint grows by exactly the new memory, and the request is served |
| Mspace.Mspace.SysAlloc | include/nedmalloc/malloc.c.h:4310-4508 | a block from new memory, or null with everything as it was; null means that the system refused, unless the padded request would wrap. The block is mapped directly only if mapping is on and the request reaches the threshold, and then always, unless the system refuses or the request would wrap; the footprint grows by the request with its overhead in whole pages, or with what a segment needs in whole granules |
| Mspace.Mspace.Malloc | include/nedmalloc/malloc.c.h:5493-5602 | a new aligned block with at least the bytes asked for and less than a chunk to spare unless it is mapped, no other block disturbed; or null with everything as it was. When dv, top or any binned chunk can serve the request it is served without a call to the system; otherwise null means that the system refused, unless the padded request would wrap. The chunk is the one the bins choose: for a small request one of its own bin or the next, else dv, else one of the least later bin, else the smallest of the trees; for a large one a best fit of the trees, unless dv serves as well, else dv; then top, and only then the system. The block is cut from its front, all but top being used whole where the rest would be less than a chunk, and the rest becomes dv, top or a binned chunk |
| Mspace.Mspace.JoinBack | include/nedmalloc/malloc.c.h:5657-5664 | the free chunk before leaves its bin, unless it is dv |
| Mspace.Mspace.JoinTop | include/nedmalloc/malloc.c.h:5678-5685 | the run becomes top, and dv is dropped if it is in the run: the new state is exactly that |
| Mspace.Mspace.JoinVictim | include/nedmalloc/malloc.c.h:5690-5694 | the run becomes dv: the new state is exactly that |
| Mspace.Mspace.BinOver | include/nedmalloc/malloc.c.h:5696-5717 | the run takes in the free chunk after it and goes to its bin: the new state is exactly that |
| Mspace.Mspace.BinBefore | include/nedmalloc/malloc.c.h:5707-5717 | the run goes to its bin, and the next chunk's pinuse bit is cleared: the new state is exactly that |
| Mspace.Mspace.FreeDirect | include/nedmalloc/malloc.c.h:5650-5655 | a mapped block is unmapped and leaves the footprint by its region, if and only if the system does not refuse; otherwise its region is counted as kept |
| Mspace.Mspace.Free | include/nedmalloc/malloc.c.h:5630-5730 | the block is gone and no other is disturbed; null is ignored. A mapped block takes its region from the footprint, and exactly when the system refuses the region is counted as kept; no other block leaves anything behind. A chunk joins the free chunks before and after it, and the run is top, dv or binned as its neighbours say. Exactly when top grows over trim_check it is trimmed, and when that gives nothing back it is not tried again; exactly at the last large chunk counted the segments are scanned; otherwise only the count of large chunks changes |
| Mspace.Mspace.ReleaseSegment | include/nedmalloc/malloc.c.h:4528-4546 | a segment without blocks is unmapped and leaves the footprint, or is put back |
| Mspace.Mspace.ReleaseUnused | include/nedmalloc/malloc.c.h:4513-4558 | every block stays as it was, what is released is exactly what leaves the footprint, and unless the system refuses no segment stays that could go; nothing is left behind; the count to the next scan starts again from its rate, or from the number of segments |
| Mspace.Mspace.HasSegmentLink | include/nedmalloc/malloc.c.h:2946-2954 | true if and only if the record of some segment lies in this one |
| Mspace.Mspace.ShrinkTop | include/nedmalloc/malloc.c.h:4566-4610 | what is given back leaves both top and the footprint; top keeps more than the pad, and, unless the system refuses or the segment is pinned, at most one granule beyond it |
| Mspace.Mspace.SysTrim | include/nedmalloc/malloc.c.h:4560-4622 | every block stays as it was; the answer is true if and only if the footprint fell; top keeps more than the pad asked for, and, unless the system refuses or the segment is pinned, at most one granule beyond it; no segment stays that could go; when nothing is given back although top is over trim_check, the check is turned off |
| Mspace.Mspace.CopyBytes | include/nedmalloc/malloc.c.h:4804-4805 | memcpy of n bytes between blocks copies them all and changes no other word |
| Mspace.Mspace.Store | include/nedmalloc/malloc.c.h:2529-2562 | an owner writes a word of its block: the space stays valid and no other block is disturbed |
| Mspace.Mspace.ShrinkBlock | include/nedmalloc/malloc.c.h:4758-4767 | a block larger than needed stays in place, with less than a chunk to spare |
| Mspace.Mspace.ExpandBlock | include/nedmalloc/malloc.c.h:4768-4778 | a block before top grows to the exact size |
| Mspace.Mspace.MmapResize | include/nedmalloc/malloc.c.h:4131-4138 | a mapped chunk is kept if and only if the request is not small and its size is at least nb + 8 and at most two granules above nb |
| Mspace.Mspace.Realloc | include/nedmalloc/malloc.c.h:4739-4812 | the block keeps its first min(old, new) bytes wherever it ends up, no other block is disturbed, and null leaves everything as it was. It stays in place if and only if its chunk is, or with top after it becomes, large enough, and then has exactly the padded size, or what it had if that leaves less than a chunk; a mapped one stays as it is if and only if its size is in the range of mmap_resize. It has the bytes asked for, except exactly when it is a mapped one kept with one word beyond the padded request. Null is given only where malloc gives it; what the system keeps is the region of a mapped block that was moved, or nothing |
| Mspace.Mspace.UsableSizeOf | include/nedmalloc/malloc.c.h:5883-5890 | mspace_usable_size |
| Mspace.Mspace.CutLeader | include/nedmalloc/malloc.c.h:4857-4870 | leader and block exactly partition the old chunk; a mapped block moves within its region instead |
| Mspace.Mspace.CutTrailer | include/nedmalloc/malloc.c.h:4873-4883 | block and trailer exactly partition the chunk, and what stays has at most a chunk to spare |
| Mspace.Mspace.MoveUp | include/nedmalloc/malloc.c.h:4842-4871 | the aligned spot found is a multiple of the alignment with room for the request, and any leader before it is a whole chunk |
| Mspace.Mspace.Memalign | include/nedmalloc/malloc.c.h:4816-4899 | a new block at a multiple of the rounded alignment with at least the bytes asked for, leader and trailer given back, no other block disturbed; or null with everything as it was, exactly where malloc gives null for the padded request |
| Alignment.PowerTest | include/nedmalloc/malloc.c.h:4821 | a & (a - 1) is zero if and only if a is a power of two, for every a > 0 |
| Alignment.RoundingEnds | include/nedmalloc/malloc.c.h:4822-4823 | the doubling loop ends if and only if the alignment is at most 2 to the 63; beyond, it doubles for ever |
| Alignment.RoundAlignment | include/nedmalloc/malloc.c.h:4819-4825 | the alignment used is the least power of two that is no less than was asked for and than a chunk |
| Alignment.MaskUp | include/nedmalloc/malloc.c.h:4851-4854 | (x + a - 1) & -a is the next multiple of the power of two a |
| Alignment.AlignedSpot | include/nedmalloc/malloc.c.h:4851-4858 | the spot is aligned, far enough for a chunk before it, and at most one alignment and 24 bytes on |
| Bytes.ByteSet | include/nedmalloc/malloc.c.h:4805 | setting one byte sets that byte and no other |
| Client.Perform | include/nedmalloc/malloc.c.h:5603-5830 | each call of the interface changes the blocks of the program exactly as a map from blocks to bytes allows, gives null only for a reason that malloc has, serves a malloc from the chunk that malloc chooses, resizes in place exactly the blocks that realloc keeps there, and leaves with the system at most the region of the mapped block that it gives up |
| Client.Run | include/nedmalloc/malloc.c.h:5603-5830 | in every run of malloc, free, realloc, memalign, trim and writes on a new space, every step refines the abstract map of blocks, every block holds the bytes the program last left in it, and after every step the footprint is the bytes of the segments and of the mapped regions of live blocks, and what the system has refused to take back of such regions; null comes only for a request that is too large, or when no free chunk fits and the system refuses, unless the padded request would wrap. Each malloc is served from the chunk that the state before it makes malloc choose |
| Client.FootprintExactly | include/nedmalloc/malloc.c.h:5648-5656 | after any number of steps of a run the footprint is exactly the bytes of the segments and of the mapped regions of live blocks if and only if the system refused no region of a mapped block so far; it is never less |
| Client.BytesApart | include/nedmalloc/malloc.c.h:5603-5830 | the usable bytes of different blocks are different bytes |
| Client.MovedKept | include/nedmalloc/malloc.c.h:4799-4808 | after a realloc the new block holds the first bytes of the old one |
| SpinLock.StepKeeps | include/nedmalloc/malloc.c.h:2070-2140 | each read, write and swap of any thread keeps the invariant of the lock |
| SpinLock.RunKeeps | include/nedmalloc/malloc.c.h:2070-2140 | the invariant holds in every state of every interleaving |
| SpinLock.NeverBroken | include/nedmalloc/malloc.c.h:2086-2113 | the assertions at the successful swap and in release never fail |
| SpinLock.MutualExclusion | include/nedmalloc/malloc.c.h:2070-2140 | no two threads hold the lock at once, from the swap on or while they have acquisitions to release |
| SpinLock.AcquireReturns | include/nedmalloc/malloc.c.h:2070-2107 | in every run, a call of acquire returns only with the lock: one deeper than it was called, the owner, with the word set and the counter at that depth, and no other thread holding it |
| SpinLock.ReleaseReturns | include/nedmalloc/malloc.c.h:2109-2117 | in every run, a call of release returns one less deep, still the owner if that is not 0, and no longer the owner if it is |
| SpinLock.AloneInside | include/nedmalloc/malloc.c.h:2070-2117 | from the return of its acquire until it begins a release, a thread has the lock, and no other thread has acquisitions to release or is past its swap |
| SpinLock.AttemptEnds | include/nedmalloc/malloc.c.h:2074-2107 | however the threads interleave, an attempt at the lock, by acquire or by try_lock, ends one deeper with the lock, or is turned away; then the thread did not have the lock, read another owner or lost the swap, and another thread held the lock at some moment of the attempt |
| SpinLock.OwnerGetsIn | include/nedmalloc/malloc.c.h:2075-2079 | a thread that has the lock is never turned away: its acquire or try goes through reading and raising the count to one deeper, and its release through lowering it |
| SpinLock.CallsAdvance | include/nedmalloc/malloc.c.h:2070-2140 | each step that a thread takes in a call brings its return nearer, but for those at which an acquire is turned away because another thread has the lock |
| SpinLock.MayStep | include/nedmalloc/malloc.c.h:2070-2140 | in every state of every run every thread can go on, and one that is between its calls may acquire, try, or release what it has |
| SpinLock.CountIsDepth | include/nedmalloc/malloc.c.h:2077-2090 | in every state, a thread owns the lock if and only if it has acquisitions to release, from its setting of the owner to its clearing of it, and the counter is their number, but for the last one once it is being released |
| SpinLock.SetWhileHeld | include/nedmalloc/malloc.c.h:2070-2140 | the lock word is set if and only if some thread holds the lock |
| SpinLock.ClearedByOutermost | include/nedmalloc/malloc.c.h:2112-2115 | the lock word is cleared only by the outermost release |
| SpinLock.OnlyHolderWrites | include/nedmalloc/malloc.c.h:2070-2140 | a thread that does not hold the lock changes neither owner nor counter |
| SpinLock.FreeIsTaken | include/nedmalloc/malloc.c.h:2081-2091 | a swap while nobody holds the lock succeeds |
| LockPair.SortLocks | include/libevent/evthread-internal.h:325-332 | the two locks, in ascending order when both are given, and as named when one is null or they are in order already |
| LockPair.SortedAlike | include/libevent/evthread-internal.h:325-332 | two locks that are given are put in the same order whichever way they are named, a lock and null are not |
| LockPair.StepKeeps | include/libevent/evthread-internal.h:336-354 | every lock taken is one of the pair its thread named, and no two threads have the same |
| LockPair.WaitsHigher | include/libevent/evthread-internal.h:334-344 | the thread that has the lock another waits for waits, if at all, for a greater one |
| LockPair.NoDeadlock | include/libevent/evthread-internal.h:334-344 | in every state of every run, if a thread is amid its calls, some thread amid its calls can go on, and its step brings it nearer to their end |
| LockPair.HasWhatItNamed | include/libevent/evthread-internal.h:336-354 | over every run, a thread that named two locks takes the lesser first, has exactly the two, null and equal ones included, when it is next inside, gives the greater back first, and has none when it is next between its calls; UNLOCK2 may name them in either order |
| LockPair.MayName | include/libevent/evthread-internal.h:334-344 | between its calls a thread may name any two locks, null and equal ones included |
| LockPair.GivesItsOwn | include/libevent/evthread-internal.h:346-354 | UNLOCK2 gives back only locks that its thread has, in whichever order they are named |
| HashTable.CallsInRange | include/libevent/ht-internal.h:324-327 | the do-while loop stays within the table of primes at every size from which insert and replace can call it, in a table within its limit, if and only if the last limit is above one, and not three after two |
| HashTable.LimitExactly | include/libevent/ht-internal.h:325 | the limit for a length is the largest count that the load factor allows: q <= limit if and only if den * q <= num * length |
| HashTable.IndexExactly | include/libevent/ht-internal.h:118 | the bucket of a key is the only one below the length that differs from the hash by a multiple of the length |
| HashTable.InRangeExactly | include/libevent/ht-internal.h:324-327 | the loop finds a prime for a size if and only if the largest prime would do |
| HashTable.NextSize | include/libevent/ht-internal.h:323-327 | the first later prime whose limit exceeds the size |
| HashTable.RehashFresh | include/libevent/ht-internal.h:328-346 | every element goes from the old array to a bucket of the new one that differs from its hash by a multiple of the new length, and none is lost |
| HashTable.RehashInPlace | include/libevent/ht-internal.h:347-367 | redistribution among chains still being scanned ends with every element in a bucket that differs from its hash by a multiple of the new length, and none is lost |
| HashTable.SettleChain | include/libevent/ht-internal.h:352-365 | one chain of it: what belongs elsewhere leaves, what stays is settled, and the loop ends |
| HashTable.Cut | include/libevent/ht-internal.h:210-211 | taking out the element a slot points to takes exactly it out of its chain |
| HashTable.Table.FindSlot | include/libevent/ht-internal.h:139-152 | the slot of the element with an equal key, or the end of the chain of its hash; null if and only if there is no table |
| HashTable.Table.Find | include/libevent/ht-internal.h:153-163 | agrees with the abstract map |
| HashTable.Table.Insert | include/libevent/ht-internal.h:164-177 | adds a new key to the abstract map, and counts it; it fails, dividing by zero, if and only if there is no table and no memory for one; a full table grows to the first size with room for one more, if there is memory. The table passes the representation check after the call if and only if the call failed, or the table had room before, or was below the last size with memory to grow. The element is the first of its bucket, and every element is in the bucket that its hash gives modulo the length |
| HashTable.Table.Replace | include/libevent/ht-internal.h:178-199 | puts the element in the map and returns the one it replaces, unlinked; it fails, reading through a null slot, if and only if there is no table and no memory for one; an element that is in the table already is counted again. Otherwise the table passes the representation check under the condition of an insertion, or if it passed before and the key was in the map. Every element is in the bucket that its hash gives modulo the length |
| HashTable.Table.CountedTwiceIsBad | include/libevent/ht-internal.h:385-417 | a table with an element counted again fails the representation check |
| HashTable.Table.CallInRangeExactly | include/libevent/ht-internal.h:324-327 | the call that insert or replace is about to make finds a size if and only if the table has room, or the last size, or a last limit above one more than its entries |
| HashTable.Table.Remove | include/libevent/ht-internal.h:200-215 | takes the key out of the map and returns its element, unlinked |
| HashTable.Table.Grow | include/libevent/ht-internal.h:312-371 | keeps the elements, and each is in the bucket that its hash gives modulo the new length; it fails if and only if it is due and neither allocation succeeds, and then nothing changes |
| HashTable.Table.AlwaysInRange | include/libevent/ht-internal.h:313-327 | a table that is not over its limit calls grow in range, for every load factor that passes the test above |
| HashTable.Table.Start | include/libevent/ht-internal.h:243-256 | the first slot in the order of iteration |
| HashTable.Table.Next | include/libevent/ht-internal.h:258-275 | the slot after, and none after the last |
| HashTable.Table.NextRemove | include/libevent/ht-internal.h:277-294 | takes out the element and gives the slot after it |
| HashTable.Table.EachOnce | include/libevent/ht-internal.h:243-294 | the order of iteration has every element exactly once |
| HashTable.Table.Traverse | include/libevent/ht-internal.h:243-294 | a traversal that removes elements, as a callback decides from each and those met before it, visits each element once, in order, ends, and leaves exactly the others |
| HashTable.Table.ForeachFn | include/libevent/ht-internal.h:216-242 | the same for HT_FOREACH_FN |
| HashTable.Table.Clear | include/libevent/ht-internal.h:375-381 | an empty table |
| HashTable.Table.RepIsBad | include/libevent/ht-internal.h:385-417 | answers zero if and only if the fields are as they should be and every element is in a bucket that differs from its hash by a multiple of the length; 10000 and more names a bucket with an element that is not |
| HashTable.Table.ValidPasses | include/libevent/ht-internal.h:385-417 | a reachable table passes the check if and only if it holds no more than its limit |
| HashTable.Run | include/libevent/ht-internal.h:139-215 | in every run of insertions, replacements and removals, with or without memory, the table is exactly what the calls make of the abstract one and its size: a call goes undone if and only if grow would run out of primes, or there is no array and no memory for one. In the end the table passes the representation check if and only if it is not over its limit, and every element is in the bucket that its hash gives modulo the length |
| HashTable.PassesExactly | include/libevent/ht-internal.h:385-417 | the table passes the representation check after every call of a run if and only if each call fits when it is made: it adds no entry, or there is room within the limit, or memory for a larger array |
| HashTable.GrantedRun | include/libevent/ht-internal.h:313-327 | in a run with memory, for a load factor that passes the test above, every call is made, and the table passes the representation check until it has the last size |
| HashTable.OverFill | include/libevent/ht-internal.h:164-177 | for each such load factor: a table that was filled to its limit, and, without memory to grow, given one entry more; it fails the representation check |
| HashTable.RunOut | include/libevent/ht-internal.h:313-327 | for each load factor that fails the test: a table, made by at most two insertions with all the memory they ask for, whose next insertion makes grow read past the primes |
| MinHeap.NeverBothWays | include/libevent/minheap-internal.h:102-110 | when the last event is earlier than the parent of the erased one it is no later than any child, so it never has to move both ways |
| MinHeap.Later | include/libevent/minheap-internal.h:59-62 | of two times with microseconds below a million, one is later if and only if it is more microseconds |
| MinHeap.FirstIsLeast | include/libevent/minheap-internal.h:69 | no event is earlier than the first |
| MinHeap.MinHeap.ShiftUp | include/libevent/minheap-internal.h:133-143 | fills the hole on the way up, keeping order and every stored index |
| MinHeap.MinHeap.ShiftDown | include/libevent/minheap-internal.h:145-158 | fills the hole on the way down, keeping order and every stored index |
| MinHeap.MinHeap.Reserve | include/libevent/minheap-internal.h:117-131 | room for n, the capacity doubling from 8; it fails if and only if more is needed and there is no memory, and then everything is as it was |
| MinHeap.MinHeap.Push | include/libevent/minheap-internal.h:71-77 | adds the event; on failure everything is as it was |
| MinHeap.MinHeap.Pop | include/libevent/minheap-internal.h:79-89 | takes out an event due in the fewest microseconds, the seconds deciding first where microseconds are a million or more, and sets its index to -1; null if and only if the heap is empty |
| MinHeap.MinHeap.Erase | include/libevent/minheap-internal.h:96-115 | takes out the event wherever it is, and sets its index to -1; fails if and only if it was not in the heap |
| MinHeap.Run | include/libevent/minheap-internal.h:64-158 | every sequence of push, pop and erase is one of a priority queue: each set of queued events follows from the one before by the call, each event popped is due in the fewest microseconds of those then queued; in the end each event in the heap holds its index, and each other holds -1 |
| RefCount.Graph.Dec | include/LuaBridge/RefCountedObject.h:91-97 | one count less, and nothing else, when another pointer is left; otherwise the object is deleted, and a cascade of others after it, each when the last pointer to it goes with one deleted before |
| RefCount.Graph.Delete | include/LuaBridge/RefCountedObject.h:96-117 | the destructors of the members let go of their objects, last first; the cascade ends, deletes each object once, and none that it does not orphan |
| RefCount.Graph.LetGo | include/LuaBridge/RefCountedObject.h:258-267 | the destructor of a pointer: the pointer is gone, and its object has one count less, or goes with its cascade |
| RefCount.Graph.NewPointer | include/LuaBridge/RefCountedObject.h:160-184 | the constructors of a pointer raise the count of its object by one |
| RefCount.Graph.Assign | include/LuaBridge/RefCountedObject.h:241-256 | the new object's count is raised before the old object goes, so the new object outlives the cascade as long as the pointer does |
| RefCount.LessThen | include/LuaBridge/RefCountedObject.h:91-117 | cascades compose: objects go with their members, each after the last pointer to it, and every other pointer stays as it was |
| RefCount.GoneExactly | include/LuaBridge/RefCountedObject.h:91-117 | the objects deleted with a pointer are the least set that holds every object all of whose pointers are members of objects of the set |
| RefCount.DeletedWereCounted | include/LuaBridge/RefCountedObject.h:91-97 | an object to which no pointer was made yet is never deleted |
| RefCount.PointerMoved | include/LuaBridge/RefCountedObject.h:243-252 | between raising the new count and lowering the old one exactly the old object has one count too many |
| RefCount.Run | include/LuaBridge/RefCountedObject.h:82-267 | after each step of any run of making, referring, assigning and letting go each count is the number of pointers to the object, and each object that goes in the step goes once |
| RefCount.NoLeak | include/LuaBridge/RefCountedObject.h:82-97 | over an acyclic graph every object that exists is owned through some chain of members by one that the program holds |
| RefCount.LeakedExactly | include/LuaBridge/RefCountedObject.h:82-97 | an object is owned through no such chain if and only if it lies in a set of counted objects to which only members of its own objects refer |
| RefCount.CycleStays | include/LuaBridge/RefCountedObject.h:82-97 | such a set stays, with its members, through any run of operations that name none of its objects and members |
| RefCount.MakeCycle | include/LuaBridge/RefCountedObject.h:82-97 | a program makes one: two objects are made each a member of the other, and let go of; both stay, and neither is owned through a chain |

## Left out

- Global `dl*` entry points of the allocator: the same algorithms, in calls that do not match the functions they call.
- MORECORE, FOOTERS, PROCEED_ON_ERROR, the M2 flags, calloc, the independent allocations, mallinfo, statistics, mallopt,
  create_mspace and destroy_mspace: configuration, zeroing and reporting.
- Mspace.Mspace.MmapResize: remapping (`CALL_MREMAP`) of a chunk that is to grow or to shrink is not modelled; it is as though
  the system never did it.
- Mspace.Mspace.SysTrim: the end of top goes back by `CALL_MUNMAP` only, and `CALL_MREMAP`, tried first, is left out.
- The Windows and large-page mapping code: calls into the system.
- The link words of binned chunks are fields of the bins, not words of the memory; `Coverage.LinksInside` shows that they lie
  in free chunks, apart from every block.
- Segment records are a sequence in list order, each with its address; the words of a record are not read back from memory.
- Mspace.Mspace.constructor: memory given to a space by its user is taken to be aligned, where the program aligns it.
- Locking of a space: PREACTION and POSTACTION are the spin lock, which is modelled on its own.
- Mspace.Mspace.Memalign: alignments above 2 to the 63 are shut out, because the program does not return for them.
- Alignment.RoundAlignment: the same alignments, for the same reason.
- Mspace.Mspace.SysAlloc: whether regions are mapped directly is fixed when a space is made; `mspace_track_large_chunks`, which
  turns it on and off, is not modelled.
- Client.Run: the contents of a new block are whatever the memory holds, and which of several chunks of the least size in the
  trees serves a request is left open.
- SpinLock.RunKeeps: memory is sequentially consistent, the counter is unbounded where the program has 32 bits, and fairness of
  the spinning is not modelled.
- LockPair.NoDeadlock: a thread takes one pair at a time; pairs taken while holding another are not promised anything.
- HashTable.Table.ForeachFn: the callback is a function of the element and of those met before it; what it does elsewhere
  through its data is not modelled.
- HashTable.Run: replacements by an element that is in the table already, and insertions of a key that is, are not made.
- The hash table's HT_CACHE_HASH_VALUES variant, find-or-insert macro and string hash functions. Elements that eqfn calls equal
  have one key here, and the hash is a function of the key; the load factor is a fraction.
- The timer heap's sizes and indices are unbounded where the program has 32 bits; the time of an event does not change.
- Move construction and assignment, and calls of the count by hand, in the reference counts; a pointer that is destroyed by
  the program is not a member of an object.
- RefCount.Run: counts are unbounded where the program has an int.
