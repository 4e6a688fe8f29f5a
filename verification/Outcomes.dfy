// What the operations of a space promise: the accounts it keeps, the outcome
// of an allocation and of a release, and the lemmas by which each way of
// allocating or freeing keeps the promise.
module Outcomes {
  import opened Tiling
  import opened HeapState
  import opened HeapBlocks
  import opened HeapSegments
  import opened HeapDirect
  import opened Requests
  import opened Footprint
  import opened Bytes
  import Alignment
  import BinMap
  import S = SmallBins
  import TreeIndex
  import TreeSearch

  // ---- The accounts of a space ----

  // The accounts; keptBytes counts the bytes of directly mapped regions that the system would not take back since the
  // space was made.
  datatype Books = Books(footprint: nat, maxFootprint: nat, least: Addr, checks: nat, mapped: set<Addr>,
                         home: Addr, granularity: nat, page: nat, keptBytes: int)

  // All bytes of the segments and of directly mapped regions come from the system.
  ghost predicate Owns(h: Heap, mapped: set<Addr>) {
    && h.arena <= mapped
    && (forall p, x :: p in h.direct && InRegion(p, h.direct[p], x) ==> x in mapped)
  }

  // No address in use is below the least.
  ghost predicate LeastOk(h: Heap, least: Addr) {
    && least > 0 && (forall x :: x in h.arena ==> least <= x)
    && (forall p :: p in h.direct ==> least <= h.direct[p].start)
  }

  // A mapped segment is made of whole units; the others came from outside.
  ghost predicate SegmentsWhole(segs: seq<Segment>, unit: nat) {
    forall s :: s in segs ==> s.mmapped != s.extern && (s.mmapped ==> Units(s.size, unit))
  }

  // A mapped block has a region of whole pages, and a chunk that is not small.
  ghost predicate RegionWhole(p: Addr, r: Region, page: nat) {
    && r.start <= p && Units(r.start, page) && Units(RegionEnd(p, r) - r.start, page) && !S.IsSmall(r.size)
  }

  ghost predicate RegionsWhole(direct: map<Addr, Region>, page: nat) {
    forall p :: p in direct ==> RegionWhole(p, direct[p], page)
  }

  // What an operation on blocks does not change.
  ghost predicate SameTerms(b: Books, b2: Books) {
    && b2.checks == b.checks && b2.home == b.home && b2.granularity == b.granularity && b2.page == b.page
    && b2.keptBytes == b.keptBytes
  }

  // The size of the state, with its overhead
  const MSTATE_SIZE: nat := 1016

  // The chunk that holds the state itself.
  ghost predicate HomeOk(h: Heap, home: Addr) {
    home in h.inner && home in h.tiles && h.tiles[home] == Tile(MSTATE_SIZE, true)
  }

  ghost predicate BooksOk(h: Heap, b: Books) {
    match b
    case Books(footprint, maxFootprint, least, checks, mapped, home, granularity, page, keptBytes) =>
      && footprint == TotalBytes(h) + keptBytes && keptBytes >= 0 && footprint <= maxFootprint && checks > 0
      && Owns(h, mapped) && LeastOk(h, least) && HomeOk(h, home) && SegmentsWhole(h.segs, granularity)
      && RegionsWhole(h.direct, page)
  }

  lemma BooksKept(h: Heap, h2: Heap, b: Books)
    requires BooksOk(h, b) && InnerKept(h, h2)
    requires h2.segs == h.segs && h2.arena == h.arena && h2.direct == h.direct && h2.inner == h.inner
    ensures BooksOk(h2, b)
  {
  }

  // ---- What the operations promise ----

  predicate RequestOk(nb: nat) {
    Aligned(nb) && MIN_CHUNK_SIZE <= nb && nb + 112 < TWO64
  }

  // The outcome of an allocation of nb bytes at mem, or null.
  ghost predicate Malloced(h: Heap, h2: Heap, mem: Addr, nb: nat) {
    && Undisturbed(h, h2, h.live)
    && if mem == 0 then h2.live == h.live
       else
         && mem >= TWO_WORDS
         && var p := mem - TWO_WORDS;
         && p !in h.live && h2.live == h.live + {p} && Aligned(mem)
         && (p in h2.tiles ==> nb <= h2.tiles[p].size < nb + MIN_CHUNK_SIZE)
         && (p in h2.direct ==> nb + MMAP_CHUNK_OVERHEAD <= h2.direct[p].size && AtStart(p, h2.direct[p]))
  }

  // A mapped block that starts as far into its region as mmap_alloc makes it.
  predicate AtStart(p: Addr, r: Region) {
    r.start + MALLOC_ALIGNMENT == p
  }

  // ---- Which chunk serves a request ----

  datatype Source = SmallBin | LargeTree | Victim | TopChunk | System

  // The victim is passed over for a smaller large chunk that fits, and for a small one that leaves no rest. A small
  // request that the victim cannot hold takes any other small chunk rather than a large one; top comes last.
  ghost function SourceOf(h: Heap, nb: nat): Source {
    if S.IsSmall(nb) && exists p :: p in h.small && nb <= h.small[p] <= nb + 8 then SmallBin
    else if !S.IsSmall(nb) && exists p :: p in h.large && nb <= h.large[p] && (nb <= h.dvsize ==> h.large[p] < h.dvsize)
    then LargeTree
    else if nb <= h.dvsize then Victim
    else if S.IsSmall(nb) && exists p :: p in h.small && nb <= h.small[p] then SmallBin
    else if S.IsSmall(nb) && h.large != map[] then LargeTree
    else if nb < h.topsize then TopChunk
    else System
  }

  // The chunk p fits, and no chunk of the bins m that fits is smaller.
  ghost predicate LeastFit(m: map<Addr, nat>, p: Addr, nb: nat) {
    p in m && nb <= m[p] && forall q :: q in m && nb <= m[q] ==> m[p] <= m[q]
  }

  // The free chunk of the block mem was split, its first nb bytes for the block, or, but for top, used whole when the
  // rest would be less than a chunk.
  ghost predicate Cut(h: Heap, h2: Heap, mem: Addr, nb: nat, rest: Rest) {
    && mem >= TWO_WORDS
    && var p := mem - TWO_WORDS;
    && p in h.tiles && !h.tiles[p].used && nb <= h.tiles[p].size
    && if rest == ToTop || h.tiles[p].size - nb >= MIN_CHUNK_SIZE
       then nb < h.tiles[p].size && h2 == CarvedHeap(h, h2.mem, p, nb, rest)
       else h2 == TakenHeap(h, h2.mem, p)
  }

  // Unless the system was asked, the block mem was cut from the chunk that the source gives: of a bin, a least one that
  // fits.
  ghost predicate ServedFrom(h: Heap, h2: Heap, mem: Addr, nb: nat) {
    SourceOf(h, nb) != System ==>
      && mem >= TWO_WORDS
      && match SourceOf(h, nb)
         case SmallBin => LeastFit(h.small, mem - TWO_WORDS, nb) && Cut(h, h2, mem, nb, ToVictim)
         case LargeTree =>
           && LeastFit(h.large, mem - TWO_WORDS, nb)
           && Cut(h, h2, mem, nb, if S.IsSmall(nb) then ToVictim else ToBin)
         case Victim => mem - TWO_WORDS == h.dv && Cut(h, h2, mem, nb, ToVictim)
         case TopChunk => mem - TWO_WORDS == h.top && Cut(h, h2, mem, nb, ToTop)
         case System => false
  }

  // What the bins can serve, and what they leave to the victim, to top or to the system.
  ghost predicate FromBins(h: Heap, h2: Heap, mem: Addr, nb: nat) {
    if SourceOf(h, nb) in {SmallBin, LargeTree} then ServedFrom(h, h2, mem, nb) else mem == 0 && h2 == h
  }

  // What the victim or top serves, when the bins do not.
  ghost predicate FromRest(h: Heap, h2: Heap, mem: Addr, nb: nat) {
    if nb <= h.dvsize then mem == h.dv + TWO_WORDS && Cut(h, h2, mem, nb, ToVictim)
    else nb < h.topsize ==> mem == h.top + TWO_WORDS && Cut(h, h2, mem, nb, ToTop)
  }

  lemma BinsServe(h: Heap, h2: Heap, mem: Addr, nb: nat)
    requires FromBins(h, h2, mem, nb) && mem != 0
    ensures SourceOf(h, nb) != System
  {
  }

  // What the bins do not serve, the victim does, or top, or the system.
  lemma BinsLeave(h: Heap, h2: Heap, nb: nat)
    requires Ok(h) && FromBins(h, h2, 0, nb)
    ensures h2 == h && (SourceOf(h, nb) == System <==> nb > h.dvsize && nb >= h.topsize)
    ensures HasRoom(h, nb) ==> nb <= h.dvsize || nb < h.topsize
  {
    RoomExactly(h, nb);
    hide Ok, HasRoom;
  }

  lemma RestServed(h: Heap, h1: Heap, h2: Heap, r: Addr, mem: Addr, nb: nat)
    requires FromBins(h, h1, r, nb) && (if r == 0 then FromRest(h, h2, mem, nb) else h2 == h1 && mem == r)
    ensures ServedFrom(h, h2, mem, nb) && (r == 0 <==> SourceOf(h, nb) !in {SmallBin, LargeTree})
  {
    hide Cut, LeastFit;
  }

  // Of the blocks that the system serves, those due to be mapped directly, and no others, are, unless the system
  // refuses, or the padding of the request wraps.
  ghost predicate DirectAs(h2: Heap, mem: Addr, nb: nat, due: bool, page: nat, refused: bool) {
    mem != 0 ==>
      && mem >= TWO_WORDS
      && if mem - TWO_WORDS in h2.direct then due && page > 0 && MappedAs(h2, mem, AlignUp(nb + 63, page))
         else due ==> refused || nb + 63 + page > TWO64
  }

  // What the system gives for a block: whole pages, or whole granules with what a segment needs.
  function NewBytes(h2: Heap, mem: Addr, nb: nat, granularity: nat, page: nat): nat
    requires granularity > 0 && page > 0
  {
    if mem >= TWO_WORDS && mem - TWO_WORDS in h2.direct then AlignUp(nb + 63, page)
    else AlignUp(nb + SYS_ALLOC_PADDING, granularity)
  }

  // The parameters of the allocator that a space goes by when it asks the system.
  datatype Settings = Settings(granularity: nat, page: nat, mmapThreshold: nat, useMmap: bool)

  // Where the block of a malloc comes from.
  ghost predicate Chosen(h: Heap, h2: Heap, bytes: nat, mem: Addr, s: Settings, refused: bool) {
    bytes < MAX_REQUEST ==>
      var nb := RequestToSize(bytes);
      && ServedFrom(h, h2, mem, nb)
      && (SourceOf(h, nb) == System ==>
          DirectAs(h2, mem, nb, s.useMmap && nb >= s.mmapThreshold, s.page, refused))
  }

  lemma NotDirect(h: Heap, h2: Heap, mem: Addr, nb: nat)
    requires Ok(h) && Malloced(h, h2, mem, nb) && mem != 0 && h2.direct == h.direct
    ensures mem >= TWO_WORDS && mem - TWO_WORDS !in h2.direct
  {
    hide CoreOk, Undisturbed;
  }

  // A chunk fits if and only if the system is not asked.
  lemma RoomExactly(h: Heap, nb: nat)
    requires Ok(h)
    ensures HasRoom(h, nb) <==> SourceOf(h, nb) != System
  {
    NotLarger(h, nb);
    hide Ok;
    if p :| p in h.large {
      LargeChunk(h, p);
    }
  }

  // One of the next two small bins is in use.
  lemma NearServed(h: Heap, h2: Heap, b: S.Bins, i: nat, f: nat, mem: Addr, nb: nat)
    requires S.Ok(b) && h.small == S.Sizes(b.bin) && nb == S.IndexSize(i) && i <= f <= i + 1 && i < 32
    requires f == i || !BinMap.Marked(b.smallmap, i)
    requires Cut(h, h2, mem, nb, ToVictim) && mem - TWO_WORDS in h.small && h.small[mem - TWO_WORDS] == S.IndexSize(f)
    ensures FromBins(h, h2, mem, nb)
  {
    hide BinMap.Marked, S.Ok, S.Sizes, Cut;
    S.NoneBetween(b, i, f);
    assert nb <= h.small[mem - TWO_WORDS] <= nb + 8;
    assert SourceOf(h, nb) == SmallBin;
  }

  // Neither is, and the victim is large enough.
  lemma NoneNear(h: Heap, b: S.Bins, i: nat, nb: nat)
    requires S.Ok(b) && h.small == S.Sizes(b.bin) && nb == S.IndexSize(i) && i < 32
    requires !BinMap.Marked(b.smallmap, i) && (i < 31 ==> !BinMap.Marked(b.smallmap, i + 1))
    ensures forall p :: p in h.small ==> !(nb <= h.small[p] <= nb + 8)
    ensures nb <= h.dvsize ==> FromBins(h, h, 0, nb)
  {
    hide BinMap.Marked, S.Ok, S.Sizes;
    S.NoneBetween(b, i, i + 2);
  }

  // Nothing in the bins is.
  lemma NoneBinned(h: Heap, nb: nat)
    requires S.IsSmall(nb) && h.large == map[] && (forall p :: p in h.small ==> h.small[p] < nb) && nb > h.dvsize
    ensures FromBins(h, h, 0, nb)
  {
  }

  // The smallest chunk of the trees serves a small request that nothing smaller can.
  lemma TreeServed(h: Heap, h2: Heap, mem: Addr, nb: nat)
    requires S.IsSmall(nb) && (forall p :: p in h.small ==> h.small[p] < nb) && nb > h.dvsize
    requires Cut(h, h2, mem, nb, ToVictim) && LeastFit(h.large, mem - TWO_WORDS, nb)
    ensures FromBins(h, h2, mem, nb)
  {
    hide Cut;
  }

  // The choice between the trees and the victim for a large request.
  lemma LargeServed(h: Heap, h2: Heap, mem: Addr, nb: nat)
    requires !S.IsSmall(nb)
    requires mem == 0 ==> h2 == h && forall q :: q in h.large && nb <= h.large[q] ==> nb <= h.dvsize <= h.large[q]
    requires mem != 0 ==>
        && Cut(h, h2, mem, nb, ToBin) && LeastFit(h.large, mem - TWO_WORDS, nb)
        && (nb <= h.dvsize ==> h.large[mem - TWO_WORDS] < h.dvsize)
    ensures FromBins(h, h2, mem, nb)
  {
    hide Cut;
  }

  // A later one is.
  lemma LaterServed(h: Heap, h2: Heap, b: S.Bins, i: nat, f: nat, mem: Addr, nb: nat)
    requires S.Ok(b) && h.small == S.Sizes(b.bin) && nb == S.IndexSize(i) && i < f < 32 && nb > h.dvsize
    requires forall j: nat :: i <= j < f ==> !BinMap.Marked(b.smallmap, j)
    requires Cut(h, h2, mem, nb, ToVictim) && mem - TWO_WORDS in h.small && h.small[mem - TWO_WORDS] == S.IndexSize(f)
    ensures FromBins(h, h2, mem, nb)
  {
    hide BinMap.Marked, S.Ok, S.Sizes, Cut;
    S.NoneBetween(b, i, f);
    assert nb <= h.small[mem - TWO_WORDS];
    assert SourceOf(h, nb) == SmallBin;
  }

  lemma MallocedAt(h: Heap, h2: Heap, p: Addr, nb: nat)
    requires Undisturbed(h, h2, h.live) && p !in h.live && h2.live == h.live + {p} && Aligned(p)
    requires Ok(h2) && p in h2.tiles && nb <= h2.tiles[p].size < nb + MIN_CHUNK_SIZE
    ensures Malloced(h, h2, p + TWO_WORDS, nb)
  {
    hide Undisturbed, CoreOk, SpaceOk;
    AlignedSum(p, TWO_WORDS);
  }

  // Splitting or taking a free chunk completes an allocation.
  lemma CarveDone(h: Heap, m: Memory, p: Addr, nb: nat, rest: Rest, b: Books)
    requires CanCarve(h, p, nb, rest) && CarveWrites(h.mem, m, p, nb, h.tiles[p].size, p == h.top) && Ok(h)
        && BooksOk(h, b)
    ensures var h2 := CarvedHeap(h, m, p, nb, rest);
      Ok(h2) && BooksOk(h2, b) && Malloced(h, h2, p + TWO_WORDS, nb) && h2.tiles[p].size == nb
  {
    hide Ok, BooksOk, Malloced, Undisturbed, InnerKept, CarveWrites, SmallAfter, LargeAfter;
    var h2 := CarvedHeap(h, m, p, nb, rest);
    CarveOk(h, h2, p, nb, rest);
    BooksKept(h, h2, b);
    AlignedChunk(h, p);
    MallocedAt(h, h2, p, nb);
  }

  lemma SplitDone(h: Heap, m: Memory, p: Addr, nb: nat, rest: Rest, b: Books)
    requires CanCarve(h, p, nb, rest) && p != h.top && Ok(h) && BooksOk(h, b)
    requires var size := h.tiles[p].size;
      || m == SetSizeOfFree(SetSizeOfInuse(h.mem, p, nb), p + nb, size - nb)
      || m == SetSizeOfInuse(SetSizeOfFree(h.mem, p + nb, size - nb), p, nb)
    ensures var h2 := CarvedHeap(h, m, p, nb, rest); Ok(h2) && BooksOk(h2, b) && Malloced(h, h2, p + TWO_WORDS, nb)
  {
    hide Ok, BooksOk, Malloced, CarveWrites, SmallAfter, LargeAfter, SetSizeOfFree, SetSizeOfInuse;
    SplitWords(h.mem, p, nb, h.tiles[p].size);
    CarveDone(h, m, p, nb, rest, b);
  }

  // A chunk of a bin is split, and the rest goes to a bin.
  lemma CarveToBinFields(h: Heap, m: Memory, p: Addr, nb: nat)
    requires p in h.tiles && nb < h.tiles[p].size
    ensures var h2, r, size := CarvedHeap(h, m, p, nb, ToBin), p + nb, h.tiles[p].size - nb;
      && h2.mem == m && h2.top == h.top && h2.topsize == h.topsize && h2.segs == h.segs
      && h2.dv == h.dv && h2.dvsize == h.dvsize
      && h2.small == PutSmall(h.small - {p}, r, size) && h2.large == PutLarge(h.large - {p}, r, size)
  {
    hide PutSmall, PutLarge, Carved;
  }

  lemma AlignedChunk(h: Heap, p: Addr)
    requires Ok(h) && p in h.tiles
    ensures Aligned(p)
  {
    ChunkFacts(h, p);
  }

  lemma TakeDone(h: Heap, m: Memory, p: Addr, nb: nat, b: Books)
    requires p in h.tiles && !h.tiles[p].used && p != h.top && Ok(h) && BooksOk(h, b)
    requires m == SetInuseAndPinuse(h.mem, p, h.tiles[p].size) && nb <= h.tiles[p].size < nb + MIN_CHUNK_SIZE
    ensures var h2 := TakenHeap(h, m, p); Ok(h2) && BooksOk(h2, b) && Malloced(h, h2, p + TWO_WORDS, nb)
  {
    hide Ok, BooksOk, Malloced, Undisturbed, InnerKept, TakeWrites, SetInuseAndPinuse;
    var h2 := TakenHeap(h, m, p);
    TakePositive(h, p);
    TakeWords(h.mem, p, h.tiles[p].size);
    TakeOk(h, h2, p);
    BooksKept(h, h2, b);
    AlignedChunk(h, p);
    MallocedAt(h, h2, p, nb);
  }

  lemma TakePositive(h: Heap, p: Addr)
    requires Ok(h) && p in h.tiles
    ensures h.tiles[p].size > 0
  {
    ChunkFacts(h, p);
  }

  lemma NoKey(m: map<Addr, nat>, p: Addr)
    requires p !in m
    ensures m - {p} == m
  {
  }

  // The victim is in no bin, and neither is anything in use.
  lemma VictimFacts(h: Heap)
    requires Ok(h) && h.dvsize > 0
    ensures h.dv in h.tiles && !h.tiles[h.dv].used && h.dv != h.top && h.tiles[h.dv].size == h.dvsize && Aligned(h.dv)
    ensures Aligned(h.dvsize) && h.dvsize >= MIN_CHUNK_SIZE && h.dvsize < TWO64 && h.dv > 0
    ensures h.dv !in h.small && h.dv !in h.large
    ensures h.small - {h.dv} == h.small && h.large - {h.dv} == h.large
  {
    hide Tagged;
    assert TileOk(h.tiles, h.ends, h.top, h.dv);
    ChunkFacts(h, h.dv);
  }

  // ---- A new space ----

  // The memory given to a space: the chunk of the state, the top chunk, and the top foot.
  ghost function FirstHeap(m: Memory, tbase: Addr, tsize: nat, mmapped: bool): Heap
    requires tsize > MSTATE_SIZE + TOP_FOOT_SIZE
  {
    var mn, size := tbase + MSTATE_SIZE, tsize - MSTATE_SIZE - TOP_FOOT_SIZE;
    Heap(m, map[tbase := Tile(MSTATE_SIZE, true), mn := Tile(size, false)], {tbase}, {mn + size}, mn, size, 0, 0,
        map[], map[],
         [Segment(tbase, tsize, 0, mmapped, !mmapped)], Range(tbase, tbase + tsize), map[], {}, {tbase})
  }

  function InitialWords(m: Memory, tbase: Addr, tsize: nat): Memory
    requires tsize > MSTATE_SIZE + TOP_FOOT_SIZE
  {
    var mn, size := tbase + MSTATE_SIZE, tsize - MSTATE_SIZE - TOP_FOOT_SIZE;
    SetHead(SetHead(SetHead(m, tbase, Word(MSTATE_SIZE, true, true)), mn, Word(size, false, true)),
            mn + size, Word(TOP_FOOT_SIZE, false, false))
  }

  lemma FirstOk(m: Memory, tbase: Addr, tsize: nat, mmapped: bool)
    requires tbase > 0 && Aligned(tbase) && Aligned(tsize) && tsize > MSTATE_SIZE + TOP_FOOT_SIZE
        && tbase + tsize <= TWO64
    ensures Ok(FirstHeap(InitialWords(m, tbase, tsize), tbase, tsize, mmapped))
  {
    var h := FirstHeap(InitialWords(m, tbase, tsize), tbase, tsize, mmapped);
    var mn, size := tbase + MSTATE_SIZE, tsize - MSTATE_SIZE - TOP_FOOT_SIZE;
    AlignedSum(tbase, MSTATE_SIZE);
    AlignedSum(tsize, MSTATE_SIZE + TOP_FOOT_SIZE);
    FirstCore(h, tbase, tsize, mmapped, m);
    FirstSpace(h, tbase, tsize, mmapped, m);
  }

  lemma FirstCore(h: Heap, tbase: Addr, tsize: nat, mmapped: bool, m: Memory)
    requires tbase > 0 && Aligned(tbase) && tsize > MSTATE_SIZE + TOP_FOOT_SIZE
        && Aligned(tsize - MSTATE_SIZE - TOP_FOOT_SIZE)
    requires Aligned(tbase + MSTATE_SIZE) && h == FirstHeap(InitialWords(m, tbase, tsize), tbase, tsize, mmapped)
    ensures CoreOk(h, {})
  {
    hide Aligned;
    StateAligned();
    assert TileOk(h.tiles, h.ends, h.top, tbase) && TileOk(h.tiles, h.ends, h.top, tbase + MSTATE_SIZE);
  }

  lemma StateAligned()
    ensures Aligned(MSTATE_SIZE) && MSTATE_SIZE >= MIN_CHUNK_SIZE
  {
  }

  lemma FirstSpace(h: Heap, tbase: Addr, tsize: nat, mmapped: bool, m: Memory)
    requires tbase > 0 && Aligned(tbase) && Aligned(tsize) && tsize > MSTATE_SIZE + TOP_FOOT_SIZE
        && tbase + tsize <= TWO64
    requires h == FirstHeap(InitialWords(m, tbase, tsize), tbase, tsize, mmapped)
    ensures SpaceOk(h) && UsersOk(h)
  {
    hide Aligned;
    assert EndOf(h, 0) == tbase + tsize - TOP_FOOT_SIZE;
    assert SegmentOk(h, 0);
  }

  lemma FirstBooks(m: Memory, tbase: Addr, tsize: nat, mmapped: bool, mapped: set<Addr>, unit: nat,
      page: nat)
    requires tbase > 0 && tsize > MSTATE_SIZE + TOP_FOOT_SIZE && Range(tbase, tbase + tsize) <= mapped
        && (mmapped ==> Units(tsize, unit))
    ensures BooksOk(FirstHeap(m, tbase, tsize, mmapped),
        Books(tsize, tsize, tbase, MAX_RELEASE_CHECK_RATE, mapped, tbase, unit, page, 0))
  {
    var h := FirstHeap(m, tbase, tsize, mmapped);
    assert h.segs[1..] == [];
    assert SegmentBytes(h.segs) == tsize + SegmentBytes([]) && DirectBytes(map[]) == 0;
  }

  const MAX_RELEASE_CHECK_RATE: nat := 4095

  // mparams: unit sizes are multiples of 8, larger than any small chunk, and not half of the address space.
  ghost predicate ParamsOk(granularity: nat, page: nat) {
    && 4096 <= granularity <= HALF / 2 && 4096 <= page <= HALF / 2 && Aligned(granularity) && Aligned(page)
    && Alignment.IsPow2(granularity) && Alignment.IsPow2(page)
  }

  lemma VictimUnbinned(h: Heap)
    requires Ok(h)
    ensures h.dvsize != 0 ==> h.dv !in h.small && h.dvsize % 8 == 0
  {
    hide Ok;
    if h.dvsize != 0 {
      VictimFacts(h);
    }
  }

  // What a chunk in a bin is.
  lemma SmallChunk(h: Heap, p: Addr)
    requires Ok(h) && p in h.small
    ensures p in h.tiles && !h.tiles[p].used && p != h.top && p != h.dv && h.tiles[p].size == h.small[p]
        && h.small[p] >= MIN_CHUNK_SIZE
    ensures h.large - {p} == h.large && Aligned(h.small[p])
  {
    hide Tagged;
    assert TileOk(h.tiles, h.ends, h.top, p);
  }

  lemma LargeChunk(h: Heap, p: Addr)
    requires Ok(h) && p in h.large
    ensures p in h.tiles && !h.tiles[p].used && p != h.top && p != h.dv && h.tiles[p].size == h.large[p] && p > 0
    ensures h.small - {p} == h.small && Aligned(h.large[p]) && !S.IsSmall(h.large[p]) && h.large[p] < TWO64
  {
    hide Tagged;
    assert TileOk(h.tiles, h.ends, h.top, p);
    ChunkFacts(h, p);
  }

  // Where the rest of a split lies: in no bin.
  lemma RestFacts(h: Heap, p: Addr, nb: nat)
    requires Ok(h) && p in h.tiles && 0 < nb < h.tiles[p].size
    ensures p + nb !in h.tiles && p + nb !in h.small && p + nb !in h.large
  {
    hide Tagged;
    ChunksApart(h, p);
  }

  lemma TopFacts(h: Heap)
    requires Ok(h)
    ensures h.top in h.tiles && !h.tiles[h.top].used && h.tiles[h.top].size == h.topsize && h.top > 0 && h.top != h.dv
    ensures 0 < h.topsize < TWO64 && Aligned(h.topsize) && Aligned(h.top)
  {
    hide Tagged, Binned;
    ChunkFacts(h, h.top);
  }

  lemma AlignedRest(h: Heap, p: Addr, nb: nat)
    requires Ok(h) && p in h.tiles && nb <= h.tiles[p].size && Aligned(nb)
    ensures Aligned(h.tiles[p].size - nb) && h.tiles[p].size < TWO64
  {
    ChunkFacts(h, p);
    AlignedSum(h.tiles[p].size, nb);
  }

  lemma VictimBelow(h: Heap)
    requires Ok(h)
    ensures h.dvsize < TWO64
  {
    hide Ok;
    if h.dvsize > 0 {
      VictimFacts(h);
    }
  }

  lemma NothingMalloced(h: Heap, nb: nat)
    ensures Malloced(h, h, 0, nb)
  {
  }

  // The unsigned difference dvsize - nb wraps to something larger than any remainder when the victim does not fit.
  lemma VictimFitsBetter(dvsize: nat, nb: nat, rsize: nat)
    requires dvsize < TWO64 && nb + rsize < TWO64
    ensures rsize < TreeSearch.Minus(dvsize, nb) <==> dvsize < nb || nb + rsize < dvsize
  {
  }

  // ---- Memory from the system ----

  lemma FreshMap(h: Heap, b: Books, base: Addr, size: nat)
    requires BooksOk(h, b) && Range(base, base + size) !! b.mapped && base > 0 && Aligned(base) && Aligned(size)
        && base + size <= TWO64
    ensures Fresh(h, base, size)
  {
    var r := Range(base, base + size);
    assert forall x :: x in r <==> base <= x < base + size;
    assert forall x :: x in h.arena ==> x in b.mapped && x !in r;
  }

  lemma LeastPositive(h: Heap, b: Books)
    requires BooksOk(h, b)
    ensures b.least > 0 && b.checks > 0 && b.footprint <= b.maxFootprint
  {
  }

  // More mapped memory than accounted for does no harm.
  lemma MoreMapped(h: Heap, b: Books, mapped: set<Addr>)
    requires BooksOk(h, b) && b.mapped <= mapped
    ensures BooksOk(h, b.(mapped := mapped))
  {
  }

  lemma UnitsAligned(n: nat, unit: nat)
    requires Units(n, unit) && Aligned(unit)
    ensures Aligned(n)
  {
    hide Times;
    var k: nat :| n == Times(k, unit);
    TimesAligned(k, unit);
  }

  lemma {:induction false} TimesAligned(k: nat, unit: nat)
    requires Aligned(unit)
    ensures Aligned(Times(k, unit))
  {
    if k > 0 {
      TimesAligned(k - 1, unit);
      TimesSum(k - 1, 1, unit);
      AlignedSum(Times(k - 1, unit), unit);
    }
  }

  // The words mmap_alloc writes, and the outcome.
  function MappedWords(m: Memory, mm: Addr, p: Addr, size: nat): Memory
    requires mm <= p
  {
    var m1 := SetHead(SetFoot(m[mm := Word(0, false, false)], p, p - mm), p, Word(size, false, false));
    SetHead(SetHead(m1, p + size, FENCEPOST), p + size + 8, Word(0, false, false))
  }

  lemma MapDone(h: Heap, m: Memory, mm: Addr, p: Addr, size: nat, nb: nat, b: Books, b2: Books)
    requires p == mm + MALLOC_ALIGNMENT && m == MappedWords(h.mem, mm, p, size)
    requires size >= MIN_CHUNK_SIZE && Aligned(size) && RegionWhole(p, Region(mm, size), b.page)
    requires Fresh(h, mm, p + size + MMAP_FOOT_PAD - mm) && Ok(h) && BooksOk(h, b) && nb + MMAP_CHUNK_OVERHEAD <= size
    requires b2.footprint == b.footprint + (p + size + MMAP_FOOT_PAD - mm) <= b2.maxFootprint
    requires 0 < b2.least <= b.least && b2.least <= mm && Range(mm, p + size + MMAP_FOOT_PAD) <= b2.mapped
        && b.mapped <= b2.mapped
    requires SameTerms(b, b2)
    ensures var h2 := MappedHeap(h, m, mm, p, size); Ok(h2) && BooksOk(h2, b2) && Malloced(h, h2, p + TWO_WORDS, nb)
  {
    hide Ok, BooksOk, Malloced, Undisturbed, InnerKept, Fresh, DirectWrites;
    var h2 := MappedHeap(h, m, mm, p, size);
    MappedAligned(h, mm, p, size);
    MappedWrites(h, mm, p, size);
    DirectMapOk(h, h2, mm, p, size);
    NotLive(h, p);
    MapBooks(h, h2, mm, p, size, b, b2);
    MapOutcome(h, h2, p, nb, size);
  }

  lemma NotLive(h: Heap, p: Addr)
    requires Ok(h) && p !in h.live
    ensures p !in h.direct
  {
  }

  lemma MapOutcome(h: Heap, h2: Heap, p: Addr, nb: nat, size: nat)
    requires Undisturbed(h, h2, h.live) && p !in h.live && h2.live == h.live + {p} && Aligned(p)
    requires p !in h2.tiles && p in h2.direct && nb + MMAP_CHUNK_OVERHEAD <= size == h2.direct[p].size
    requires AtStart(p, h2.direct[p])
    ensures Malloced(h, h2, p + TWO_WORDS, nb)
  {
    hide Undisturbed;
    AlignedSum(p, TWO_WORDS);
  }

  lemma MappedAligned(h: Heap, mm: Addr, p: Addr, size: nat)
    requires p == mm + MALLOC_ALIGNMENT && Fresh(h, mm, p + size + MMAP_FOOT_PAD - mm)
    ensures Aligned(p)
  {
    AlignedSum(mm, MALLOC_ALIGNMENT);
  }

  lemma MappedWrites(h: Heap, mm: Addr, p: Addr, size: nat)
    requires p == mm + MALLOC_ALIGNMENT && size >= MIN_CHUNK_SIZE
    ensures DirectWrites(h.mem, MappedWords(h.mem, mm, p, size), mm, p, size)
  {
  }

  lemma MapBooks(h: Heap, h2: Heap, mm: Addr, p: Addr, size: nat, b: Books, b2: Books)
    requires BooksOk(h, b) && InnerKept(h, h2) && mm < p && p !in h.direct
    requires h2 == MappedHeap(h, h2.mem, mm, p, size) && RegionWhole(p, Region(mm, size), b.page)
    requires b2.footprint == b.footprint + (p + size + MMAP_FOOT_PAD - mm) <= b2.maxFootprint
    requires 0 < b2.least <= b.least && b2.least <= mm && Range(mm, p + size + MMAP_FOOT_PAD) <= b2.mapped
        && b.mapped <= b2.mapped
    requires SameTerms(b, b2)
    ensures BooksOk(h2, b2)
  {
    DirectAdded(h.direct, p, Region(mm, size));
    MapOwned(h, h2, mm, p, size, b.mapped, b2.mapped);
  }

  lemma MapOwned(h: Heap, h2: Heap, mm: Addr, p: Addr, size: nat, mapped: set<Addr>, mapped2: set<Addr>)
    requires Owns(h, mapped) && mapped <= mapped2 && Range(mm, p + size + MMAP_FOOT_PAD) <= mapped2
    requires h2 == MappedHeap(h, h2.mem, mm, p, size)
    ensures Owns(h2, mapped2)
  {
    forall q, x | q in h2.direct && InRegion(q, h2.direct[q], x) ensures x in mapped2 {
      if q == p {
        assert x in Range(mm, p + size + MMAP_FOOT_PAD);
      } else {
        assert InRegion(q, h.direct[q], x);
      }
    }
  }

  // The chunk of a region of so many bytes, after the offset and before the fake chunk.
  function DirectRegion(mm: Addr, mmsize: nat): Region
    requires mmsize >= MALLOC_ALIGNMENT + MMAP_FOOT_PAD
  {
    Region(mm, mmsize - MALLOC_ALIGNMENT - MMAP_FOOT_PAD)
  }

  // The block at mem is the chunk of a region of so many bytes.
  ghost predicate MappedAs(h: Heap, mem: Addr, mmsize: nat) {
    && mem >= TWO_WORDS && mem - TWO_WORDS in h.direct
    && h.direct[mem - TWO_WORDS].size + MALLOC_ALIGNMENT + MMAP_FOOT_PAD == mmsize
  }

  lemma DirectAligned(mmsize: nat)
    requires Aligned(mmsize) && mmsize >= MALLOC_ALIGNMENT + MMAP_FOOT_PAD
    ensures Aligned(mmsize - MALLOC_ALIGNMENT - MMAP_FOOT_PAD)
  {
  }

  // The chunk of a mapped region holds the request and its overhead.
  lemma MappedSize(nb: nat, mmsize: nat)
    requires Aligned(nb) && Aligned(mmsize) && nb + 63 <= mmsize
    ensures mmsize >= MALLOC_ALIGNMENT + MMAP_FOOT_PAD + nb + MMAP_CHUNK_OVERHEAD
    ensures Aligned(mmsize - MALLOC_ALIGNMENT - MMAP_FOOT_PAD)
  {
  }

  lemma PageFacts(granularity: nat, page: nat)
    requires ParamsOk(granularity, page)
    ensures page >= 8 && Units(page, 8) && 63 + page <= HALF && Aligned(page) && SYS_ALLOC_PADDING + granularity <= HALF
    ensures Aligned(granularity) && granularity >= 4096 && page >= 4096 && Alignment.IsPow2(page)
  {
    assert page == Times(page / 8, 8);
  }

  lemma WholeUnit(n: nat, unit: nat)
    requires Units(n, unit) && n > 0
    ensures n >= unit
  {
    var k: nat :| n == Times(k, unit);
    MoreUnits(k, unit);
  }

  lemma MoreUnits(k: nat, unit: nat)
    ensures if k == 0 then Times(k, unit) == 0 else Times(k, unit) >= unit
  {
    assert k > 0 ==> k * unit == (k - 1) * unit + unit;
  }

  lemma MapFacts(h: Heap, b: Books, nb: nat, mm: Addr, mmsize: nat, page: nat)
    requires BooksOk(h, b) && Range(mm, mm + mmsize) !! b.mapped && mm > 0 && mm + mmsize <= TWO64
    requires Units(mm, page) && Units(mmsize, page) && Aligned(page) && Aligned(nb) && nb + 63 <= mmsize
    ensures Fresh(h, mm, mmsize) && Aligned(mmsize)
    ensures mmsize >= MALLOC_ALIGNMENT + MMAP_FOOT_PAD + nb + MMAP_CHUNK_OVERHEAD
    ensures page >= 4096 ==> RegionWhole(mm + MALLOC_ALIGNMENT, DirectRegion(mm, mmsize), page)
  {
    WholeUnit(mmsize, page);
    UnitsAligned(mm, page);
    UnitsAligned(mmsize, page);
    FreshMap(h, b, mm, mmsize);
    MappedSize(nb, mmsize);
  }

  // ---- sys_alloc: append, add, prepend ----

  // b2 is b with n more bytes.
  ghost predicate Gained(b: Books, b2: Books, n: nat, tbase: Addr) {
    && b2.footprint == b.footprint + n <= b2.maxFootprint && 0 < b2.least <= b.least && b2.least <= tbase
    && b.mapped <= b2.mapped && Range(tbase, tbase + n) <= b2.mapped
    && SameTerms(b, b2)
  }

  function AppendedWords(m: Memory, top: Addr, size: nat): Memory {
    SetHead(SetHead(m, top, Word(size, false, true)), top + size, Word(TOP_FOOT_SIZE, false, false))
  }

  ghost function AppendedHeap(h: Heap, m: Memory, tsize: nat): Heap
    requires |h.segs| > 0 && h.segs[0].base <= h.top
  {
    ResizedHeap(h, m, h.topsize + tsize, h.arena + Range(TopEnd(h), TopEnd(h) + tsize))
  }

  lemma AppendDone(h: Heap, m: Memory, tsize: nat, b: Books, b2: Books)
    requires |h.segs| > 0 && h.segs[0].base <= h.top && h.segs[0].base + h.segs[0].size == TopEnd(h)
        && h.segs[0].mmapped
    requires m == AppendedWords(h.mem, h.top, h.topsize + tsize) && 0 < tsize && Units(tsize, b.granularity)
        && b.granularity > 0
    requires Fresh(h, TopEnd(h), tsize) && Ok(h) && BooksOk(h, b) && Gained(b, b2, tsize, TopEnd(h))
    ensures var h2 := AppendedHeap(h, m, tsize);
      Ok(h2) && BooksOk(h2, b2) && Undisturbed(h, h2, h.live) && h2.live == h.live && h2.topsize == h.topsize + tsize
  {
    hide Ok, BooksOk, Undisturbed, InnerKept, Units, ArenaResized, Gained;
    var h2 := AppendedHeap(h, m, tsize);
    TopFacts(h);
    AppendArena(h, h2, tsize);
    TopResizeOk(h, h2, h.topsize + tsize);
    AppendBooks(h, h2, tsize, b, b2);
  }

  lemma AppendArena(h: Heap, h2: Heap, tsize: nat)
    requires |h.segs| > 0 && h.segs[0].base <= h.top && Aligned(h.topsize) && Fresh(h, TopEnd(h), tsize)
    requires h2 == AppendedHeap(h, h2.mem, tsize) && h2.mem == AppendedWords(h.mem, h.top, h.topsize + tsize)
        && tsize > 0
    ensures ArenaResized(h, h2) && Aligned(h.topsize + tsize) && TopResized(h, h2, h.topsize + tsize)
  {
    AlignedSum(h.topsize, tsize);
  }

  lemma AppendBooks(h: Heap, h2: Heap, tsize: nat, b: Books, b2: Books)
    requires BooksOk(h, b) && InnerKept(h, h2) && Gained(b, b2, tsize, TopEnd(h))
    requires |h.segs| > 0 && h.segs[0].base <= h.top && h.segs[0].base + h.segs[0].size == TopEnd(h)
        && h.segs[0].mmapped
    requires h2 == AppendedHeap(h, h2.mem, tsize) && Units(tsize, b.granularity) && b.granularity > 0
    ensures BooksOk(h2, b2)
  {
    var s := h.segs[0];
    SegmentResized(h.segs, 0, s.(size := s.size + tsize));
    UnitsSum(s.size, tsize, b.granularity);
  }

  lemma AddDone(h: Heap, m: Memory, tbase: Addr, tsize: nat, b: Books, b2: Books)
    requires |h.segs| > 0 && tsize > TOP_FOOT_SIZE && Units(tsize, b.granularity)
    requires AddWrites(h.mem, m, h.top, RecordChunk(h), TopEnd(h), tbase, tsize - TOP_FOOT_SIZE)
    requires Fresh(h, tbase, tsize) && Ok(h) && BooksOk(h, b) && Gained(b, b2, tsize, tbase)
    ensures var h2 := AddedHeap(h, m, tbase, tsize, true);
      Ok(h2) && BooksOk(h2, b2) && Undisturbed(h, h2, h.live) && h2.live == h.live
          && h2.topsize == tsize - TOP_FOOT_SIZE
  {
    hide Ok, BooksOk, Undisturbed, InnerKept, Units, Gained, AddWrites, AddedTiles, AddedEnds, Fresh;
    var h2 := AddedHeap(h, m, tbase, tsize, true);
    AddSegmentOk(h, h2, tbase, tsize, true);
    AddBooks(h, h2, tbase, tsize, b, b2);
  }

  lemma AddBooks(h: Heap, h2: Heap, tbase: Addr, tsize: nat, b: Books, b2: Books)
    requires BooksOk(h, b) && InnerKept(h, h2) && Gained(b, b2, tsize, tbase) && |h.segs| > 0 && tsize > TOP_FOOT_SIZE
    requires h2 == AddedHeap(h, h2.mem, tbase, tsize, true) && Units(tsize, b.granularity)
    ensures BooksOk(h2, b2)
  {
    hide AddedTiles, AddedEnds, Units, PutSmall, PutLarge, SegmentBytes, DirectBytes;
    SegmentPushed(h.segs, h2.segs[0], h2.segs[1]);
    assert h.segs[0] in h.segs;
  }

  // ---- The words that add_segment writes ----

  // Where add_segment puts the record of the old segment, computed back from its end as the source does.
  function AlignOffset(a: nat): nat {
    if a % 8 == 0 then 0 else 8 - a % 8
  }

  lemma OffsetAligns(p: Addr)
    ensures Aligned(p + AlignOffset(p + TWO_WORDS)) && AlignOffset(p + TWO_WORDS) < 8
    ensures Aligned(p) ==> AlignOffset(p + TWO_WORDS) == 0
  {
  }

  lemma RecordPlace(h: Heap, oldEnd: Addr)
    requires Aligned(h.top) && Aligned(h.topsize) && h.topsize > 0 && oldEnd == TopEnd(h)
    ensures var rawsp: int := oldEnd - (SEGMENT_RECORD_SIZE + 32 + 7);
      && rawsp >= 0 && (var asp := rawsp + AlignOffset(rawsp + TWO_WORDS);
                        RecordChunk(h) == if asp < h.top + MIN_CHUNK_SIZE then h.top else asp)
  {
  }

  lemma AddedWordsOk(m: Memory, m3: Memory, top: Addr, csp: Addr, lim: Addr, tbase: Addr, size: nat)
    requires Placed(top, lim, csp, tbase, size)
    requires var m2, e := SetSizeOfInuse(AppendedWords(m, tbase, size), csp, SEGMENT_RECORD_SIZE),
        csp + SEGMENT_RECORD_SIZE;
      Fenced(m3, e, lim) && SameExcept(m2, m3, Range(e + 8, lim))
    ensures AddWrites(m, if csp == top then m3 else SetFree(m3, top, csp - top, csp), top, csp, lim, tbase, size)
  {
    var m4 := if csp == top then m3 else SetFree(m3, top, csp - top, csp);
    var e := csp + SEGMENT_RECORD_SIZE;
    hide Aligned;
    FencedStill(m3, m4, e, lim, top, csp);
    AddedOnly(m, m3, top, csp, lim, tbase, size);
    AddedHeads(m, m3, top, csp, lim, tbase, size);
  }

  lemma FencedStill(m3: Memory, m4: Memory, e: Addr, lim: Addr, top: Addr, csp: Addr)
    requires Fenced(m3, e, lim) && csp + 8 < e && top <= csp
    requires m4 == if csp == top then m3 else SetFree(m3, top, csp - top, csp)
    ensures Fenced(m4, e, lim)
  {
    forall f: Addr | e <= f && f + TWO_WORDS <= lim && Aligned(f) ensures Head(m4, f) == FENCEPOST {
      assert Head(m3, f) == FENCEPOST;
    }
  }

  lemma AddedOnly(m: Memory, m3: Memory, top: Addr, csp: Addr, lim: Addr, tbase: Addr, size: nat)
    requires top <= csp && csp + TOP_FOOT_SIZE <= lim
    requires SameExcept(SetSizeOfInuse(AppendedWords(m, tbase, size), csp, SEGMENT_RECORD_SIZE), m3,
                        Range(csp + SEGMENT_RECORD_SIZE + 8, lim))
    ensures SameExcept(m, if csp == top then m3 else SetFree(m3, top, csp - top, csp),
        AddedWords(top, csp, lim, tbase, size))
  {
    var m2 := SetSizeOfInuse(AppendedWords(m, tbase, size), csp, SEGMENT_RECORD_SIZE);
    var m4 := if csp == top then m3 else SetFree(m3, top, csp - top, csp);
    forall a: Addr | a !in AddedWords(top, csp, lim, tbase, size) ensures At(m4, a) == At(m, a) {
      assert a !in Range(csp + SEGMENT_RECORD_SIZE + 8, lim);
      assert At(m3, a) == At(m2, a);
      assert a != csp + 8;
    }
  }

  lemma AddedHeads(m: Memory, m3: Memory, top: Addr, csp: Addr, lim: Addr, tbase: Addr, size: nat)
    requires Placed(top, lim, csp, tbase, size)
    requires SameExcept(SetSizeOfInuse(AppendedWords(m, tbase, size), csp, SEGMENT_RECORD_SIZE), m3,
                        Range(csp + SEGMENT_RECORD_SIZE + 8, lim))
    ensures var m4 := if csp == top then m3 else SetFree(m3, top, csp - top, csp);
      && Head(m4, tbase) == Word(size, false, true) && Head(m4, tbase + size) == Word(TOP_FOOT_SIZE, false, false)
      && Head(m4, csp) == Word(SEGMENT_RECORD_SIZE, true, csp == top)
      && (csp != top ==> Head(m4, top) == Word(csp - top, false, true) && Foot(m4, csp) == csp - top)
  {
    hide Aligned;
    var m2 := SetSizeOfInuse(AppendedWords(m, tbase, size), csp, SEGMENT_RECORD_SIZE);
    var w := Range(csp + SEGMENT_RECORD_SIZE + 8, lim);
    assert tbase + 8 !in w && tbase + size + 8 !in w && csp + 8 !in w;
    assert Head(m3, tbase) == Head(m2, tbase) && Head(m3, tbase + size) == Head(m2, tbase + size)
        && Head(m3, csp) == Head(m2, csp);
  }

  // The segment of top, and what add_segment may take for granted.
  lemma TopIsLast(h: Heap)
    requires Ok(h)
    ensures |h.segs| > 0 && h.segs[0].base <= h.top && h.segs[0].base + h.segs[0].size == TopEnd(h)
        && Aligned(TopEnd(h))
    ensures forall i :: 0 < i < |h.segs| ==> !(h.segs[i].base <= h.top < h.segs[i].base + h.segs[i].size)
    ensures h.top !in h.small && h.top !in h.large
  {
    hide Tagged, VictimOk;
    TopSegment(h);
    TopFacts(h);
    AlignedSum(h.top, h.topsize);
    AlignedSum(h.top + h.topsize, TOP_FOOT_SIZE);
    forall i | 0 < i < |h.segs| ensures !(h.segs[i].base <= h.top < h.segs[i].base + h.segs[i].size) {
      TopElsewhere(h, i);
    }
  }

  lemma AddFacts(h: Heap, tbase: Addr, tsize: nat)
    requires Ok(h) && Fresh(h, tbase, tsize) && tsize > TOP_FOOT_SIZE
    ensures Placed(h.top, TopEnd(h), RecordChunk(h), tbase, tsize - TOP_FOOT_SIZE)
    ensures Aligned(RecordChunk(h)) && Aligned(tbase) && Aligned(RecordChunk(h) + SEGMENT_RECORD_SIZE)
    ensures h.top <= RecordChunk(h) && RecordChunk(h) + SEGMENT_RECORD_SIZE + 4 * 8 <= TopEnd(h) <= TWO64
    ensures Aligned(RecordChunk(h) - h.top)
  {
    hide Tiled, Tagged, VictimOk, Binned, SegmentOk, InArena;
    TopFacts(h);
    AddPlace(h, tbase, tsize);
    RecordFits(h);
    AlignedSum(RecordChunk(h), SEGMENT_RECORD_SIZE);
    AlignedSum(RecordChunk(h), h.top);
    assert Aligned(SEGMENT_RECORD_SIZE);
    TopEndBelow(h);
  }

  lemma TopEndBelow(h: Heap)
    requires Ok(h)
    ensures TopEnd(h) <= TWO64
  {
    hide Tagged, VictimOk, Binned;
    TopSegment(h);
    assert SegmentOk(h, 0);
    TopBytes(h);
    assert TopEnd(h) - 1 in Range(h.top, TopEnd(h));
  }

  lemma AddedWordsAligned(top: Addr, lim: Addr, csp: Addr, tbase: Addr, size: nat)
    requires Placed(top, lim, csp, tbase, size)
    ensures Aligned(tbase) && Aligned(csp + SEGMENT_RECORD_SIZE) && top <= csp
  {
    AlignedSum(csp, SEGMENT_RECORD_SIZE);
    assert Aligned(SEGMENT_RECORD_SIZE);
  }

  // ---- prepend_alloc, as three steps: the new memory becomes one block, is cut in two, and the second part is freed
  // ----

  lemma UndisturbedThen(h: Heap, h2: Heap, h3: Heap, s: set<Addr>, s2: set<Addr>)
    requires Undisturbed(h, h2, s) && Undisturbed(h2, h3, s2) && s <= s2 && s <= h.live
    requires forall p :: p in h.live ==> p in h.tiles || p in h.direct
    ensures Undisturbed(h, h3, s)
  {
  }

  lemma LivePlaced(h: Heap)
    requires Ok(h)
    ensures forall p :: p in h.live ==> p in h.tiles || p in h.direct
  {
  }

  ghost function WholeHeap(h: Heap, k: nat, tsize: nat): Heap
    requires k < |h.segs| && tsize < h.segs[k].base
  {
    PrependedHeap(h, SetHead(h.mem, h.segs[k].base - tsize, Word(tsize, true, true)), k, tsize)
  }

  lemma WholeOk(h: Heap, k: nat, tsize: nat)
    requires k < |h.segs| && MIN_CHUNK_SIZE <= tsize < h.segs[k].base && Aligned(tsize)
        && Fresh(h, h.segs[k].base - tsize, tsize)
    requires Ok(h)
    ensures var h2, tbase := WholeHeap(h, k, tsize), h.segs[k].base - tsize;
      && tbase !in h.live && tbase in h2.live && tbase in h2.tiles && h2.tiles[tbase] == Tile(tsize, true)
      && Ok(h2) && InnerKept(h, h2) && Undisturbed(h, h2, h.live) && Aligned(tbase)
    ensures h.segs[k].base in h.tiles
  {
    hide Ok, InnerKept, Undisturbed, Fresh;
    var h2 := WholeHeap(h, k, tsize);
    assert Prepended(h, h2, k, tsize);
    PrependOk(h, h2, k, tsize);
    BaseIsChunk(h, k, tsize);
  }

  lemma BaseIsChunk(h: Heap, k: nat, tsize: nat)
    requires Ok(h) && k < |h.segs| && tsize < h.segs[k].base && Fresh(h, h.segs[k].base - tsize, tsize)
    ensures h.segs[k].base in h.tiles && Aligned(h.segs[k].base - tsize)
  {
    assert SegmentOk(h, k);
  }

  // The words of the two parts before the second is freed.
  ghost function CutHeap(h: Heap, k: nat, tsize: nat, nb: nat): Heap
    requires k < |h.segs| && tsize < h.segs[k].base && CanHalve(WholeHeap(h, k, tsize), h.segs[k].base - tsize, nb)
  {
    var tbase := h.segs[k].base - tsize;
    HalvedHeap(WholeHeap(h, k, tsize),
               SetHead(SetSizeOfInuse(h.mem, tbase, nb), tbase + nb, Word(tsize - nb, true, true)), tbase, nb)
  }

  lemma CutOk(h: Heap, k: nat, tsize: nat, nb: nat)
    requires k < |h.segs| && nb + MIN_CHUNK_SIZE <= tsize < h.segs[k].base && RequestOk(nb) && Aligned(tsize)
    requires Fresh(h, h.segs[k].base - tsize, tsize) && Ok(h)
    ensures CanHalve(WholeHeap(h, k, tsize), h.segs[k].base - tsize, nb)
    ensures var h3, tbase := CutHeap(h, k, tsize, nb), h.segs[k].base - tsize;
      && Ok(h3) && InnerKept(h, h3) && Undisturbed(h, h3, h.live) && h3.live == h.live + {tbase, tbase + nb}
      && tbase !in h.live && tbase + nb !in h.live && Aligned(tbase) && h.segs[k].base in h.tiles
  {
    hide Ok, InnerKept, Undisturbed, Fresh;
    var tbase, h2 := h.segs[k].base - tsize, WholeHeap(h, k, tsize);
    WholeOk(h, k, tsize);
    assert CanHalve(h2, tbase, nb);
    var h3 := CutHeap(h, k, tsize, nb);
    CutHalved(h, k, tsize, nb);
    HalveOk(h2, h3, tbase, nb);
    LivePlaced(h);
    UndisturbedThen(h, h2, h3, h.live, h2.live - {tbase});
    InnerThen(h, h2, h3);
  }

  lemma InnerThen(h: Heap, h2: Heap, h3: Heap)
    requires InnerKept(h, h2) && InnerKept(h2, h3) && h2.inner == h.inner
    ensures InnerKept(h, h3)
  {
  }

  lemma CutHalved(h: Heap, k: nat, tsize: nat, nb: nat)
    requires k < |h.segs| && nb + MIN_CHUNK_SIZE <= tsize < h.segs[k].base && RequestOk(nb)
    requires CanHalve(WholeHeap(h, k, tsize), h.segs[k].base - tsize, nb)
    requires WholeHeap(h, k, tsize).tiles[h.segs[k].base - tsize].size == tsize
    ensures HalvedInto(WholeHeap(h, k, tsize), CutHeap(h, k, tsize, nb), h.segs[k].base - tsize, nb)
  {
  }

  // Which way the rest goes, and how far it reaches.
  ghost predicate RestOf(h: Heap, base: Addr, hi: Addr, kind: Freed)
  {
    && base in h.tiles && hi == (if h.tiles[base].used then base else Next(h.tiles, base))
    && kind == if base == h.top then IntoTop else if base == h.dv then IntoVictim else IntoBin
  }

  lemma CutCanFree(h: Heap, k: nat, tsize: nat, nb: nat, hi: Addr, kind: Freed)
    requires k < |h.segs| && nb + MIN_CHUNK_SIZE <= tsize < h.segs[k].base && RequestOk(nb)
    requires CanHalve(WholeHeap(h, k, tsize), h.segs[k].base - tsize, nb)
    requires h.segs[k].base in h.tiles && RestOf(h, h.segs[k].base, hi, kind)
    requires h.segs[k].base - tsize + nb != h.dv && h.segs[k].base - tsize !in h.tiles
    requires WholeHeap(h, k, tsize).tiles[h.segs[k].base - tsize].size == tsize
    ensures var q := h.segs[k].base - tsize + nb; CanFree(CutHeap(h, k, tsize, nb), q, q, hi, kind) && q < hi
  {
  }

  ghost function PrependResult(h: Heap, m: Memory, k: nat, tsize: nat, nb: nat, hi: Addr, kind: Freed): Heap
    requires k < |h.segs| && tsize < h.segs[k].base && CanHalve(WholeHeap(h, k, tsize), h.segs[k].base - tsize, nb)
    requires h.segs[k].base - tsize + nb < hi
  {
    var q := h.segs[k].base - tsize + nb;
    FreedHeap(CutHeap(h, k, tsize, nb), m, q, q, hi, kind)
  }

  lemma PrependDone(h: Heap, m: Memory, k: nat, tsize: nat, nb: nat, hi: Addr, kind: Freed, b: Books, b2: Books)
    requires k < |h.segs| && nb + MIN_CHUNK_SIZE <= tsize < h.segs[k].base && RequestOk(nb) && Aligned(tsize)
    requires Fresh(h, h.segs[k].base - tsize, tsize) && Ok(h)
    requires CanHalve(WholeHeap(h, k, tsize), h.segs[k].base - tsize, nb)
    requires h.segs[k].base in h.tiles && RestOf(h, h.segs[k].base, hi, kind) && h.segs[k].base <= hi
    requires MergeWrites(CutHeap(h, k, tsize, nb).mem, m, h.segs[k].base - tsize + nb, hi, kind == IntoTop)
    requires BooksOk(h, b) && Gained(b, b2, tsize, h.segs[k].base - tsize) && h.segs[k].mmapped
        && Units(tsize, b.granularity)
    requires b.granularity > 0
    ensures var h2 := PrependResult(h, m, k, tsize, nb, hi, kind);
      Ok(h2) && BooksOk(h2, b2) && Malloced(h, h2, h.segs[k].base - tsize + TWO_WORDS, nb)
  {
    hide Ok, InnerKept, Undisturbed, Fresh, BooksOk, Gained, MergeWrites, CutHeap, Malloced, RestOf, Units, CanHalve;
    var tbase, h3 := h.segs[k].base - tsize, CutHeap(h, k, tsize, nb);
    var h2 := PrependResult(h, m, k, tsize, nb, hi, kind);
    CutOk(h, k, tsize, nb);
    CutFacts(h, k, tsize, nb);
    CutCanFree(h, k, tsize, nb, hi, kind);
    FreeOk(h3, h2, tbase + nb, tbase + nb, hi, kind);
    LivePlaced(h);
    UndisturbedThen(h, h3, h2, h.live, h3.live - {tbase + nb});
    CutShape(h, k, tsize, nb);
    InnerThen(h, h3, h2);
    PrependTile(h2, h3, tbase, nb, hi);
    MallocedAt(h, h2, tbase, nb);
    PrependBooks(h, h2, k, tsize, b, b2);
  }

  lemma CutFacts(h: Heap, k: nat, tsize: nat, nb: nat)
    requires k < |h.segs| && nb + MIN_CHUNK_SIZE <= tsize < h.segs[k].base && RequestOk(nb) && Aligned(tsize)
    requires Fresh(h, h.segs[k].base - tsize, tsize) && Ok(h)
    ensures h.segs[k].base - tsize + nb != h.dv && h.segs[k].base - tsize !in h.tiles
    ensures WholeHeap(h, k, tsize).tiles[h.segs[k].base - tsize].size == tsize
  {
    hide Tagged, SegmentOk, Binned, DirectsOk, EndsKnown;
    FreshAway(h, h.segs[k].base - tsize, tsize);
  }

  lemma CutShape(h: Heap, k: nat, tsize: nat, nb: nat)
    requires k < |h.segs| && nb + MIN_CHUNK_SIZE <= tsize < h.segs[k].base
    requires CanHalve(WholeHeap(h, k, tsize), h.segs[k].base - tsize, nb)
    ensures var h3, tbase, s := CutHeap(h, k, tsize, nb), h.segs[k].base - tsize, h.segs[k];
      && h3.inner == h.inner && h3.direct == h.direct && h3.arena == h.arena + Range(tbase, s.base)
      && h3.segs == h.segs[k := s.(base := tbase, size := s.size + tsize)]
      && tbase in h3.tiles && h3.tiles[tbase].size == nb
  {
  }

  lemma PrependTile(h2: Heap, h3: Heap, tbase: Addr, nb: nat, hi: Addr)
    requires tbase in h3.tiles && h3.tiles[tbase].size == nb > 0 && h2.tiles == Merged(h3.tiles, tbase + nb, hi)
    ensures tbase in h2.tiles && h2.tiles[tbase].size == nb
  {
  }

  lemma PrependBooks(h: Heap, h2: Heap, k: nat, tsize: nat, b: Books, b2: Books)
    requires BooksOk(h, b) && InnerKept(h, h2) && k < |h.segs| && tsize < h.segs[k].base
    requires Gained(b, b2, tsize, h.segs[k].base - tsize) && h.segs[k].mmapped && Units(tsize, b.granularity)
        && b.granularity > 0
    requires var tbase, s := h.segs[k].base - tsize, h.segs[k];
      && h2.inner == h.inner && h2.direct == h.direct && h2.arena == h.arena + Range(tbase, s.base)
      && h2.segs == h.segs[k := s.(base := tbase, size := s.size + tsize)]
    ensures BooksOk(h2, b2)
  {
    var s := h.segs[k];
    SegmentResized(h.segs, k, h2.segs[k]);
    UnitsSum(s.size, tsize, b.granularity);
    hide Units;
    forall t | t in h2.segs ensures t.mmapped != t.extern && (t.mmapped ==> Units(t.size, b2.granularity)) {
      assert t in h.segs || t == h2.segs[k];
      assert s in h.segs;
    }
  }

  // The state of the space after prepend_alloc, field by field.
  lemma PrependFields(h: Heap, m: Memory, k: nat, tsize: nat, nb: nat, hi: Addr, kind: Freed)
    requires k < |h.segs| && nb + MIN_CHUNK_SIZE <= tsize < h.segs[k].base
    requires CanHalve(WholeHeap(h, k, tsize), h.segs[k].base - tsize, nb)
    requires h.segs[k].base in h.tiles && h.segs[k].base <= hi
    requires h.segs[k].base - tsize + nb != h.dv && WholeHeap(h, k, tsize).tiles[h.segs[k].base - tsize].size == tsize
    ensures var h2, base := PrependResult(h, m, k, tsize, nb, hi, kind), h.segs[k].base;
      var q := base - tsize + nb;
      && h2.mem == m && h2.segs == h.segs[k := h.segs[k].(base := base - tsize, size := h.segs[k].size + tsize)]
      && h2.top == (if kind == IntoTop then q else h.top)
          && h2.topsize == (if kind == IntoTop then hi - q else h.topsize)
      && h2.dv == (if kind == IntoVictim then q else h.dv)
          && h2.dvsize == (if kind == IntoVictim then hi - q else h.dvsize) && h2.direct == h.direct
  {
    hide CutHeap, WholeHeap, CanHalve, Merged, FreedSmall, FreedLarge;
    CutNext(h, k, tsize, nb);
    CutShape(h, k, tsize, nb);
  }

  lemma PrependBins(h: Heap, m: Memory, k: nat, tsize: nat, nb: nat, hi: Addr, kind: Freed)
    requires k < |h.segs| && nb + MIN_CHUNK_SIZE <= tsize < h.segs[k].base
    requires CanHalve(WholeHeap(h, k, tsize), h.segs[k].base - tsize, nb)
    requires h.segs[k].base in h.tiles && h.segs[k].base <= hi
    requires WholeHeap(h, k, tsize).tiles[h.segs[k].base - tsize].size == tsize
    requires var q, base := h.segs[k].base - tsize + nb, h.segs[k].base;
      q !in h.small && q !in h.large && (kind != IntoBin ==> h.small - {base} == h.small && h.large - {base} == h.large)
    ensures var h2, base := PrependResult(h, m, k, tsize, nb, hi, kind), h.segs[k].base;
      var q := base - tsize + nb;
      && h2.small == (if kind == IntoBin then PutSmall(h.small - {base}, q, hi - q) else h.small)
      && h2.large == (if kind == IntoBin then PutLarge(h.large - {base}, q, hi - q) else h.large)
  {
    hide CutHeap, WholeHeap, CanHalve, Merged, PutSmall, PutLarge;
    var base := h.segs[k].base;
    var q := base - tsize + nb;
    CutNext(h, k, tsize, nb);
    assert h.small - {q, base} == h.small - {base} && h.large - {q, base} == h.large - {base};
  }

  lemma CutNext(h: Heap, k: nat, tsize: nat, nb: nat)
    requires k < |h.segs| && nb + MIN_CHUNK_SIZE <= tsize < h.segs[k].base
    requires CanHalve(WholeHeap(h, k, tsize), h.segs[k].base - tsize, nb)
    requires WholeHeap(h, k, tsize).tiles[h.segs[k].base - tsize].size == tsize
    ensures var h3, base := CutHeap(h, k, tsize, nb), h.segs[k].base;
      var q := base - tsize + nb;
      && q in h3.tiles && Next(h3.tiles, q) == base && h3.small == h.small && h3.large == h.large
      && h3.dv == h.dv && h3.dvsize == h.dvsize && h3.top == h.top && h3.topsize == h.topsize && h3.direct == h.direct
  {
  }

  // The rest of the new memory is in no bin, and neither is the first chunk of the segment if it is top, dv or in use.
  lemma RestUnbinned(h: Heap, k: nat, tsize: nat, nb: nat, kind: Freed, hi: Addr)
    requires k < |h.segs| && nb + MIN_CHUNK_SIZE <= tsize < h.segs[k].base && RequestOk(nb) && Aligned(tsize)
    requires Fresh(h, h.segs[k].base - tsize, tsize) && Ok(h)
    requires h.segs[k].base in h.tiles && RestOf(h, h.segs[k].base, hi, kind)
    ensures var q, base := h.segs[k].base - tsize + nb, h.segs[k].base;
      && q !in h.tiles && q !in h.small && q !in h.large && q > 0
      && (kind != IntoBin || h.tiles[base].used ==> h.small - {base} == h.small && h.large - {base} == h.large)
  {
    hide Tagged, SegmentOk, DirectsOk, EndsKnown;
    FreshAway(h, h.segs[k].base - tsize, tsize);
  }

  // The words of prepend_alloc against those of the cut block: they differ where the rest's own head goes.
  lemma PrependWords(m1: Memory, q: Addr, w: Word, hi: Addr)
    requires q + 16 <= hi
    ensures MergeWrites(SetHead(m1, q, w), SetFree(m1, q, hi - q, hi), q, hi, false)
    ensures !Head(m1, hi).pinuse ==> MergeWrites(SetHead(m1, q, w), SetSizeOfFree(m1, q, hi - q), q, hi, false)
    ensures !Head(m1, hi).pinuse ==>
        MergeWrites(SetHead(m1, q, w), SetHead(m1, q, Word(hi - q, false, true)), q, hi, true)
  {
  }

  // What prepend_alloc reads at the old start of the segment.
  ghost predicate Known(h: Heap, m: Memory, base: Addr) {
    && base in h.tiles && Aligned(base) && Head(m, base).pinuse && Head(m, base).size == h.tiles[base].size
    && Head(m, base).cinuse == h.tiles[base].used && h.tiles[base].size > 0 && Aligned(h.tiles[base].size)
    && h.tiles[base].size < TWO64
    && (!h.tiles[base].used ==> !Head(m, Next(h.tiles, base)).pinuse)
    && (base == h.top ==> h.topsize == h.tiles[base].size && !h.tiles[base].used && base != h.dv)
    && (base == h.dv ==> h.dvsize == h.tiles[base].size && !h.tiles[base].used)
    && (if h.tiles[base].used || base == h.top || base == h.dv then base !in h.small && base !in h.large
        else if S.IsSmall(h.tiles[base].size) then base in h.small && h.small[base] == h.tiles[base].size
            && base !in h.large
        else base in h.large && base !in h.small)
  }

  lemma OldFirst(h: Heap, k: nat, tsize: nat)
    requires Ok(h) && k < |h.segs| && tsize < h.segs[k].base && Fresh(h, h.segs[k].base - tsize, tsize)
    ensures Known(h, h.mem, h.segs[k].base)
  {
    hide SegmentOk, DirectsOk, EndsKnown, S.IsSmall;
    BaseIsChunk(h, k, tsize);
    var base := h.segs[k].base;
    ChunkFacts(h, base);
    assert TagsOf(h.mem, h.tiles, h.top, base);
    BaseStarts(h, k);
    StartPinuse(h, base);
  }

  // The head written for the new block is not among what is read there.
  lemma FirstSame(h: Heap, p: Addr, nb: nat, base: Addr)
    requires Known(h, h.mem, base) && p < base
    ensures Known(h, SetSizeOfInuse(h.mem, p, nb), base)
  {
    hide S.IsSmall;
  }

  lemma BaseStarts(h: Heap, k: nat)
    requires Ok(h) && k < |h.segs|
    ensures h.segs[k].base in h.starts
  {
    assert SegmentOk(h, k);
  }

  // The first chunk of a segment has its pinuse bit set: there is no chunk before it.
  lemma StartPinuse(h: Heap, base: Addr)
    requires Ok(h) && base in h.starts && base in h.tiles
    ensures Head(h.mem, base).pinuse
  {
    assert TagsOf(h.mem, h.tiles, h.top, base);
  }

  lemma PrependJoined(h: Heap, m1: Memory, k: nat, tsize: nat, nb: nat, hi: Addr, m: Memory, kind: Freed)
    requires k < |h.segs| && nb + MIN_CHUNK_SIZE <= tsize < h.segs[k].base
    requires CanHalve(WholeHeap(h, k, tsize), h.segs[k].base - tsize, nb)
    requires m1 == SetSizeOfInuse(h.mem, h.segs[k].base - tsize, nb) && h.segs[k].base <= hi
    requires kind != IntoBin ==> !Head(m1, hi).pinuse
    requires var q := h.segs[k].base - tsize + nb;
      m == match kind
           case IntoTop => SetHead(m1, q, Word(hi - q, false, true))
           case IntoVictim => SetSizeOfFree(m1, q, hi - q)
           case IntoBin => SetFree(m1, q, hi - q, hi)
    ensures MergeWrites(CutHeap(h, k, tsize, nb).mem, m, h.segs[k].base - tsize + nb, hi, kind == IntoTop)
  {
    hide SetSizeOfInuse, SetHead, SetFree, SetSizeOfFree, MergeWrites, WholeHeap;
    PrependWords(m1, h.segs[k].base - tsize + nb, Word(tsize - nb, true, true), hi);
  }

  lemma QuotientFacts(h: Heap, k: nat, tsize: nat, nb: nat)
    requires Ok(h) && k < |h.segs| && nb + MIN_CHUNK_SIZE <= tsize < h.segs[k].base && RequestOk(nb) && Aligned(tsize)
    requires Fresh(h, h.segs[k].base - tsize, tsize) && Known(h, h.mem, h.segs[k].base)
    ensures var base := h.segs[k].base;
      Aligned(tsize - nb) && Aligned(tsize - nb + h.tiles[base].size) && base + h.tiles[base].size <= TWO64
  {
    hide S.IsSmall, SegmentOk, DirectsOk, EndsKnown, Tagged, Binned;
    AlignedSum(tsize, nb);
    AlignedSum(tsize - nb, h.tiles[h.segs[k].base].size);
    ChunkBelow(h, h.segs[k].base);
  }

  lemma ChunkBelow(h: Heap, p: Addr)
    requires Tiled(h.tiles, h.starts, h.ends, h.top) && InArena(h.tiles, h.ends, h.arena) && p in h.tiles
    ensures Next(h.tiles, p) <= TWO64
  {
    ChunkFacts(h, p);
    assert Next(h.tiles, p) - 1 in h.arena;
  }

  // What prepend_alloc may take for granted before it writes the rest.
  lemma PrependReady(h: Heap, k: nat, tsize: nat, nb: nat, hi: Addr, kind: Freed)
    requires k < |h.segs| && nb + MIN_CHUNK_SIZE <= tsize < h.segs[k].base && RequestOk(nb) && Aligned(tsize)
    requires Fresh(h, h.segs[k].base - tsize, tsize) && Ok(h)
    requires h.segs[k].base in h.tiles ==> RestOf(h, h.segs[k].base, hi, kind)
    ensures var base := h.segs[k].base; var q, m1 := base - tsize + nb, SetSizeOfInuse(h.mem, base - tsize, nb);
      && base in h.tiles && Known(h, m1, base) && RestOf(h, base, hi, kind)
          && (kind != IntoBin ==> !Head(m1, hi).pinuse)
      && q > 0 && q !in h.small && q !in h.large && base <= hi <= TWO64
      && Aligned(base - q) && Aligned(base - q + h.tiles[base].size)
  {
    hide Ok, Fresh, SetSizeOfInuse, S.IsSmall, RequestOk, Aligned;
    OldFirst(h, k, tsize);
    FirstSame(h, h.segs[k].base - tsize, nb, h.segs[k].base);
    RestUnbinned(h, k, tsize, nb, kind, hi);
    QuotientFacts(h, k, tsize, nb);
  }

  // The words, fields and bins that prepend_alloc leaves.
  ghost predicate PrependWritten(h: Heap, h2: Heap, k: nat, tsize: nat, nb: nat, hi: Addr, kind: Freed)
    requires k < |h.segs| && nb <= tsize < h.segs[k].base <= hi
  {
    var base := h.segs[k].base;
    var q, m1 := base - tsize + nb, SetSizeOfInuse(h.mem, base - tsize, nb);
    && (kind != IntoBin ==> !Head(m1, hi).pinuse)
    && h2.mem == (match kind
                  case IntoTop => SetHead(m1, q, Word(hi - q, false, true))
                  case IntoVictim => SetSizeOfFree(m1, q, hi - q)
                  case IntoBin => SetFree(m1, q, hi - q, hi))
    && h2.segs == h.segs[k := h.segs[k].(base := base - tsize, size := h.segs[k].size + tsize)]
    && h2.top == (if kind == IntoTop then q else h.top) && h2.topsize == (if kind == IntoTop then hi - q else h.topsize)
    && h2.dv == (if kind == IntoVictim then q else h.dv)
        && h2.dvsize == (if kind == IntoVictim then hi - q else h.dvsize)
    && h2.small == (if kind == IntoBin then PutSmall(h.small - {base}, q, hi - q) else h.small)
    && h2.large == (if kind == IntoBin then PutLarge(h.large - {base}, q, hi - q) else h.large)
  }

  lemma PrependAll(h: Heap, w: Heap, k: nat, tsize: nat, nb: nat, hi: Addr, kind: Freed, b: Books, b2: Books)
    requires k < |h.segs| && nb + MIN_CHUNK_SIZE <= tsize < h.segs[k].base && RequestOk(nb) && Aligned(tsize)
    requires Fresh(h, h.segs[k].base - tsize, tsize) && h.segs[k].mmapped && b.granularity > 0
    requires h.segs[k].base in h.tiles && RestOf(h, h.segs[k].base, hi, kind) && h.segs[k].base <= hi
    requires PrependWritten(h, w, k, tsize, nb, hi, kind)
    requires BooksOk(h, b) && Gained(b, b2, tsize, h.segs[k].base - tsize) && Units(tsize, b.granularity)
    requires Ok(h)
    ensures CanHalve(WholeHeap(h, k, tsize), h.segs[k].base - tsize, nb)
    ensures var h2, base := PrependResult(h, w.mem, k, tsize, nb, hi, kind), h.segs[k].base;
      && Ok(h2) && BooksOk(h2, b2) && Malloced(h, h2, base - tsize + TWO_WORDS, nb)
      && h2.mem == w.mem && h2.segs == w.segs && h2.top == w.top && h2.topsize == w.topsize && h2.dv == w.dv
      && h2.dvsize == w.dvsize && h2.small == w.small && h2.large == w.large && h2.direct == h.direct
  {
    hide Ok, Fresh, BooksOk, Malloced, SetSizeOfInuse, SetHead, SetFree, SetSizeOfFree, MergeWrites, WholeHeap,
      CutHeap, PrependResult, CanHalve, PutSmall, PutLarge, RequestOk, Units, Gained, RestOf, Aligned;
    var m := w.mem;
    CutOk(h, k, tsize, nb);
    CutFacts(h, k, tsize, nb);
    RestUnbinned(h, k, tsize, nb, kind, hi);
    PrependJoined(h, SetSizeOfInuse(h.mem, h.segs[k].base - tsize, nb), k, tsize, nb, hi, m, kind);
    PrependDone(h, m, k, tsize, nb, hi, kind, b, b2);
    PrependFields(h, m, k, tsize, nb, hi, kind);
    PrependBins(h, m, k, tsize, nb, hi, kind);
  }

  lemma RestIs(h: Heap, base: Addr, hi: Addr, kind: Freed)
    requires kind == if base == h.top then IntoTop else if base == h.dv then IntoVictim else IntoBin
    requires hi == if base in h.tiles && !h.tiles[base].used then Next(h.tiles, base) else base
    ensures base in h.tiles ==> RestOf(h, base, hi, kind)
  {
  }

  lemma RestPlace(h: Heap, base: Addr, hi: Addr, kind: Freed)
    requires RestOf(h, base, hi, kind)
    ensures base in h.tiles
  {
  }

  // ---- sys_alloc as a whole ----

  predicate Extendable(s: Segment) {
    s.mmapped && !s.extern
  }

  // The first segment that starts at a can be extended downwards.
  predicate StartsAt(segs: seq<Segment>, k: nat, a: Addr) {
    k < |segs| && segs[k].base == a && Extendable(segs[k]) && forall i :: 0 <= i < k ==> segs[i].base != a
  }

  // New memory extends the segment of top if it follows it, and otherwise a segment that it precedes; else it is a
  // segment of its own, and the segment that had top ends with its record.
  ghost predicate JoinedBy(h: Heap, segs2: seq<Segment>, tbase: Addr, tsize: nat) {
    && |h.segs| > 0
    && if Extendable(h.segs[0]) && h.segs[0].base + h.segs[0].size == tbase
       then segs2 == h.segs[0 := h.segs[0].(size := h.segs[0].size + tsize)]
       else if SomeStartsAt(h.segs, tbase + tsize)
       then exists k: nat :: ExtendedDown(h.segs, segs2, k, tbase, tsize)
       else AddedFirst(h, segs2, tbase, tsize)
  }

  ghost predicate SomeStartsAt(segs: seq<Segment>, a: Addr) {
    exists k: nat :: StartsAt(segs, k, a)
  }

  ghost predicate ExtendedDown(segs: seq<Segment>, segs2: seq<Segment>, k: nat, tbase: Addr, tsize: nat) {
    && StartsAt(segs, k, tbase + tsize)
    && segs2 == segs[k := segs[k].(base := tbase, size := segs[k].size + tsize)]
  }

  ghost predicate AddedFirst(h: Heap, segs2: seq<Segment>, tbase: Addr, tsize: nat) {
    && |h.segs| > 0
    && var first := h.segs[0].(record := RecordChunk(h) + TWO_WORDS);
       segs2 == [Segment(tbase, tsize, 0, true, false)] + [first] + h.segs[1..]
  }

  // The three ways, with what each tests; k is the first segment that starts after the new memory, or none.
  lemma JoinsTop(h: Heap, segs2: seq<Segment>, tbase: Addr, tsize: nat)
    requires |h.segs| > 0 && Extendable(h.segs[0]) && h.segs[0].base + h.segs[0].size == tbase
    requires segs2 == h.segs[0 := h.segs[0].(size := h.segs[0].size + tsize)]
    ensures JoinedBy(h, segs2, tbase, tsize)
  {
  }

  lemma JoinsOther(h: Heap, segs2: seq<Segment>, k: nat, tbase: Addr, tsize: nat)
    requires |h.segs| > 0 && !(Extendable(h.segs[0]) && h.segs[0].base + h.segs[0].size == tbase)
    requires k <= |h.segs| && forall i :: 0 <= i < k ==> h.segs[i].base != tbase + tsize
    requires k < |h.segs| ==> h.segs[k].base == tbase + tsize
    requires if k < |h.segs| && Extendable(h.segs[k])
      then segs2 == h.segs[k := h.segs[k].(base := tbase, size := h.segs[k].size + tsize)]
      else AddedFirst(h, segs2, tbase, tsize)
    ensures JoinedBy(h, segs2, tbase, tsize)
  {
    hide AddedFirst;
    if k < |h.segs| && Extendable(h.segs[k]) {
      assert StartsAt(h.segs, k, tbase + tsize);
      assert ExtendedDown(h.segs, segs2, k, tbase, tsize);
    }
  }

  lemma MallocedThen(h: Heap, h2: Heap, h3: Heap, mem: Addr, nb: nat)
    requires Undisturbed(h, h2, h.live) && h2.live == h.live && Malloced(h2, h3, mem, nb) && Ok(h)
    ensures Malloced(h, h3, mem, nb)
  {
    hide Ok, Undisturbed;
    LivePlaced(h);
    UndisturbedThen(h, h2, h3, h.live, h2.live);
  }

  lemma GainedBy(b: Books, b2: Books, n: nat, tbase: Addr)
    requires b2.footprint == b.footprint + n <= b2.maxFootprint && 0 < b2.least <= b.least && b2.least <= tbase
    requires b.mapped <= b2.mapped && Range(tbase, tbase + n) <= b2.mapped
    requires SameTerms(b, b2)
    ensures Gained(b, b2, n, tbase)
  {
  }

  lemma LeastBelowTop(h: Heap, b: Books)
    requires Ok(h) && BooksOk(h, b)
    ensures 0 < b.least <= TopEnd(h)
  {
    hide Tagged, VictimOk, Binned;
    TopSegment(h);
    assert SegmentOk(h, 0);
    TopBytes(h);
    assert TopEnd(h) - 1 in Range(h.top, TopEnd(h));
  }

  // What sys_alloc got is enough, and new.
  lemma SysFacts(h: Heap, b: Books, nb: nat, tbase: Addr, tsize: nat, granularity: nat, page: nat)
    requires BooksOk(h, b) && Range(tbase, tbase + tsize) !! b.mapped && tbase > 0 && tbase + tsize <= TWO64
    requires Units(tbase, page) && Units(tsize, granularity) && Aligned(page) && Aligned(granularity) && tsize > 0
    ensures Fresh(h, tbase, tsize) && Aligned(tsize)
  {
    UnitsAligned(tbase, page);
    UnitsAligned(tsize, granularity);
    FreshMap(h, b, tbase, tsize);
  }

  // ---- malloc as a whole ----

  // mspace_usable_size: the chunk without its overhead.
  function UsableSize(h: Heap, mem: Addr): int
    requires mem >= TWO_WORDS && (mem - TWO_WORDS in h.tiles || mem - TWO_WORDS in h.direct)
  {
    var p := mem - TWO_WORDS;
    if p in h.tiles then h.tiles[p].size - CHUNK_OVERHEAD else h.direct[p].size - MMAP_CHUNK_OVERHEAD
  }

  // By the count of the space itself, the block at mem has so many bytes.
  ghost predicate Enough(h: Heap, mem: Addr, bytes: nat) {
    mem >= TWO_WORDS && (mem - TWO_WORDS in h.tiles || mem - TWO_WORDS in h.direct) && UsableSize(h, mem) >= bytes
  }

  // A block for a request: new, aligned, large enough, and with less than a chunk to spare unless it is mapped.
  ghost predicate Given(h: Heap, h2: Heap, mem: Addr, bytes: nat) {
    && mem >= TWO_WORDS && Aligned(mem)
    && var p := mem - TWO_WORDS;
    && p !in h.live && h2.live == h.live + {p} && (p in h2.tiles || p in h2.direct) && UsableSize(h2, mem) >= bytes
    && (p in h2.tiles ==> h2.tiles[p].size < RequestToSize(bytes) + MIN_CHUNK_SIZE)
    && (p in h2.direct ==> AtStart(p, h2.direct[p]))
  }

  lemma MallocedGiven(h: Heap, h2: Heap, mem: Addr, bytes: nat)
    requires Malloced(h, h2, mem, RequestToSize(bytes)) && mem != 0 && Ok(h2)
    ensures Given(h, h2, mem, bytes)
  {
    hide Undisturbed;
    RequestSize(bytes);
    LivePlaced(h2);
  }

  lemma SmallRequestFacts(bytes: nat)
    requires bytes <= MAX_SMALL_REQUEST
    ensures var nb := RequestToSize(bytes);
      RequestOk(nb) && nb <= 248 && S.SmallIndex(nb) < 32 && S.IndexSize(S.SmallIndex(nb)) == nb && S.IsSmall(nb)
  {
    RequestSize(bytes);
  }

  lemma LargeRequestFacts(bytes: nat)
    requires MAX_SMALL_REQUEST < bytes < MAX_REQUEST
    ensures RequestToSize(bytes) == PadRequest(bytes) && RequestOk(PadRequest(bytes)) && PadRequest(bytes) >= 256
    ensures !S.IsSmall(PadRequest(bytes))
  {
    RequestSize(bytes);
  }

  // Bins and sizes around a small request.
  lemma BinSizes(i: nat, nb: nat, j: nat)
    requires S.IndexSize(i) == nb && i <= j
    ensures nb <= S.IndexSize(j) && (j <= i + 1 ==> S.IndexSize(j) < nb + MIN_CHUNK_SIZE)
        && (j > i ==> nb < S.IndexSize(j))
  {
  }

  lemma StepIsBit(x: bv32)
    ensures BinMap.Step(x) <= 1
  {
    BinMap.TwoBits(x);
  }

  lemma TooBig(h: Heap, nb: nat)
    requires Ok(h)
    ensures nb == MAX_SIZE_T ==> nb > h.dvsize && nb > h.topsize
  {
    hide Ok;
    VictimBelow(h);
    TopFacts(h);
    VictimSmaller(h);
  }

  lemma VictimSmaller(h: Heap)
    requires Ok(h)
    ensures h.dvsize < MAX_SIZE_T && h.topsize < MAX_SIZE_T
  {
    hide Ok;
    TopFacts(h);
    if h.dvsize > 0 {
      VictimFacts(h);
    }
  }

  // Some free chunk can serve a request: the victim, the top chunk with something to spare, or one in a bin.
  ghost predicate HasRoom(h: Heap, nb: nat) {
    || nb <= h.dvsize || nb < h.topsize
    || (exists p :: p in h.small && nb <= h.small[p]) || (exists p :: p in h.large && nb <= h.large[p])
  }

  // Chunks in small bins are small.
  lemma NotLarger(h: Heap, nb: nat)
    requires Ok(h)
    ensures nb >= 256 ==> forall p :: p in h.small ==> h.small[p] < nb
  {
    hide SpaceOk, UsersOk, Tiled, Tagged, VictimOk;
  }

  lemma MallocOutcome(h: Heap, h2: Heap, r: Addr, bytes: nat, nb: nat)
    requires Malloced(h, h2, r, nb) && Ok(h2) && (r == 0 ==> h2 == h)
    requires if bytes >= MAX_REQUEST then r == 0 else nb == RequestToSize(bytes)
    ensures Undisturbed(h, h2, h.live) && if r == 0 then h2 == h else Given(h, h2, r, bytes)
  {
    hide Ok, Given, Undisturbed;
    if r != 0 {
      MallocedGiven(h, h2, r, bytes);
    }
  }

  // ---- free of a chunk in a segment ----

  // The block p is gone, and no other block is disturbed.
  ghost predicate FreedBlock(h: Heap, h2: Heap, p: Addr) {
    h2.live == h.live - {p} && Undisturbed(h, h2, h.live - {p})
  }

  lemma FreeDone(h: Heap, m: Memory, p: Addr, lo: Addr, hi: Addr, kind: Freed, b: Books)
    requires CanFree(h, p, lo, hi, kind) && lo < hi && MergeWrites(h.mem, m, lo, hi, kind == IntoTop) && Ok(h)
        && BooksOk(h, b)
    ensures var h2 := FreedHeap(h, m, p, lo, hi, kind); Ok(h2) && BooksOk(h2, b) && FreedBlock(h, h2, p)
  {
    hide Ok, BooksOk, Undisturbed, InnerKept, MergeWrites, FreedSmall, FreedLarge;
    var h2 := FreedHeap(h, m, p, lo, hi, kind);
    FreeOk(h, h2, p, lo, hi, kind);
    BooksKept(h, h2, b);
  }

  // A chunk with a chunk in use before it: what its tags and the bins say.
  lemma ChunkKnown(h: Heap, q: Addr)
    requires Ok(h) && q in h.tiles && Head(h.mem, q).pinuse
    ensures Known(h, h.mem, q) && Next(h.tiles, q) <= TWO64
  {
    hide SegmentOk, DirectsOk, EndsKnown, S.IsSmall;
    ChunkFacts(h, q);
    ChunkBelow(h, q);
    assert TagsOf(h.mem, h.tiles, h.top, q);
  }

  // The block to be freed, the start of its run, and what follows it.
  ghost predicate Joined(h: Heap, p: Addr, lo: Addr, next: Addr) {
    && p in h.live && p in h.tiles && next == Next(h.tiles, p) && next in h.tiles && p < next
    && (if Head(h.mem, p).pinuse then lo == p
        else lo in h.tiles && !h.tiles[lo].used && lo < p && Next(h.tiles, lo) == p)
    && lo > 0 && Aligned(next - lo) && lo != h.top
    && (lo == p ==> lo != h.dv && lo !in h.small && lo !in h.large)
    && MIN_CHUNK_SIZE <= next - lo && next <= TWO64 && lo != next
  }

  // What free reads at p.
  lemma FreeFacts(h: Heap, p: Addr)
    requires Ok(h) && p in h.live && p in h.tiles
    ensures var next := Next(h.tiles, p);
      && next in h.tiles && Head(h.mem, next).pinuse && Known(h, h.mem, next) && Next(h.tiles, next) <= TWO64
      && Head(h.mem, p).size == h.tiles[p].size && Head(h.mem, p).cinuse && next > p
      && (Head(h.mem, p).pinuse ==> Joined(h, p, p, next))
      && (!Head(h.mem, p).pinuse ==>
            && 0 < Foot(h.mem, p) <= p
            && var lo := p - Foot(h.mem, p);
                Joined(h, p, lo, next) && Known(h, h.mem, lo) && h.tiles[lo].size == Foot(h.mem, p))
  {
    hide SegmentOk, DirectsOk, EndsKnown, S.IsSmall, Tagged, Binned, VictimOk;
    Neighbours(h, p);
    var next := Next(h.tiles, p);
    ChunkKnown(h, next);
    ChunkFacts(h, p);
    if Head(h.mem, p).pinuse {
      ChunkKnown(h, p);
    } else {
      var lo := p - Foot(h.mem, p);
      FreeHasPinuse(h, lo);
      ChunkKnown(h, lo);
      AlignedSum(h.tiles[lo].size, h.tiles[p].size);
    }
  }

  lemma FreeHasPinuse(h: Heap, q: Addr)
    requires Ok(h) && q in h.tiles && !h.tiles[q].used
    ensures Head(h.mem, q).pinuse && Head(h.mem, q).size == h.tiles[q].size && !Head(h.mem, q).cinuse
  {
    assert TagsOf(h.mem, h.tiles, h.top, q);
  }

  function KindOf(h: Heap, lo: Addr, next: Addr): Freed {
    if next == h.top then IntoTop else if lo == h.dv || next == h.dv then IntoVictim else IntoBin
  }

  // Where the run ends: a free chunk after the block is taken in.
  function RunEnd(h: Heap, next: Addr): Addr {
    if next in h.tiles && !h.tiles[next].used then Next(h.tiles, next) else next
  }

  // The block p, with the free chunk before it, from lo on, and the one after it, is one free chunk.
  ghost predicate FreedAs(h: Heap, h2: Heap, p: Addr, lo: Addr) {
    && p in h.tiles
    && var next := Next(h.tiles, p);
    && Joined(h, p, lo, next) && lo < RunEnd(h, next)
    && h2 == FreedHeap(h, h2.mem, p, lo, RunEnd(h, next), KindOf(h, lo, next))
  }

  // A mapped segment whose first chunk is free and reaches the last bytes: what release_unused_segments tests.
  predicate Releasable(m: Memory, s: Segment) {
    s.mmapped && !s.extern && !IsInuse(m, s.base) && s.base + Head(m, s.base).size + TOP_FOOT_SIZE >= s.base + s.size
  }

  ghost predicate NoneReleasable(h: Heap) {
    forall j :: 0 < j < |h.segs| ==> !Releasable(h.mem, h.segs[j])
  }

  // What free counts: the footprint, the size from which top is trimmed, the large chunks to be freed before the next
  // scan for segments to release, and how often the system refused.
  datatype Counts = Counts(footprint: nat, trimCheck: nat, releaseChecks: nat, refused: nat)

  // Top is trimmed when it has grown over trim_check: to the granularity, if its segment can shrink, and with every
  // segment that can go gone, unless the system refuses. When nothing could be given back, it is not tried again.
  ghost predicate Trimmed(c: Counts, h2: Heap, c2: Counts, pinned: bool, granularity: nat) {
    && c2.footprint <= c.footprint && (c2.footprint == c.footprint ==> c2.trimCheck == MAX_SIZE_T)
    && c.refused <= c2.refused
    && (c.refused == c2.refused ==> (!pinned ==> h2.topsize <= TOP_FOOT_SIZE + granularity) && NoneReleasable(h2))
  }

  // The segments are scanned at the last large chunk counted.
  ghost predicate Scanned(c: Counts, h2: Heap, c2: Counts) {
    && c2.footprint <= c.footprint && c2.trimCheck == c.trimCheck && c2.releaseChecks >= MAX_RELEASE_CHECK_RATE
    && c.refused <= c2.refused && (c.refused == c2.refused ==> NoneReleasable(h2))
  }

  // How free ends, when the run of p begins at lo.
  ghost predicate FreeEnds(h: Heap, c: Counts, h2: Heap, c2: Counts, p: Addr, lo: Addr, pinned: bool, granularity: nat)
  {
    && p in h.tiles
    && var next := Next(h.tiles, p);
    && Joined(h, p, lo, next) && lo < RunEnd(h, next)
    && var kind, size := KindOf(h, lo, next), RunEnd(h, next) - lo;
    if kind == IntoTop && size > c.trimCheck then Trimmed(c, h2, c2, pinned, granularity)
    else if kind == IntoBin && !S.IsSmall(size) && c.releaseChecks == 1 then Scanned(c, h2, c2)
    else
      && FreedAs(h, h2, p, lo)
      && c2 == c.(releaseChecks :=
           if kind == IntoBin && !S.IsSmall(size) && c.releaseChecks > 0 then c.releaseChecks - 1 else c.releaseChecks)
  }

  // The same, wherever the run begins.
  ghost predicate Freeing(h: Heap, c: Counts, h2: Heap, c2: Counts, p: Addr, pinned: bool, granularity: nat) {
    exists lo :: FreeEnds(h, c, h2, c2, p, lo, pinned, granularity)
  }

  lemma JoinedCanFree(h: Heap, p: Addr, lo: Addr, next: Addr)
    requires Joined(h, p, lo, next)
    ensures CanFree(h, p, lo, if h.tiles[next].used then next else Next(h.tiles, next), KindOf(h, lo, next))
  {
  }

  lemma BothGone(m: map<Addr, nat>, a: Addr, b: Addr)
    ensures (m - {a}) - {b} == m - {a, b}
    ensures b !in m ==> m - {a} == m - {a, b}
  {
  }

  // The ways a run is freed, with the words each writes.
  lemma JoinTopDone(h: Heap, p: Addr, lo: Addr, next: Addr, b: Books)
    requires Joined(h, p, lo, next) && Known(h, h.mem, next) && next == h.top && Ok(h) && BooksOk(h, b)
    ensures var hi := next + h.topsize;
      && lo < hi && next !in h.small && next !in h.large
      && var h2 := FreedHeap(h, SetHead(h.mem, lo, Word(hi - lo, false, true)), p, lo, hi, IntoTop);
         Ok(h2) && BooksOk(h2, b) && FreedBlock(h, h2, p)
  {
    hide Ok, BooksOk, FreedBlock, SetHead, FreedSmall, FreedLarge, MergeWrites, CanFree;
    JoinedCanFree(h, p, lo, next);
    MergeWords(h.mem, lo, next + h.topsize);
    FreeDone(h, SetHead(h.mem, lo, Word(next + h.topsize - lo, false, true)), p, lo, next + h.topsize, IntoTop, b);
  }

  lemma JoinTopFields(h: Heap, m: Memory, p: Addr, lo: Addr, next: Addr)
    requires Joined(h, p, lo, next) && Known(h, h.mem, next) && next == h.top
    ensures var h2 := FreedHeap(h, m, p, lo, next + h.topsize, IntoTop);
      && h2.mem == m && h2.top == lo && h2.topsize == next + h.topsize - lo && h2.segs == h.segs
      && h2.dv == (if lo == h.dv then 0 else h.dv) && h2.dvsize == (if lo == h.dv then 0 else h.dvsize)
      && h2.small == h.small - {lo} && h2.large == h.large - {lo}
      && RunEnd(h, next) == next + h.topsize && KindOf(h, lo, next) == IntoTop
  {
    FreedBins(h, p, lo, next, next + h.topsize, IntoTop);
    NoKey(h.small - {lo}, next);
    NoKey(h.large - {lo}, next);
    hide FreedSmall, FreedLarge, Merged;
  }

  // Into the victim or a bin, when the chunk after is free, and when it is in use.
  lemma JoinFreeDone(h: Heap, p: Addr, lo: Addr, next: Addr, b: Books)
    requires Joined(h, p, lo, next) && Known(h, h.mem, next) && !h.tiles[next].used && next != h.top && Ok(h)
        && BooksOk(h, b)
    ensures var hi := Next(h.tiles, next);
      && lo < hi
      && var h2 := FreedHeap(h, SetSizeOfFree(h.mem, lo, hi - lo), p, lo, hi, KindOf(h, lo, next));
         Ok(h2) && BooksOk(h2, b) && FreedBlock(h, h2, p)
  {
    hide Ok, BooksOk, FreedBlock, SetSizeOfFree, FreedSmall, FreedLarge, MergeWrites, CanFree;
    JoinedCanFree(h, p, lo, next);
    MergeWords(h.mem, lo, Next(h.tiles, next));
    FreeDone(h, SetSizeOfFree(h.mem, lo, Next(h.tiles, next) - lo), p, lo, Next(h.tiles, next), KindOf(h, lo, next), b);
  }

  lemma JoinUsedDone(h: Heap, p: Addr, lo: Addr, next: Addr, b: Books)
    requires Joined(h, p, lo, next) && Known(h, h.mem, next) && h.tiles[next].used && Ok(h) && BooksOk(h, b)
    ensures next != h.top && next != h.dv && next !in h.small && next !in h.large
    ensures lo < next && var h2 := FreedHeap(h, SetFree(h.mem, lo, next - lo, next), p, lo, next, KindOf(h, lo, next));
      Ok(h2) && BooksOk(h2, b) && FreedBlock(h, h2, p)
  {
    hide Ok, BooksOk, FreedBlock, SetFree, FreedSmall, FreedLarge, MergeWrites, CanFree;
    JoinedCanFree(h, p, lo, next);
    MergeWords(h.mem, lo, next);
    FreeDone(h, SetFree(h.mem, lo, next - lo, next), p, lo, next, KindOf(h, lo, next), b);
  }

  // The bins after a run is freed.
  lemma FreedBins(h: Heap, p: Addr, lo: Addr, next: Addr, hi: Addr, kind: Freed)
    requires p in h.tiles && next == Next(h.tiles, p) && lo < hi
    ensures FreedSmall(h, p, lo, hi, kind) ==
            if kind == IntoBin then PutSmall(h.small - {lo} - {next}, lo, hi - lo) else h.small - {lo} - {next}
    ensures FreedLarge(h, p, lo, hi, kind) ==
            if kind == IntoBin then PutLarge(h.large - {lo} - {next}, lo, hi - lo) else h.large - {lo} - {next}
  {
    hide PutSmall, PutLarge;
    BothGone(h.small, lo, next);
    BothGone(h.large, lo, next);
  }

  lemma JoinedLo(h: Heap, p: Addr, lo: Addr, next: Addr)
    requires Joined(h, p, lo, next)
    ensures lo > 0 && lo in h.tiles && p in h.tiles && next == Next(h.tiles, p) && p < next && lo <= p && lo != h.top
    ensures lo < p ==> !h.tiles[lo].used
  {
  }

  // ok_address holds of every chunk.
  lemma TilesReachable(h: Heap, least: Addr, p: Addr)
    requires Ok(h) && p in h.tiles && LeastOk(h, least)
    ensures p >= least
  {
    ChunkFacts(h, p);
    assert p in h.arena;
  }

  // Nor is a chunk in a bin, the victim or the top chunk ever below the least address: the checks of the bin
  // operations pass.
  lemma BinnedReachable(h: Heap, b: Books, p: Addr)
    requires Ok(h) && BooksOk(h, b)
    requires p in h.small || p in h.large || (p == h.dv && h.dvsize > 0) || p == h.top
    ensures p >= b.least && p in h.tiles && !h.tiles[p].used
  {
    TopFacts(h);
    LeastOf(h, b);
    if p in h.small {
      SmallChunk(h, p);
    } else if p in h.large {
      LargeChunk(h, p);
    } else if p == h.dv && h.dvsize > 0 {
      VictimFacts(h);
    }
    hide Ok, BooksOk, LeastOk;
    TilesReachable(h, b.least, p);
  }

  lemma RunAligned(a: nat, b: nat)
    requires Aligned(a) && Aligned(b)
    ensures (a + b) % 8 == 0
  {
  }

  // ---- Giving memory back ----

  // b2 is b with n bytes from base on given back to the system.
  ghost predicate Returned(b: Books, b2: Books, base: Addr, n: nat) {
    && b2.footprint + n == b.footprint && b2.maxFootprint == b.maxFootprint && b2.least == b.least
    && b2.mapped == b.mapped - Range(base, base + n)
    && SameTerms(b, b2)
  }

  // A change that keeps every block.
  ghost predicate SameBlocks(h: Heap, h2: Heap) {
    h2.live == h.live && Undisturbed(h, h2, h.live)
  }

  lemma SameBlocksThen(h: Heap, h2: Heap, h3: Heap)
    requires SameBlocks(h, h2) && SameBlocks(h2, h3) && Ok(h)
    ensures SameBlocks(h, h3)
  {
    hide Ok, Undisturbed;
    LivePlaced(h);
    UndisturbedThen(h, h2, h3, h.live, h2.live);
  }

  lemma FreedThen(h: Heap, h2: Heap, h3: Heap, p: Addr)
    requires FreedBlock(h, h2, p) && SameBlocks(h2, h3) && Ok(h)
    ensures FreedBlock(h, h3, p)
  {
    hide Ok, Undisturbed;
    LivePlaced(h);
    UndisturbedThen(h, h2, h3, h.live - {p}, h2.live);
  }

  lemma NoChange(h: Heap)
    ensures SameBlocks(h, h)
  {
  }

  // What release_unused_segments reads of a segment.
  lemma ReleaseFacts(h: Heap, i: nat)
    requires Ok(h) && 0 < i < |h.segs|
    ensures var s := h.segs[i]; var p := s.base;
      && p in h.tiles && Known(h, h.mem, p) && p > 0 && (IsInuse(h.mem, p) <==> h.tiles[p].used)
      && (CanRelease(h, i) <==> !IsInuse(h.mem, p) && p + Head(h.mem, p).size + TOP_FOOT_SIZE >= p + s.size)
  {
    hide Tagged, Binned, VictimOk, DirectsOk, EndsKnown, InArena, S.IsSmall;
    assert SegmentOk(h, i);
    var p := h.segs[i].base;
    StartPinuse(h, p);
    ChunkKnown(h, p);
    hide SegmentOk;
    ChunkFacts(h, p);
  }

  // A mapped segment that can be released: its only free chunk is large.
  lemma ReleasableFacts(h: Heap, b: Books, i: nat)
    requires CanRelease(h, i) && h.segs[i].mmapped && b.granularity >= 4096 && BooksOk(h, b) && Ok(h)
    ensures var s := h.segs[i]; var p := s.base;
      && !S.IsSmall(h.tiles[p].size) && h.tiles[p].size >= TreeSize() && p != h.top && RecordIn(h, i)
      && Range(p, p + s.size) <= b.mapped && s.size > 0
  {
    hide Tagged, Binned, VictimOk, DirectsOk, EndsKnown, InArena, S.IsSmall, SegmentOk;
    var s := h.segs[i];
    OnlyRecordLeft(h, i);
    SegmentInArena(h, i);
    assert s in h.segs;
    UnitsAtLeast(s.size, b.granularity);
    LargeEnough(h.tiles[s.base].size);
  }

  function TreeSize(): nat {
    256
  }

  lemma LargeEnough(n: nat)
    requires n >= 256
    ensures !S.IsSmall(n)
  {
  }

  // The record chunk of a segment is not the chunk of the state.
  ghost predicate RecordIn(h: Heap, i: nat) {
    i < |h.segs| && RecordOf(h, i) in h.tiles && h.tiles[RecordOf(h, i)] == Tile(SEGMENT_RECORD_SIZE, true)
  }

  lemma ReleaseDone(h: Heap, i: nat, b: Books, b2: Books)
    requires CanRelease(h, i) && RecordIn(h, i) && Ok(h) && BooksOk(h, b)
        && Returned(b, b2, h.segs[i].base, h.segs[i].size)
    ensures var h2 := ReleasedHeap(h, i); Ok(h2) && BooksOk(h2, b2) && SameBlocks(h, h2)
  {
    hide Ok, BooksOk, Undisturbed, InnerKept, Returned;
    var h2 := ReleasedHeap(h, i);
    ReleaseOk(h, h2, i);
    OkParts(h);
    DirectsOf(h);
    DirectsOutsideArena(h.mem, h.arena, h.direct);
    SegmentInArena(h, i);
    ReleaseBooks(h, h2, i, b, b2);
  }

  lemma SegmentInArena(h: Heap, i: nat)
    requires Ok(h) && i < |h.segs|
    ensures Range(h.segs[i].base, h.segs[i].base + h.segs[i].size) <= h.arena
  {
    assert SegmentOk(h, i);
  }

  lemma ReleaseBooks(h: Heap, h2: Heap, i: nat, b: Books, b2: Books)
    requires CanRelease(h, i) && RecordIn(h, i) && BooksOk(h, b) && Returned(b, b2, h.segs[i].base, h.segs[i].size)
    requires h2 == ReleasedHeap(h, i) && InnerKept(h, h2) && OutsideDirects(h.direct, h.arena)
    requires Range(h.segs[i].base, h.segs[i].base + h.segs[i].size) <= h.arena
    ensures BooksOk(h2, b2)
  {
    SegmentRemoved(h.segs, i);
    hide Units, InRegion;
  }

  // When the system refuses, the chunk goes to the tree, even if it was the victim.
  ghost function BackedOut(h: Heap, p: Addr): Heap
    requires p in h.tiles
  {
    h.(dv := if p == h.dv then 0 else h.dv, dvsize := if p == h.dv then 0 else h.dvsize,
        large := (h.large - {p})[p := h.tiles[p].size])
  }

  lemma BackOutDone(h: Heap, p: Addr, b: Books)
    requires p in h.tiles && !h.tiles[p].used && p != h.top && !S.IsSmall(h.tiles[p].size) && p !in h.small
    requires Ok(h) && BooksOk(h, b)
    ensures var h2 := BackedOut(h, p); Ok(h2) && BooksOk(h2, b) && SameBlocks(h, h2)
  {
    hide Ok, BooksOk, Tiled, Tagged, SpaceOk, UsersOk, S.IsSmall, BinHolds;
    var h2 := BackedOut(h, p);
    OkParts(h);
    CoreParts(h, {});
    BackOutBins(h, p);
    BackOutSpace(h, h2, p);
    NoZero(h);
    OkOf(h2);
    BackOutBooks(h, h2, p, b);
  }

  lemma NoZero(h: Heap)
    requires Ok(h)
    ensures 0 !in h.tiles
  {
    assert 0 in h.tiles ==> TileOk(h.tiles, h.ends, h.top, 0);
  }

  lemma BackOutBins(h: Heap, p: Addr)
    requires Binned(h.tiles, h.top, h.dv, h.small, h.large, {}) && Ok(h)
    requires p in h.tiles && !h.tiles[p].used && p != h.top && !S.IsSmall(h.tiles[p].size) && p !in h.small
    ensures var h2 := BackedOut(h, p); Binned(h2.tiles, h2.top, h2.dv, h2.small, h2.large, {})
  {
    hide S.IsSmall, Ok;
    NoZero(h);
  }

  lemma BackOutSpace(h: Heap, h2: Heap, p: Addr)
    requires SpaceOk(h) && UsersOk(h) && p in h.tiles && h2 == BackedOut(h, p)
    ensures SpaceOk(h2) && UsersOk(h2) && Undisturbed(h, h2, h.live)
  {
    hide InArena, DirectsOk, SegmentsApart, EndsKnown;
    forall i | 0 <= i < |h2.segs| ensures SegmentOk(h2, i) {
      assert SegmentOk(h, i) && EndOf(h2, i) == EndOf(h, i);
    }
    OutsideEnds(h, h2);
  }

  lemma BackOutBooks(h: Heap, h2: Heap, p: Addr, b: Books)
    requires BooksOk(h, b) && p in h.tiles && h2 == BackedOut(h, p)
    ensures BooksOk(h2, b)
  {
  }

  // ---- sys_trim ----

  // The bytes to give back: whole units, keeping more than pad in top.
  function TrimExtra(topsize: nat, pad: nat, unit: nat): nat
    requires topsize > pad && unit > 0
  {
    UnitCount(topsize - pad, unit);
    Times((topsize - pad + (unit - 1)) / unit - 1, unit)
  }

  lemma UnitCount(x: nat, unit: nat)
    requires x > 0 && unit > 0
    ensures (x + (unit - 1)) / unit >= 1 && x - unit <= Times((x + (unit - 1)) / unit - 1, unit) < x
  {
    var k := (x + (unit - 1)) / unit;
    RoundDown(x + (unit - 1), unit);
    QuotientPositive(x + (unit - 1), unit);
    TimesSum(k - 1, 1, unit);
    assert Times(1, unit) == unit;
  }

  lemma QuotientPositive(a: nat, unit: nat)
    requires a >= unit > 0
    ensures a / unit >= 1
  {
  }

  ghost function TrimmedHeap(h: Heap, m: Memory, extra: nat): Heap
    requires |h.segs| > 0 && h.segs[0].base <= h.top && extra <= h.topsize
  {
    ResizedHeap(h, m, h.topsize - extra, h.arena - Range(TopEnd(h) - extra, TopEnd(h)))
  }

  lemma TrimDone(h: Heap, m: Memory, extra: nat, b: Books, b2: Books)
    requires |h.segs| > 0 && h.segs[0].base <= h.top && h.segs[0].base + h.segs[0].size == TopEnd(h)
        && h.segs[0].mmapped
    requires extra < h.topsize && Units(extra, b.granularity) && b.granularity > 0 && Aligned(extra)
    requires m == AppendedWords(h.mem, h.top, h.topsize - extra)
    requires Ok(h) && BooksOk(h, b) && Returned(b, b2, TopEnd(h) - extra, extra)
    ensures var h2 := TrimmedHeap(h, m, extra); Ok(h2) && BooksOk(h2, b2) && SameBlocks(h, h2)
  {
    hide Ok, BooksOk, Undisturbed, InnerKept, Units, ArenaResized, Returned;
    var h2 := TrimmedHeap(h, m, extra);
    TopFacts(h);
    TopEndBelow(h);
    TrimArena(h, h2, extra);
    TopResizeOk(h, h2, h.topsize - extra);
    OkParts(h);
    DirectsOf(h);
    DirectsOutsideArena(h.mem, h.arena, h.direct);
    SegmentInArena(h, 0);
    TrimBooks(h, h2, extra, b, b2);
  }

  lemma TrimArena(h: Heap, h2: Heap, extra: nat)
    requires |h.segs| > 0 && h.segs[0].base <= h.top && extra < h.topsize && Aligned(h.topsize) && Aligned(extra)
    requires h2 == TrimmedHeap(h, h2.mem, extra) && h2.mem == AppendedWords(h.mem, h.top, h.topsize - extra)
    requires TopEnd(h) <= TWO64
    ensures ArenaResized(h, h2) && Aligned(h.topsize - extra) && TopResized(h, h2, h.topsize - extra)
  {
    AlignedSum(h.topsize, extra);
    hide Aligned;
    assert OutsideDirects(h.direct, Range(TopEnd(h), TopEnd(h2)));
  }

  lemma TrimBooks(h: Heap, h2: Heap, extra: nat, b: Books, b2: Books)
    requires extra < h.topsize && BooksOk(h, b) && InnerKept(h, h2) && Returned(b, b2, TopEnd(h) - extra, extra)
    requires |h.segs| > 0 && h.segs[0].base <= h.top && h.segs[0].base + h.segs[0].size == TopEnd(h)
        && h.segs[0].mmapped
    requires h2 == TrimmedHeap(h, h2.mem, extra) && Units(extra, b.granularity) && b.granularity > 0
    requires OutsideDirects(h.direct, h.arena) && Range(h.segs[0].base, h.segs[0].base + h.segs[0].size) <= h.arena
    ensures BooksOk(h2, b2)
  {
    var s := h.segs[0];
    SegmentResized(h.segs, 0, s.(size := s.size - extra));
    UnitsSum(s.size, extra, b.granularity);
    hide Units, InRegion;
    TrimOwned(h, h2, extra, b.mapped, b2.mapped);
  }

  lemma TrimOwned(h: Heap, h2: Heap, extra: nat, mapped: set<Addr>, mapped2: set<Addr>)
    requires Owns(h, mapped) && extra <= TopEnd(h) && mapped2 == mapped - Range(TopEnd(h) - extra, TopEnd(h))
    requires h2.arena == h.arena - Range(TopEnd(h) - extra, TopEnd(h)) && h2.direct == h.direct
    requires OutsideDirects(h.direct, h.arena) && |h.segs| > 0 && h.segs[0].base + h.segs[0].size == TopEnd(h)
    requires Range(h.segs[0].base, h.segs[0].base + h.segs[0].size) <= h.arena && h.segs[0].base <= TopEnd(h) - extra
    ensures Owns(h2, mapped2)
  {
    hide InRegion;
    assert Range(TopEnd(h) - extra, TopEnd(h)) <= Range(h.segs[0].base, h.segs[0].base + h.segs[0].size);
  }

  lemma KnownParts(h: Heap, m: Memory, p: Addr)
    requires Known(h, m, p)
    ensures p in h.tiles && Head(m, p).size == h.tiles[p].size < TWO64
    ensures !h.tiles[p].used && p != h.top && p != h.dv && !S.IsSmall(h.tiles[p].size) ==> p in h.large && p !in h.small
    ensures !h.tiles[p].used && p != h.top && p != h.dv && S.IsSmall(h.tiles[p].size) ==> p in h.small && p !in h.large
    ensures p == h.dv ==> p !in h.large && p !in h.small
  {
  }

  // The footprint covers each segment.
  lemma FootprintCovers(h: Heap, b: Books, i: nat)
    requires BooksOk(h, b) && i < |h.segs| && Ok(h)
    ensures h.segs[i].size <= b.footprint
  {
    hide Ok;
    SegmentBytesAt(h.segs, i);
    DirectNotNegative(h);
  }

  lemma DirectNotNegative(h: Heap)
    requires Ok(h)
    ensures DirectBytes(h.direct) >= 0
  {
    OkParts(h);
    DirectsOf(h);
    hide Ok;
    StartsBelow(h.mem, h.arena, h.direct);
    LengthsSum(h.direct);
  }

  lemma {:induction false} LengthsSum(direct: map<Addr, Region>)
    requires forall p :: p in direct ==> direct[p].start <= p
    ensures DirectBytes(direct) >= 0
    decreases |direct|
  {
    if direct != map[] {
      var p :| p in direct;
      DirectBytesAt(direct, p);
      LengthsSum(direct - {p});
    }
  }

  lemma ReleasableFree(h: Heap, i: nat)
    requires CanRelease(h, i)
    ensures i < |h.segs| && h.segs[i].base in h.tiles && !h.tiles[h.segs[i].base].used
  {
  }

  lemma ReleaseReady(h: Heap, b: Books, i: nat)
    requires 0 < i < |h.segs| && CanRelease(h, i) && h.segs[i].mmapped && b.granularity >= 4096 && BooksOk(h, b)
        && Ok(h)
    ensures var s := h.segs[i]; var p := s.base;
      && p in h.tiles && !h.tiles[p].used && p != h.top && p > 0 && Known(h, h.mem, p)
          && Head(h.mem, p).size == h.tiles[p].size
      && !S.IsSmall(h.tiles[p].size) && TreeIndex.MIN_LARGE_SIZE <= h.tiles[p].size < TWO64 && RecordIn(h, i)
      && Range(p, p + s.size) <= b.mapped && s.size <= b.footprint
  {
    hide Ok, BooksOk, Known, RecordIn, S.IsSmall, Range, CanRelease;
    ReleaseFacts(h, i);
    ReleasableFacts(h, b, i);
    KnownParts(h, h.mem, h.segs[i].base);
    FootprintCovers(h, b, i);
    ReleasableFree(h, i);
  }

  lemma ReturnedBy(b: Books, b2: Books, base: Addr, n: nat)
    requires b2.footprint + n == b.footprint && b2.maxFootprint == b.maxFootprint && b2.least == b.least
    requires b2.mapped == b.mapped - Range(base, base + n)
    requires SameTerms(b, b2)
    ensures Returned(b, b2, base, n)
  {
  }

  lemma ChecksRenewed(h: Heap, b: Books, checks: nat)
    requires BooksOk(h, b) && checks > 0
    ensures BooksOk(h, b.(checks := checks))
  {
  }

  // The offset of the segment record in the state.
  const SEG_OFFSET: nat := 896

  // Where the record of a segment is: that of the first is in the state itself, each other one at the end of its
  // segment.
  function RecordAddress(segs: seq<Segment>, home: Addr, k: nat): Addr
    requires k < |segs|
  {
    if k == 0 then home + SEG_OFFSET else segs[k].record
  }

  // The segment of top cannot shrink: it was not mapped, or holds a segment record.
  ghost predicate CannotShrink(segs: seq<Segment>, home: Addr) {
    |segs| > 0 && (!segs[0].mmapped || exists i :: 0 <= i < |segs| && InSegment(segs[0], RecordAddress(segs, home, i)))
  }

  // segment_holds
  predicate InSegment(s: Segment, a: Addr) {
    s.base <= a < s.base + s.size
  }

  // Has any segment its record in segment 0? Only the state's own, when the state is there.
  lemma PinnedByState(h: Heap)
    requires Ok(h)
    ensures forall i :: 0 < i < |h.segs| ==> !(h.segs[0].base <= h.segs[i].record < h.segs[0].base + h.segs[0].size)
  {
    forall i | 0 < i < |h.segs| ensures !(h.segs[0].base <= h.segs[i].record < h.segs[0].base + h.segs[0].size) {
      assert SegmentOk(h, i) && SegmentOk(h, 0);
    }
  }

  lemma TrimFacts(h: Heap, b: Books, pad: nat)
    requires Ok(h) && BooksOk(h, b) && TOP_FOOT_SIZE <= pad < h.topsize && b.granularity > 0 && Aligned(b.granularity)
    ensures var extra := TrimExtra(h.topsize, pad, b.granularity);
      && Units(extra, b.granularity) && Aligned(extra) && extra + pad < h.topsize <= extra + pad + b.granularity
          && extra <= b.footprint
      && |h.segs| > 0 && h.segs[0].base <= h.top < TopEnd(h) && h.segs[0].base + h.segs[0].size == TopEnd(h)
      && Range(TopEnd(h) - extra, TopEnd(h)) <= b.mapped
  {
    hide Ok, BooksOk, Aligned, Times, Units;
    TopIsLast(h);
    UnitCount(h.topsize - pad, b.granularity);
    UnitsOf((h.topsize - pad + (b.granularity - 1)) / b.granularity - 1, b.granularity);
    UnitsAligned(TrimExtra(h.topsize, pad, b.granularity), b.granularity);
    FootprintCovers(h, b, 0);
    SegmentInArena(h, 0);
    ArenaMapped(h, b);
    TailMapped(h, TrimExtra(h.topsize, pad, b.granularity));
  }

  lemma SegmentKind(h: Heap, b: Books, i: nat)
    requires BooksOk(h, b) && i < |h.segs|
    ensures h.segs[i].mmapped != h.segs[i].extern
  {
    assert h.segs[i] in h.segs;
  }

  lemma ArenaMapped(h: Heap, b: Books)
    requires BooksOk(h, b)
    ensures h.arena <= b.mapped
  {
  }

  lemma TailMapped(h: Heap, extra: nat)
    requires |h.segs| > 0 && h.segs[0].base + h.segs[0].size == TopEnd(h) && h.segs[0].base <= h.top
        && extra <= h.topsize
    ensures Range(TopEnd(h) - extra, TopEnd(h)) <= Range(h.segs[0].base, h.segs[0].base + h.segs[0].size)
  {
  }

  lemma NothingUnmapped(h: Heap, b: Books, a: Addr, mapped: set<Addr>)
    requires BooksOk(h, b) && mapped == b.mapped - Range(a, a)
    ensures BooksOk(h, b.(mapped := mapped))
  {
    assert Range(a, a) == {};
    assert mapped == b.mapped;
  }

  // ---- free as a whole ----

  // What free reads of a block, and the checks it makes.
  lemma BlockFacts(h: Heap, b: Books, p: Addr)
    requires Ok(h) && BooksOk(h, b) && p in h.live
    ensures p >= b.least && IsInuse(h.mem, p) && (p in h.tiles || p in h.direct)
        && (IsMmapped(h.mem, p) <==> p in h.direct)
    ensures Head(h.mem, p).size == (if p in h.tiles then h.tiles[p].size else h.direct[p].size)
    ensures p in h.direct ==> p !in h.tiles
  {
    hide BooksOk, SegmentOk, EndsKnown, Binned, VictimOk;
    if p in h.tiles {
      Neighbours(h, p);
      LeastOf(h, b);
      TilesReachable(h, b.least, p);
    } else {
      assert DirectOk(h.mem, h.arena, p, h.direct[p]);
      LeastOf(h, b);
    }
  }

  lemma LeastOf(h: Heap, b: Books)
    requires BooksOk(h, b)
    ensures LeastOk(h, b.least)
  {
  }

  lemma DirectFacts(h: Heap, b: Books, p: Addr)
    requires Ok(h) && BooksOk(h, b) && p in h.direct
    ensures var r := h.direct[p];
      && Foot(h.mem, p) == p - r.start && r.start <= p && Head(h.mem, p).size == r.size
      && Range(r.start, RegionEnd(p, r)) <= b.mapped && RegionLength(p, r) <= b.footprint
      && p + r.size + MMAP_FOOT_PAD == RegionEnd(p, r)
  {
    hide BooksOk, SegmentOk, EndsKnown, Binned, VictimOk, Tagged, Tiled;
    assert DirectOk(h.mem, h.arena, p, h.direct[p]);
    RegionMapped(h, b, p);
    RegionCounted(h, b, p);
  }

  lemma RegionMapped(h: Heap, b: Books, p: Addr)
    requires BooksOk(h, b) && p in h.direct
    ensures Range(h.direct[p].start, RegionEnd(p, h.direct[p])) <= b.mapped
  {
    forall x | x in Range(h.direct[p].start, RegionEnd(p, h.direct[p])) ensures x in b.mapped {
      assert InRegion(p, h.direct[p], x);
    }
  }

  lemma RegionCounted(h: Heap, b: Books, p: Addr)
    requires BooksOk(h, b) && p in h.direct && Ok(h)
    ensures RegionLength(p, h.direct[p]) <= b.footprint
  {
    OkParts(h);
    DirectsOf(h);
    hide Ok, SpaceOk, CoreOk, UsersOk;
    StartsBelow(h.mem, h.arena, h.direct);
    DirectBytesAt(h.direct, p);
    LengthsSum(h.direct - {p});
  }

  // The accounts after the region of p is given back, or after the system refuses it.
  ghost predicate RegionReturned(h: Heap, p: Addr, b: Books, b2: Books)
    requires p in h.direct
  {
    var r, n := h.direct[p], RegionLength(p, h.direct[p]);
    && b2.maxFootprint == b.maxFootprint && b2.least == b.least && b2.checks == b.checks && b2.home == b.home
    && b2.granularity == b.granularity && b2.page == b.page
    && ((b2.footprint + n == b.footprint && b2.keptBytes == b.keptBytes
        && b2.mapped == b.mapped - Range(r.start, RegionEnd(p, r)))
        || (b2.footprint == b.footprint && b2.keptBytes == b.keptBytes + n && b2.mapped == b.mapped))
  }

  lemma GivenBack(h: Heap, p: Addr, b: Books, b2: Books, taken: bool)
    requires p in h.direct && var r, n := h.direct[p], RegionLength(p, h.direct[p]);
      n > 0 && if taken then
        n <= b.footprint && b2 == b.(footprint := b.footprint - n, mapped := b.mapped - Range(r.start, RegionEnd(p, r)))
      else b2 == b.(keptBytes := b.keptBytes + n)
    ensures RegionReturned(h, p, b, b2)
    ensures RegionGone(h, p, b2.footprint - b.footprint, b2.keptBytes - b.keptBytes, taken)
  {
  }

  lemma UnmappedFields(h: Heap, p: Addr)
    ensures var h2 := UnmappedHeap(h, p); h2 == h.(direct := h2.direct, live := h2.live)
  {
  }

  lemma UnmapDone(h: Heap, p: Addr, b: Books, b2: Books)
    requires p in h.direct && RegionReturned(h, p, b, b2) && Ok(h) && BooksOk(h, b)
    ensures var h2 := UnmappedHeap(h, p); Ok(h2) && BooksOk(h2, b2) && FreedBlock(h, h2, p)
  {
    hide Ok, BooksOk, Undisturbed, RegionReturned, InnerKept;
    var h2 := UnmappedHeap(h, p);
    DirectUnmapOk(h, h2, p);
    OkParts(h);
    DirectsOf(h);
    DirectsOutsideArena(h.mem, h.arena, h.direct);
    RegionsOf(h);
    StartsBelow(h.mem, h.arena, h.direct);
    UnmapBooks(h, h2, p, b, b2);
  }

  lemma RegionsOf(h: Heap)
    requires Ok(h)
    ensures RegionsApart(h.direct)
  {
  }

  lemma UnmapBooks(h: Heap, h2: Heap, p: Addr, b: Books, b2: Books)
    requires p in h.direct && RegionReturned(h, p, b, b2) && BooksOk(h, b) && h2 == UnmappedHeap(h, p)
    requires OutsideDirects(h.direct, h.arena) && RegionsApart(h.direct) && InnerKept(h, h2) && h.direct[p].start <= p
    ensures BooksOk(h2, b2)
  {
    DirectBytesAt(h.direct, p);
    UnmapOwned(h, h2, p, b.mapped, b2.mapped);
  }

  lemma UnmapOwned(h: Heap, h2: Heap, p: Addr, mapped: set<Addr>, mapped2: set<Addr>)
    requires Owns(h, mapped) && p in h.direct && h2 == UnmappedHeap(h, p) && OutsideDirects(h.direct, h.arena)
        && RegionsApart(h.direct)
    requires mapped2 == mapped || mapped2 == mapped - Range(h.direct[p].start, RegionEnd(p, h.direct[p]))
    ensures Owns(h2, mapped2)
  {
    forall x | x in h2.arena ensures x in mapped2 {
      assert InRegion(p, h.direct[p], x) <==> x in Range(h.direct[p].start, RegionEnd(p, h.direct[p]));
    }
    forall q, x | q in h2.direct && InRegion(q, h2.direct[q], x) ensures x in mapped2 {
      assert InRegion(q, h.direct[q], x);
    }
  }

  lemma JoinedSelf(h: Heap, p: Addr, next: Addr)
    requires Joined(h, p, p, next)
    ensures p != h.dv && p !in h.small && p !in h.large
  {
  }

  // ---- realloc ----

  function Min(a: int, b: int): int {
    if a < b then a else b
  }

  // The byte at offset i of a block lies in a word of the block.
  lemma OwnByte(h: Heap, p: Addr, i: nat)
    requires p in h.live && (p in h.tiles || p in h.direct) && Aligned(p) && i < UsableSize(h, p + TWO_WORDS)
    ensures OwnWord(h, p, WordAt(p + TWO_WORDS + i))
  {
    AlignedSum(p, TWO_WORDS);
    WordBelow(p + TWO_WORDS, p + TWO_WORDS + i);
  }

  lemma UndisturbedBytes(h: Heap, h2: Heap, s: set<Addr>, p: Addr)
    requires Undisturbed(h, h2, s) && p in s && p in h.live && (p in h.tiles || p in h.direct) && Aligned(p)
    ensures SameContents(h.mem, p + TWO_WORDS, h2.mem, p + TWO_WORDS, UsableSize(h, p + TWO_WORDS))
    ensures p in h2.live && (p in h2.tiles <==> p in h.tiles) && (p in h2.direct <==> p in h.direct)
    ensures UsableSize(h2, p + TWO_WORDS) == UsableSize(h, p + TWO_WORDS)
  {
    hide Byte, Value, WordAt;
    var mem := p + TWO_WORDS;
    forall i: nat | i < UsableSize(h, mem) ensures Content(h2.mem, mem, i) == Content(h.mem, mem, i) {
      OwnByte(h, p, i);
    }
  }

  // The first n bytes at mem2 are those that were at mem.
  ghost predicate SameContents(m: Memory, mem: Addr, m2: Memory, mem2: Addr, n: int) {
    forall i: nat :: i < n ==> Content(m2, mem2, i) == Content(m, mem, i)
  }

  // The byte at offset i of a block.
  function Content(m: Memory, mem: Addr, i: nat): nat {
    ByteAt(m, mem + i)
  }

  // The outcome of realloc: the old block gives way to the new one, which may be at the same place, no other block is
  // disturbed, and the first bytes are kept, as many as both the old block and the request have.
  ghost predicate Realloced(h: Heap, h2: Heap, oldmem: Addr, mem: Addr, bytes: nat) {
    && oldmem >= TWO_WORDS && mem >= TWO_WORDS && Aligned(mem)
    && var p, q := oldmem - TWO_WORDS, mem - TWO_WORDS;
    && p in h.live && (p in h.tiles || p in h.direct) && (q in h2.tiles || q in h2.direct)
    && h2.live == h.live - {p} + {q} && (q == p || q !in h.live) && Undisturbed(h, h2, h.live - {p})
    && SameContents(h.mem, oldmem, h2.mem, mem, Min(UsableSize(h, oldmem), bytes))
    && (UsableSize(h2, mem) >= bytes || KeptMapped(h, h2, p, q, bytes))
  }

  // The one case in which a block may come back with less than was asked for, by the space's own count: a mapped block
  // kept in place although its chunk exceeds the padded request by less than the overhead of a mapped chunk.
  ghost predicate KeptMapped(h: Heap, h2: Heap, p: Addr, q: Addr, bytes: nat) {
    h2 == h && q == p && p in h.direct && RequestToSize(bytes) + 8 <= h.direct[p].size < bytes + MMAP_CHUNK_OVERHEAD
  }

  lemma StoreDone(h: Heap, m: Memory, p: Addr, w: set<Addr>, b: Books)
    requires Stored(h, h.(mem := m), p, w) && Ok(h) && BooksOk(h, b)
    ensures var h2 := h.(mem := m); Ok(h2) && BooksOk(h2, b) && Undisturbed(h, h2, h.live - {p})
  {
    hide Ok, BooksOk, Undisturbed, InnerKept, Stored;
    StoreOk(h, h.(mem := m), p, w);
    BooksKept(h, h.(mem := m), b);
  }

  lemma HalveDone(h: Heap, m: Memory, p: Addr, nb: nat, b: Books)
    requires CanHalve(h, p, nb) && HalveWrites(h.mem, m, p, nb, h.tiles[p].size) && Ok(h) && BooksOk(h, b)
    ensures var h2 := HalvedHeap(h, m, p, nb);
      && Ok(h2) && BooksOk(h2, b) && h2.live == h.live + {p + nb} && Undisturbed(h, h2, h.live - {p})
          && p + nb !in h.live
      && SameWords(h.mem, m, p + TWO_WORDS, p + nb + 8)
      && p in h2.tiles && h2.tiles[p].size == nb && p + nb in h2.tiles && h2.tiles[p + nb].size == h.tiles[p].size - nb
  {
    hide Ok, BooksOk, Undisturbed, InnerKept, HalveWrites, SameWords;
    var h2 := HalvedHeap(h, m, p, nb);
    HalveOk(h, h2, p, nb);
    BooksKept(h, h2, b);
  }

  lemma ExpandDone(h: Heap, m: Memory, p: Addr, nb: nat, b: Books)
    requires CanExpand(h, p, nb) && ExpandWrites(h.mem, m, p, nb, h.tiles[p].size + h.tiles[h.top].size) && Ok(h)
        && BooksOk(h, b)
    ensures var h2 := ExpandedHeap(h, m, p, nb);
      && Ok(h2) && BooksOk(h2, b) && h2.live == h.live && Undisturbed(h, h2, h.live - {p})
      && SameWords(h.mem, m, p + TWO_WORDS, Next(h.tiles, p) + 8) && p in h2.tiles && h2.tiles[p].size == nb
  {
    hide Ok, BooksOk, Undisturbed, InnerKept, ExpandWrites, SameWords;
    var h2 := ExpandedHeap(h, m, p, nb);
    ExpandOk(h, h2, p, nb);
    BooksKept(h, h2, b);
  }

  lemma ExpandFields(h: Heap, m: Memory, p: Addr, nb: nat)
    requires CanExpand(h, p, nb)
    ensures var h2 := ExpandedHeap(h, m, p, nb);
      && h2 == h.(mem := m, tiles := h2.tiles, top := p + nb, topsize := h.tiles[p].size + h.tiles[h.top].size - nb)
  {
  }

  lemma WordsContents(m: Memory, m2: Memory, mem: Addr, n: nat, hi: Addr)
    requires SameWords(m, m2, mem, hi) && Aligned(mem) && mem + n <= hi
    ensures SameContents(m, mem, m2, mem, n)
  {
    SameBytes(m, m2, mem, hi);
    hide Byte, Value, WordAt;
    forall i: nat | i < n ensures Content(m2, mem, i) == Content(m, mem, i) {
      assert mem <= mem + i < hi;
    }
  }

  // A block cut down in place, and the rest freed.
  lemma ShrinkOutcome(h: Heap, h2: Heap, h3: Heap, p: Addr, nb: nat, bytes: nat)
    requires Ok(h) && Ok(h2) && CanHalve(h, p, nb) && h2 == HalvedHeap(h, h2.mem, p, nb)
        && Undisturbed(h, h2, h.live - {p})
    requires p + nb !in h.live && SameWords(h.mem, h2.mem, p + TWO_WORDS, p + nb + 8)
    requires FreedBlock(h2, h3, p + nb) && nb == RequestToSize(bytes)
    ensures Realloced(h, h3, p + TWO_WORDS, p + TWO_WORDS, bytes)
  {
    hide Ok, Undisturbed, SameWords, SameContents, CanHalve;
    LivePlaced(h);
    LivePlaced(h2);
    HalfFacts(h, h2, p, nb);
    AlignedBlock(h, p);
    UndisturbedThen(h, h2, h3, h.live - {p}, h2.live - {p + nb});
    RequestSize(bytes);
    UndisturbedBytes(h2, h3, h2.live - {p + nb}, p);
    WordsContents(h.mem, h2.mem, p + TWO_WORDS, nb - 8, p + nb + 8);
    ContentsThen(h.mem, h2.mem, h3.mem, p + TWO_WORDS, p + TWO_WORDS, p + TWO_WORDS,
        Min(UsableSize(h, p + TWO_WORDS), bytes), nb - 8);
    AlignedSum(p, TWO_WORDS);
  }

  lemma HalfFacts(h: Heap, h2: Heap, p: Addr, nb: nat)
    requires CanHalve(h, p, nb) && h2 == HalvedHeap(h, h2.mem, p, nb)
    ensures p in h.live && p in h.tiles && p in h2.live && p in h2.tiles && h2.tiles[p].size == nb
        && h2.live == h.live + {p + nb}
    ensures nb >= MIN_CHUNK_SIZE && p + nb != p
  {
  }

  lemma ContentsThen(m: Memory, m2: Memory, m3: Memory, a: Addr, b: Addr, c: Addr, n: int, n2: int)
    requires SameContents(m, a, m2, b, n2) && n <= n2
    requires SameContents(m2, b, m3, c, n2)
    ensures SameContents(m, a, m3, c, n)
  {
    hide Content;
    forall i: nat | i < n ensures Content(m3, c, i) == Content(m, a, i) {
      assert Content(m2, b, i) == Content(m, a, i);
    }
  }

  lemma AlignedBlock(h: Heap, p: Addr)
    requires Ok(h) && p in h.live
    ensures Aligned(p) && p > 0 && (p in h.tiles || p in h.direct)
  {
    hide Tagged, Binned, SegmentOk, EndsKnown;
    if p in h.tiles {
      ChunkFacts(h, p);
    } else {
      assert DirectOk(h.mem, h.arena, p, h.direct[p]);
    }
  }

  lemma KeepOutcome(h: Heap, p: Addr, bytes: nat)
    requires Ok(h) && p in h.live
    requires UsableSize(h, p + TWO_WORDS) >= bytes || KeptMapped(h, h, p, p, bytes)
    ensures Realloced(h, h, p + TWO_WORDS, p + TWO_WORDS, bytes)
  {
    hide Ok;
    AlignedBlock(h, p);
    AlignedSum(p, TWO_WORDS);
  }

  lemma ExpandOutcome(h: Heap, h2: Heap, p: Addr, nb: nat, bytes: nat)
    requires Ok(h) && CanExpand(h, p, nb) && h2.live == h.live && Undisturbed(h, h2, h.live - {p})
    requires SameWords(h.mem, h2.mem, p + TWO_WORDS, Next(h.tiles, p) + 8) && p in h2.tiles && h2.tiles[p].size == nb
    requires nb == RequestToSize(bytes) && h.tiles[p].size >= TWO_WORDS
    ensures Realloced(h, h2, p + TWO_WORDS, p + TWO_WORDS, bytes)
  {
    hide Ok, Undisturbed, SameWords, SameContents;
    AlignedBlock(h, p);
    AlignedSum(p, TWO_WORDS);
    RequestSize(bytes);
    var size := h.tiles[p].size;
    WordsContents(h.mem, h2.mem, p + TWO_WORDS, size - 8, p + size + 8);
    FewerContents(h.mem, p + TWO_WORDS, h2.mem, p + TWO_WORDS, size - 8, Min(UsableSize(h, p + TWO_WORDS), bytes));
  }

  lemma FewerContents(m: Memory, a: Addr, m2: Memory, b: Addr, n: int, n2: int)
    requires SameContents(m, a, m2, b, n) && n2 <= n
    ensures SameContents(m, a, m2, b, n2)
  {
  }

  // A block moved: a new one is made, filled and the old one freed.
  lemma MoveOutcome(h: Heap, h1: Heap, h2: Heap, h3: Heap, p: Addr, newmem: Addr, bytes: nat)
    requires newmem >= TWO_WORDS && (p in h.tiles || p in h.direct) && p in h.live && h2 == h1.(mem := h2.mem)
    requires SameContents(h1.mem, p + TWO_WORDS, h2.mem, newmem, Min(UsableSize(h, p + TWO_WORDS), bytes))
    requires Undisturbed(h, h1, h.live) && Given(h, h1, newmem, bytes)
        && Undisturbed(h1, h2, h1.live - {newmem - TWO_WORDS})
    requires FreedBlock(h2, h3, p) && Ok(h) && Ok(h1)
    ensures Realloced(h, h3, p + TWO_WORDS, newmem, bytes) && newmem != p + TWO_WORDS && Enough(h3, newmem, bytes)
  {
    hide Ok, Undisturbed, SameContents, Content;
    var q, n := newmem - TWO_WORDS, Min(UsableSize(h, p + TWO_WORDS), bytes);
    LivePlaced(h);
    LivePlaced(h1);
    AlignedBlock(h, p);
    AlignedBlock(h1, q);
    UndisturbedThen(h, h1, h2, h.live, h1.live - {q});
    UndisturbedThen(h, h2, h3, h.live - {p}, h2.live - {p});
    UndisturbedBytes(h, h1, h.live, p);
    UndisturbedBytes(h2, h3, h2.live - {p}, q);
    ContentsStep(h.mem, p + TWO_WORDS, h1.mem, p + TWO_WORDS, UsableSize(h, p + TWO_WORDS), h2.mem, newmem, n);
    ContentsStep(h.mem, p + TWO_WORDS, h2.mem, newmem, n, h3.mem, newmem, n);
  }

  lemma ContentsStep(m: Memory, a: Addr, m2: Memory, b: Addr, n: int, m3: Memory, c: Addr, n2: int)
    requires SameContents(m, a, m2, b, n) && n2 <= n
    requires SameContents(m2, b, m3, c, n2) || exists k: int :: n2 <= k && SameContents(m2, b, m3, c, k)
    ensures SameContents(m, a, m3, c, n2)
  {
    hide Content;
    forall i: nat | i < n2 ensures Content(m3, c, i) == Content(m, a, i) {
      assert Content(m2, b, i) == Content(m, a, i);
    }
  }

  // What realloc reads of the block.
  lemma ReallocFacts(h: Heap, b: Books, p: Addr)
    requires Ok(h) && BooksOk(h, b) && p in h.live
    ensures p >= b.least && IsInuse(h.mem, p) && (p in h.tiles || p in h.direct)
        && (IsMmapped(h.mem, p) <==> p in h.direct)
    ensures p in h.direct ==> p !in h.tiles
    ensures var size := if p in h.tiles then h.tiles[p].size else h.direct[p].size;
      Head(h.mem, p).size == size && size >= MIN_CHUNK_SIZE && Head(h.mem, p + size).pinuse
    ensures p in h.tiles ==>
        Next(h.tiles, p) in h.tiles && (Next(h.tiles, p) == h.top ==> h.tiles[h.top].size == h.topsize)
    ensures p in h.tiles ==> p != h.top && h.tiles[p].used
    ensures Aligned(p) && h.top in h.tiles
  {
    hide BooksOk, SegmentOk, EndsKnown, Binned, VictimOk;
    BlockFacts(h, b, p);
    AlignedBlock(h, p);
    TopFacts(h);
    if p in h.tiles {
      Neighbours(h, p);
      ChunkFacts(h, p);
    } else {
      assert DirectOk(h.mem, h.arena, p, h.direct[p]);
    }
  }

  // The words copied to belong to the new block, and those copied from do not.
  lemma CopyFacts(h: Heap, p: Addr, q: Addr, n: nat)
    requires Ok(h) && p in h.live && q in h.live && p != q
    requires (p in h.tiles || p in h.direct) && (q in h.tiles || q in h.direct)
    requires n <= UsableSize(h, p + TWO_WORDS) && n <= UsableSize(h, q + TWO_WORDS)
    ensures Aligned(p + TWO_WORDS) && Aligned(q + TWO_WORDS)
    ensures forall a :: a in Range(q + TWO_WORDS, q + TWO_WORDS + n) ==> OwnWord(h, q, a)
    ensures SourceApart(p + TWO_WORDS, q + TWO_WORDS, n)
  {
    hide Ok;
    AlignedBlock(h, p);
    AlignedBlock(h, q);
    AlignedSum(p, TWO_WORDS);
    AlignedSum(q, TWO_WORDS);
    OkParts(h);
    DirectsOf(h);
    ArenaOf(h);
    CoreParts(h, {});
    hide CoreOk, SpaceOk, Tiled, Tagged, DirectsOk, InArena, UsersOk;
    var src, dst := p + TWO_WORDS, q + TWO_WORDS;
    forall i: nat | i < n ensures SourceWord(src, i) !in Range(dst, dst + n) {
      OwnByte(h, p, i);
      OwnedOnce(h, p, q, SourceWord(src, i));
    }
  }

  // The bytes from src on lie in no word of the range that starts at dst.
  ghost predicate SourceApart(src: Addr, dst: Addr, n: nat) {
    forall i: nat :: i < n ==> SourceWord(src, i) !in Range(dst, dst + n)
  }

  // The word that the i-th byte from src on is in.
  function SourceWord(src: Addr, i: nat): Addr {
    WordAt(src + i)
  }

  lemma CopyStep(m0: Memory, before: Memory, m: Memory, dst: Addr, src: Addr, n: nat, i: nat, b: nat)
    requires Aligned(dst) && i < n && SameExcept(m0, before, Range(dst, dst + n))
        && SameContents(m0, src, before, dst, i)
    requires SourceWord(src, i) !in Range(dst, dst + n) && b == ByteAt(before, src + i) < 256
        && m == SetByte(before, dst + i, b)
    ensures SameExcept(m0, m, Range(dst, dst + n)) && SameContents(m0, src, m, dst, i + 1)
  {
    hide Byte, Value, PutByte, WordOf;
    WordBelow(dst, dst + i);
    assert WordAt(dst + i) in Range(dst, dst + n);
    assert At(before, WordAt(src + i)) == At(m0, WordAt(src + i));
    forall j: nat | j < i + 1 ensures Content(m, dst, j) == Content(m0, src, j) {
      ByteSet(before, dst + i, b, dst + j);
      assert j < i ==> Content(before, dst, j) == Content(m0, src, j);
    }
  }

  lemma MovedFacts(h: Heap, h1: Heap, p: Addr, newmem: Addr, bytes: nat)
    requires Ok(h) && p in h.live && Undisturbed(h, h1, h.live) && Given(h, h1, newmem, bytes)
    ensures var q := newmem - TWO_WORDS;
      && newmem >= TWO_WORDS && q in h1.live && p in h1.live && p != q && (q in h1.tiles || q in h1.direct)
          && (p in h1.tiles || p in h1.direct)
      && UsableSize(h1, newmem) >= bytes && (p in h.tiles || p in h.direct)
          && UsableSize(h1, p + TWO_WORDS) == UsableSize(h, p + TWO_WORDS)
  {
    LivePlaced(h);
    hide Ok;
  }

  lemma MappedKept(h: Heap, p: Addr, bytes: nat)
    requires p in h.direct && p !in h.tiles && RequestToSize(bytes) + 8 <= h.direct[p].size
    ensures UsableSize(h, p + TWO_WORDS) >= bytes || KeptMapped(h, h, p, p, bytes)
  {
  }

  // The chunk is large enough, or becomes so with the top chunk after it.
  ghost predicate InPlace(h: Heap, p: Addr, nb: nat) {
    p in h.tiles && (nb <= h.tiles[p].size || (Next(h.tiles, p) == h.top && h.tiles[p].size + h.topsize > nb))
  }

  // A block that stays has exactly what was asked for, unless it had less than a chunk to spare.
  function ResizedTo(size: nat, nb: nat): nat {
    if nb <= size < nb + MIN_CHUNK_SIZE then size else nb
  }

  // A mapped chunk that mmap_resize keeps for a request of nb bytes, and one that it keeps although it is a word short
  // of the request with the overhead of a mapped chunk.
  predicate StaysMapped(h: Heap, p: Addr, nb: nat, granularity: nat) {
    p in h.direct && !S.IsSmall(nb) && nb + 8 <= h.direct[p].size <= nb + 2 * granularity
  }

  // The block is resized where it is.
  ghost predicate Stays(h: Heap, p: Addr, nb: nat, granularity: nat) {
    if p in h.tiles then InPlace(h, p, nb) else StaysMapped(h, p, nb, granularity)
  }

  predicate KeptShort(h: Heap, p: Addr, nb: nat) {
    p in h.direct && !S.IsSmall(nb) && h.direct[p].size == nb + 8
  }

  // A chunk that is kept has less than asked for if and only if it has no more than the word beyond the padded request
  // that the test demands.
  lemma KeptShortExactly(h: Heap, p: Addr, bytes: nat, granularity: nat)
    requires Ok(h) && p in h.direct && p !in h.tiles && StaysMapped(h, p, RequestToSize(bytes), granularity)
    ensures Enough(h, p + TWO_WORDS, bytes) <==> !KeptShort(h, p, RequestToSize(bytes))
  {
    hide Ok;
    DirectSize(h, p);
    WordShort(h.direct[p].size, bytes);
    hide RequestToSize;
  }

  lemma DirectSize(h: Heap, p: Addr)
    requires Ok(h) && p in h.direct
    ensures Aligned(h.direct[p].size)
  {
    hide SegmentOk, EndsKnown, Binned, VictimOk, Tagged, Tiled;
    assert DirectOk(h.mem, h.arena, p, h.direct[p]);
  }

  lemma WordShort(size: nat, bytes: nat)
    requires Aligned(size) && size >= RequestToSize(bytes) + 8 && !S.IsSmall(RequestToSize(bytes))
    ensures size - MMAP_CHUNK_OVERHEAD >= bytes <==> size != RequestToSize(bytes) + 8
  {
  }

  // The region of a mapped block is given up: it leaves the footprint if the system takes it, and is kept otherwise.
  ghost predicate RegionGone(h: Heap, p: Addr, footprint: int, kept: int, taken: bool) {
    p in h.direct && var n := RegionLength(p, h.direct[p]);
    n > 0 && footprint == (if taken then -n else 0) && kept == (if taken then 0 else n)
  }

  // The block at p, of oc usable bytes, is to be copied to a new one.
  ghost predicate CanCopy(h0: Heap, h: Heap, p: Addr, oc: nat, mem: Addr, bytes: nat) {
    && p in h0.live && (p in h0.tiles || p in h0.direct) && oc == UsableSize(h0, p + TWO_WORDS)
    && Undisturbed(h0, h, h0.live) && Given(h0, h, mem, bytes)
  }

  ghost predicate Copied(h: Heap, h2: Heap, p: Addr, oc: nat, mem: Addr, bytes: nat) {
    && mem >= TWO_WORDS && h2 == h.(mem := h2.mem) && Undisturbed(h, h2, h.live - {mem - TWO_WORDS})
    && SameContents(h.mem, p + TWO_WORDS, h2.mem, mem, Min(oc, bytes))
  }

  // The bytes that the system keeps when the block at p gives way to one elsewhere: its region, or none.
  predicate KeptFor(h: Heap, p: Addr, mem: Addr, n: int) {
    n == 0 || (n > 0 && mem != 0 && mem != p + TWO_WORDS && p in h.direct && n == RegionLength(p, h.direct[p]))
  }

  // When malloc gives null: never when a free chunk fits, and otherwise only when the request is too large, or when the
  // system refuses, unless the padding of the request wraps.
  ghost predicate AsMalloc(h: Heap, bytes: nat, granularity: nat, mem: Addr, refused: bool) {
    && (bytes >= MAX_REQUEST ==> mem == 0)
    && (bytes < MAX_REQUEST && HasRoom(h, RequestToSize(bytes)) ==> mem != 0)
    && (mem == 0 && bytes < MAX_REQUEST && RequestToSize(bytes) + SYS_ALLOC_PADDING + granularity <= TWO64 ==> refused)
  }

  // What memalign asks malloc for, to find an aligned block of so many bytes in it.
  function PaddedRequest(bytes: nat, k: nat): nat {
    RequestToSize(bytes) + TreeIndex.Pow2(k) + MIN_CHUNK_SIZE - CHUNK_OVERHEAD
  }

  // The region of a mapped block stays while other blocks are handed out and written.
  lemma SameRegion(h: Heap, h1: Heap, h2: Heap, p: Addr, q: Addr)
    requires Undisturbed(h, h1, h.live) && Undisturbed(h1, h2, h1.live - {q}) && p != q
    requires p in h.live && p in h1.live && (p in h.tiles || p in h.direct) && (p in h1.tiles || p in h1.direct)
    ensures p in h2.live && (p in h2.direct <==> p in h.direct) && (p in h.direct ==> h2.direct[p] == h.direct[p])
  {
  }

  lemma ChunkNotDirect(h: Heap, p: Addr)
    requires Ok(h) && p in h.tiles
    ensures p !in h.direct
  {
    if p in h.direct {
      DirectNotTile(h, p);
    }
  }

  // A block made of one that malloc gave.
  lemma AsMallocThen(h: Heap, bytes: nat, granularity: nat, mem: Addr, before: bool, mem2: Addr, refused: bool)
    requires AsMalloc(h, bytes, granularity, mem, before) && mem != 0 && mem2 != 0
    ensures AsMalloc(h, bytes, granularity, mem2, refused)
  {
  }

  lemma Served(h: Heap, bytes: nat, granularity: nat, mem: Addr, refused: bool)
    requires bytes < MAX_REQUEST && mem != 0
    ensures AsMalloc(h, bytes, granularity, mem, refused)
  {
  }

  lemma TooLarge(h: Heap, bytes: nat, granularity: nat, refused: bool)
    requires bytes >= MAX_REQUEST
    ensures AsMalloc(h, bytes, granularity, 0, refused)
  {
  }

  lemma GivenEnough(h: Heap, h2: Heap, mem: Addr, bytes: nat)
    requires Given(h, h2, mem, bytes)
    ensures Enough(h2, mem, bytes)
  {
  }

  lemma ChunkEnough(h: Heap, h2: Heap, oldmem: Addr, mem: Addr, bytes: nat)
    requires Realloced(h, h2, oldmem, mem, bytes) && oldmem - TWO_WORDS !in h.direct
    ensures Enough(h2, mem, bytes)
  {
  }

  lemma NotShort(h: Heap, p: Addr, nb: nat, granularity: nat)
    requires granularity >= 4 && !StaysMapped(h, p, nb, granularity)
    ensures !KeptShort(h, p, nb)
  {
  }

  lemma StillThere(h: Heap, h2: Heap, p: Addr, q: Addr)
    requires Ok(h) && FreedBlock(h, h2, q) && p in h.live && p != q && p in h.tiles
    ensures p in h2.tiles && h2.tiles[p].size == h.tiles[p].size
  {
    hide Ok;
    LivePlaced(h);
  }

  // ---- memalign ----

  lemma ShiftDone(h: Heap, m: Memory, p: Addr, lead: nat, b: Books)
    requires p in h.direct && Aligned(lead) && 0 < lead && lead + MIN_CHUNK_SIZE <= h.direct[p].size
    requires !S.IsSmall(h.direct[p].size - lead)
    requires m == SetHead(SetFoot(h.mem, p + lead, Foot(h.mem, p) + lead), p + lead,
        Word(h.direct[p].size - lead, false, false))
    requires Ok(h) && BooksOk(h, b)
    ensures var h2, q := ShiftedHeap(h, m, p, lead), p + lead;
      && Ok(h2) && BooksOk(h2, b) && Undisturbed(h, h2, h.live - {p}) && q !in h.live && q !in h2.tiles
  {
    hide Ok, BooksOk, Undisturbed, InnerKept;
    var h2 := ShiftedHeap(h, m, p, lead);
    assert DirectShifted(h, h2, p, lead);
    DirectShiftOk(h, h2, p, lead);
    NotLive(h, p + lead);
    ShiftBooks(h, h2, p, lead, b);
    DirectNotTile(h2, p + lead);
  }

  lemma DirectNotTile(h: Heap, p: Addr)
    requires Ok(h) && p in h.direct
    ensures p !in h.tiles && p in h.live
  {
  }

  lemma ShiftBooks(h: Heap, h2: Heap, p: Addr, lead: nat, b: Books)
    requires BooksOk(h, b) && InnerKept(h, h2) && p in h.direct && lead <= h.direct[p].size && p + lead !in h.direct
    requires h2 == ShiftedHeap(h, h2.mem, p, lead) && !S.IsSmall(h.direct[p].size - lead)
    ensures BooksOk(h2, b)
  {
    var q, r := p + lead, Region(h.direct[p].start, h.direct[p].size - lead);
    DirectBytesAt(h.direct, p);
    DirectAdded(h.direct - {p}, q, r);
    assert RegionLength(q, r) == RegionLength(p, h.direct[p]);
    assert RegionWhole(p, h.direct[p], b.page) && RegionWhole(q, r, b.page);
    ShiftOwned(h, h2, p, lead, b.mapped);
  }

  lemma ShiftOwned(h: Heap, h2: Heap, p: Addr, lead: nat, mapped: set<Addr>)
    requires Owns(h, mapped) && p in h.direct && lead <= h.direct[p].size && h2 == ShiftedHeap(h, h2.mem, p, lead)
    ensures Owns(h2, mapped)
  {
    forall q, x | q in h2.direct && InRegion(q, h2.direct[q], x) ensures x in mapped {
      assert q == p + lead ==> InRegion(p, h.direct[p], x);
      assert q != p + lead ==> InRegion(q, h.direct[q], x);
    }
  }

  // An aligned block in the making: the block q is new, and so are the extra ones, which are to be freed again; no
  // block that was there before is disturbed.
  ghost predicate Placing(h0: Heap, h: Heap, q: Addr, extra: set<Addr>) {
    && Undisturbed(h0, h, h0.live) && q in h.live && (q in h.tiles || q in h.direct) && q !in h0.live
    && q !in extra && extra !! h0.live && h.live == h0.live + {q} + extra && forall e :: e in extra ==> e in h.tiles
  }

  // The block has so many bytes, or two words more if it is mapped, and ends within the address space.
  ghost predicate Roomy(h: Heap, p: Addr, n: nat) {
    && SizeAt(h, p) >= n && p + SizeAt(h, p) <= TWO64
    && (p in h.direct ==> SizeAt(h, p) >= n + TWO_WORDS && p !in h.tiles && AtStart(p, h.direct[p]))
  }

  // The block at mem, unless mem is null.
  function Extra(mem: Addr): set<Addr> {
    if mem >= TWO_WORDS then {mem - TWO_WORDS} else {}
  }

  lemma PlacingFirst(h0: Heap, h: Heap, mem: Addr, req: nat)
    requires Undisturbed(h0, h, h0.live) && Given(h0, h, mem, req) && Ok(h)
    ensures mem >= TWO_WORDS && Placing(h0, h, mem - TWO_WORDS, {}) && Aligned(mem)
    ensures Roomy(h, mem - TWO_WORDS, req + CHUNK_OVERHEAD)
  {
    BlockBelow(h, mem - TWO_WORDS);
  }

  lemma BlockBelow(h: Heap, p: Addr)
    requires Ok(h) && p in h.live && (p in h.tiles || p in h.direct)
    ensures p + SizeAt(h, p) <= TWO64 && (p in h.direct ==> p !in h.tiles)
  {
    if p in h.tiles {
      ChunkBelow(h, p);
    } else {
      assert DirectOk(h.mem, h.arena, p, h.direct[p]);
      LastOfRegion(h.mem, h.arena, p, h.direct[p]);
    }
  }

  lemma LastOfRegion(m: Memory, arena: set<Addr>, p: Addr, r: Region)
    requires DirectOk(m, arena, p, r)
    ensures RegionEnd(p, r) <= TWO64
  {
    var x := RegionEnd(p, r) - 1;
    assert r.start <= x < RegionEnd(p, r) && x !in arena;
  }

  // A step: p makes way for q and more.
  lemma PlacingThen(h0: Heap, h: Heap, h2: Heap, p: Addr, q: Addr, extra: set<Addr>, more: set<Addr>)
    requires Ok(h0) && Placing(h0, h, p, extra) && Undisturbed(h, h2, h.live - {p})
    requires h2.live == h.live - {p} + {q} + more && q !in more && {q} + more !! h.live - {p}
    requires (q in h2.tiles || q in h2.direct) && forall e :: e in more ==> e in h2.tiles
    ensures Placing(h0, h2, q, extra + more)
  {
    hide Ok;
    LivePlaced(h0);
    UndisturbedMore(h0, h, h2, p);
  }

  // Wherever memalign moves a mapped block to, what stays of its chunk is not small: the region is whole pages, and
  // either the alignment is, or it is no more than half a page.
  lemma ShiftedLarge(h: Heap, b: Books, p: Addr, k: nat, pos: Addr)
    requires Ok(h) && BooksOk(h, b) && p in h.direct && AtStart(p, h.direct[p]) && p !in h.tiles
    requires Alignment.IsPow2(b.page) && b.page >= 4096 && TreeIndex.Pow2(k) > 0
    requires (pos + TWO_WORDS) % TreeIndex.Pow2(k) == 0 && pos <= p + TreeIndex.Pow2(k) + 24
    requires p < pos && pos + MIN_CHUNK_SIZE <= p + SizeAt(h, p)
    ensures !S.IsSmall(p + SizeAt(h, p) - pos)
  {
    hide Ok;
    var r := h.direct[p];
    RegionWholeAt(h, b, p);
    hide BooksOk;
    var j: nat :| b.page == TreeIndex.Pow2(j);
    if j <= k {
      PageEnd(p, r, b.page);
      Alignment.MultipleOfLess(k, j, pos + TWO_WORDS);
      Alignment.ModDistance(RegionEnd(p, r), pos + TWO_WORDS, b.page);
    } else {
      Alignment.HalfPow2(k, j);
      WholeUnit(RegionEnd(p, r) - r.start, b.page);
    }
  }

  lemma RegionWholeAt(h: Heap, b: Books, p: Addr)
    requires BooksOk(h, b) && p in h.direct
    ensures RegionWhole(p, h.direct[p], b.page)
  {
  }

  lemma PageEnd(p: Addr, r: Region, page: nat)
    requires RegionWhole(p, r, page) && page > 0
    ensures RegionEnd(p, r) % page == 0
  {
    var m: nat :| r.start == Times(m, page);
    var n: nat :| RegionEnd(p, r) - r.start == Times(n, page);
    assert m * page + n * page == (m + n) * page;
    Alignment.DivMod(RegionEnd(p, r), page);
    Alignment.ModUnique(RegionEnd(p, r), page, m + n, 0);
  }

  // What the program asserts of a mapped chunk holds of every one in every state.
  lemma MappedChecked(h: Heap, b: Books, p: Addr)
    requires Ok(h) && BooksOk(h, b) && p in h.direct
    ensures var size := Head(h.mem, p).size;
      && IsMmapped(h.mem, p) && Aligned(p + TWO_WORDS) && p >= b.least && !S.IsSmall(size)
      && Units(size + Foot(h.mem, p) + MMAP_FOOT_PAD, b.page)
      && Head(h.mem, p + size) == FENCEPOST && Head(h.mem, p + size + 8) == Word(0, false, false)
  {
    hide Ok, S.IsSmall;
    RegionWholeAt(h, b, p);
    hide BooksOk;
    DirectNotTile(h, p);
    BlockFacts(h, b, p);
    DirectWords(h, p);
    AlignedSum(p, TWO_WORDS);
  }

  lemma DirectWords(h: Heap, p: Addr)
    requires Ok(h) && p in h.direct
    ensures var r := h.direct[p];
      && Aligned(p) && r.start <= p && Foot(h.mem, p) == p - r.start && Head(h.mem, p).size == r.size
      && Head(h.mem, p + r.size) == FENCEPOST && Head(h.mem, p + r.size + 8) == Word(0, false, false)
  {
    hide SegmentOk, EndsKnown, Binned, VictimOk, Tagged, Tiled;
    assert DirectOk(h.mem, h.arena, p, h.direct[p]);
  }

  // An extra block is freed.
  lemma PlacingFreed(h0: Heap, h: Heap, h2: Heap, q: Addr, extra: set<Addr>, e: Addr)
    requires Ok(h0) && Placing(h0, h, q, extra) && e in extra && FreedBlock(h, h2, e)
    ensures Placing(h0, h2, q, extra - {e}) && SizeAt(h2, q) == SizeAt(h, q) && (q in h2.tiles <==> q in h.tiles)
  {
    hide Ok;
    LivePlaced(h0);
    UndisturbedMore(h0, h, h2, e);
    assert BlockSize(h2, q) == BlockSize(h, q);
  }

  lemma UndisturbedMore(h0: Heap, h: Heap, h2: Heap, p: Addr)
    requires Undisturbed(h0, h, h0.live) && Undisturbed(h, h2, h.live - {p}) && p !in h0.live
    requires forall q :: q in h0.live ==> q in h0.tiles || q in h0.direct
    requires forall q :: q in h0.live ==> q in h.live
    ensures Undisturbed(h0, h2, h0.live)
  {
    UndisturbedThen(h0, h, h2, h0.live, h.live - {p});
  }

  function SizeAt(h: Heap, p: Addr): nat {
    if p in h.tiles then h.tiles[p].size else if p in h.direct then h.direct[p].size else 0
  }

  lemma ExtraChunk(h0: Heap, h: Heap, q: Addr, extra: set<Addr>, e: Addr)
    requires Ok(h) && Placing(h0, h, q, extra) && e in extra
    ensures e !in h.direct
  {
    ChunkNotDirect(h, e);
  }

  lemma PlacingPlace(h0: Heap, h: Heap, q: Addr, extra: set<Addr>)
    requires Placing(h0, h, q, extra)
    ensures q in h.live && (q in h.tiles || q in h.direct) && q !in h0.live
    ensures h.live == h0.live + {q} + extra
  {
  }

  // The outcome of memalign: a new block at a multiple of the rounded alignment, large enough, and with no more than a
  // chunk to spare unless it is mapped.
  ghost predicate AlignedGiven(h: Heap, h2: Heap, mem: Addr, alignment: nat, bytes: nat) {
    && mem >= TWO_WORDS && (exists k: nat :: Alignment.Rounded(alignment, k) && mem % TreeIndex.Pow2(k) == 0)
    && var p := mem - TWO_WORDS;
    && p !in h.live && h2.live == h.live + {p} && (p in h2.tiles || p in h2.direct) && UsableSize(h2, mem) >= bytes
    && (p in h2.tiles ==> h2.tiles[p].size <= RequestToSize(bytes) + MIN_CHUNK_SIZE)
  }

  lemma AlignedOutcome(h: Heap, h2: Heap, p: Addr, alignment: nat, k: nat, bytes: nat)
    requires Placing(h, h2, p, {}) && Ok(h2) && Alignment.Rounded(alignment, k)
        && (p + TWO_WORDS) % TreeIndex.Pow2(k) == 0
    requires p in h2.tiles ==> RequestToSize(bytes) <= SizeAt(h2, p) <= RequestToSize(bytes) + MIN_CHUNK_SIZE
    requires p !in h2.tiles ==> SizeAt(h2, p) >= RequestToSize(bytes) + MMAP_CHUNK_OVERHEAD
    ensures AlignedGiven(h, h2, p + TWO_WORDS, alignment, bytes) && Undisturbed(h, h2, h.live)
  {
    hide Undisturbed, Alignment.Rounded;
    BlockBelow(h2, p);
    hide Ok;
    RequestSize(bytes);
  }

  lemma NoExtra()
    ensures Extra(0) == {}
  {
  }

  lemma SameUndisturbed(h: Heap)
    ensures Undisturbed(h, h, h.live)
  {
  }
}
