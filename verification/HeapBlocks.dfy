// What malloc, free, realloc and memalign do to the chunks of a segment, and
// that each change keeps the invariant of the space and disturbs no other
// block.
module HeapBlocks {
  import opened Tiling
  import opened HeapState
  import SmallBins

  // ---- Allocation inside a segment ----

  ghost function TakenHeap(h: Heap, m: Memory, p: Addr): Heap
    requires p in h.tiles
  {
    h.(mem := m, tiles := Taken(h.tiles, p),
       dv := if p == h.dv then 0 else h.dv, dvsize := if p == h.dv then 0 else h.dvsize,
       small := h.small - {p}, large := h.large - {p}, live := h.live + {p})
  }

  // Malloc hands out a whole free chunk.
  ghost predicate TakenFrom(h: Heap, h2: Heap, p: Addr)
    requires p in h.tiles
  {
    && TakeWrites(h.mem, h2.mem, p, h.tiles[p].size)
    && h2 == TakenHeap(h, h2.mem, p)
  }

  lemma TakeChange(h: Heap, h2: Heap, p: Addr)
    requires Ok(h) && p in h.tiles && !h.tiles[p].used && p != h.top && TakenFrom(h, h2, p)
    ensures RangeChange(h, h2, p, Next(h.tiles, p), {p + 8, Next(h.tiles, p) + 8})
        && Owned(h.arena, p, Next(h.tiles, p))
    ensures forall q :: q in h.tiles ==> !(p < q < Next(h.tiles, p))
  {
    hide Ok, CoreOk, SpaceOk, Tagged, Tiled;
    OkParts(h);
    CoreParts(h, {});
    ArenaOf(h);
    ChunkFacts(h, p);
    ChunksApart(h, p);
    TakeKeeps(h.mem, h2.mem, h.tiles, h.starts, h.ends, h.top, p);
    hide Change, TakeWrites, VictimOk, Binned;
    AlignedSum(p, h.tiles[p].size);
    AlignedSum(p, 8);
    AlignedSum(Next(h.tiles, p), 8);
  }

  // ---- Each change inside a segment keeps the invariant ----

  lemma TakeOk(h: Heap, h2: Heap, p: Addr)
    requires Ok(h) && p in h.tiles && !h.tiles[p].used && p != h.top && TakenFrom(h, h2, p)
    ensures Ok(h2) && InnerKept(h, h2) && Undisturbed(h, h2, h.live) && p !in h.live
  {
    hide Ok, CoreOk, SpaceOk, RangeChange, Tiled, Tagged, TakeWrites, Owned, Undisturbed, InnerKept, Binned;
    OkParts(h);
    CoreParts(h, {});
    var hi := Next(h.tiles, p);
    var w := {p + 8, hi + 8};
    TakeChange(h, h2, p);
    ChangeParts(h, h2, p, hi, w);
    RangeInner(h, h2, p, hi, w);
    SpaceKept(h, h2, p, hi, w);
    ArenaOf(h);
    ChunkFacts(h, p);
    TakeBins(h, p);
    LiveElsewhere(h, p, hi);
    RangeUndisturbed(h, h2, p, hi, w, h.live);
    TakenCore(h2, h, p);
    OkOf(h2);
  }

  lemma TakeBins(h: Heap, p: Addr)
    requires Binned(h.tiles, h.top, h.dv, h.small, h.large, {}) && p in h.tiles && 0 !in h.tiles
    ensures Binned(Taken(h.tiles, p), h.top, if p == h.dv then 0 else h.dv, h.small - {p}, h.large - {p}, {})
  {
    BinTaken(h.tiles, h.top, h.dv, h.small, p, true);
    BinTaken(h.tiles, h.top, h.dv, h.large, p, false);
  }

  lemma TakenCore(h2: Heap, h: Heap, p: Addr)
    requires p in h.tiles && !h.tiles[p].used && p != h.top && TakenFrom(h, h2, p) && 0 !in h.tiles
    requires CoreOk(h, {}) && UsersOk(h)
    requires Tiled(h2.tiles, h2.starts, h2.ends, h2.top) && Tagged(h2.mem, h2.tiles, h2.top)
    requires Binned(h2.tiles, h2.top, h2.dv, h2.small, h2.large, {})
    ensures CoreOk(h2, {}) && UsersOk(h2)
  {
    hide Tiled, Tagged, Binned, TakeWrites;
  }

  // ---- Malloc splits a free chunk ----

  // Where the rest of a split chunk goes.
  datatype Rest = ToTop | ToVictim | ToBin

  // The small bins after a split: a new victim sends the old one, which is small, to its bin.
  function SmallAfter(h: Heap, p: Addr, nb: nat, rest: Rest): map<Addr, nat>
    requires p in h.tiles && nb < h.tiles[p].size
  {
    match rest
    case ToTop => h.small
    case ToVictim => if p == h.dv || h.dvsize == 0 then h.small - {p} else (h.small - {p})[h.dv := h.dvsize]
    case ToBin => PutSmall(h.small - {p}, p + nb, h.tiles[p].size - nb)
  }

  function LargeAfter(h: Heap, p: Addr, nb: nat, rest: Rest): map<Addr, nat>
    requires p in h.tiles && nb < h.tiles[p].size
  {
    match rest
    case ToTop => h.large
    case ToVictim => h.large - {p}
    case ToBin => PutLarge(h.large - {p}, p + nb, h.tiles[p].size - nb)
  }

  ghost predicate CanCarve(h: Heap, p: Addr, nb: nat, rest: Rest) {
    && p in h.tiles && !h.tiles[p].used && MIN_CHUNK_SIZE <= nb < h.tiles[p].size && Aligned(nb)
    && (p != h.top ==> h.tiles[p].size - nb >= MIN_CHUNK_SIZE)
    && (rest == ToTop <==> p == h.top) && (p == h.dv ==> rest == ToVictim)
    && (rest == ToVictim && p != h.dv && h.dvsize != 0 ==> SmallBins.IsSmall(h.dvsize))
  }

  ghost function CarvedHeap(h: Heap, m: Memory, p: Addr, nb: nat, rest: Rest): Heap
    requires p in h.tiles && nb < h.tiles[p].size
  {
    var r, size := p + nb, h.tiles[p].size - nb;
    h.(mem := m, tiles := Carved(h.tiles, p, nb),
       top := if rest == ToTop then r else h.top, topsize := if rest == ToTop then size else h.topsize,
       dv := if rest == ToVictim then r else h.dv, dvsize := if rest == ToVictim then size else h.dvsize,
       small := SmallAfter(h, p, nb, rest), large := LargeAfter(h, p, nb, rest), live := h.live + {p})
  }

  ghost predicate CarvedFrom(h: Heap, h2: Heap, p: Addr, nb: nat, rest: Rest)
    requires p in h.tiles && nb < h.tiles[p].size
  {
    CarveWrites(h.mem, h2.mem, p, nb, h.tiles[p].size, p == h.top) && h2 == CarvedHeap(h, h2.mem, p, nb, rest)
  }

  lemma CarveChange(h: Heap, h2: Heap, p: Addr, nb: nat, rest: Rest)
    requires Ok(h) && CanCarve(h, p, nb, rest) && CarvedFrom(h, h2, p, nb, rest)
    ensures RangeChange(h, h2, p, Next(h.tiles, p), {p + 8, p + nb + 8, Next(h.tiles, p)})
    ensures Owned(h.arena, p, Next(h.tiles, p))
    ensures forall q :: q in h.tiles ==> !(p < q < Next(h.tiles, p))
  {
    hide Ok, CoreOk, SpaceOk, Tagged, Tiled, CarveWrites, SmallAfter, LargeAfter, Change;
    OkParts(h);
    CoreParts(h, {});
    ArenaOf(h);
    ChunkFacts(h, p);
    ChunksApart(h, p);
    CarveKeeps(h.mem, h2.mem, h.tiles, h.starts, h.ends, h.top, p, nb);
    CarveWords(h, h2, p, nb, rest);
  }

  lemma CarveWords(h: Heap, h2: Heap, p: Addr, nb: nat, rest: Rest)
    requires CanCarve(h, p, nb, rest) && CarvedFrom(h, h2, p, nb, rest) && Aligned(p) && Aligned(h.tiles[p].size)
    ensures forall a :: a in {p + 8, p + nb + 8, Next(h.tiles, p)} ==> Aligned(a)
    ensures Next(h.tiles, p) in h.ends ==> Head(h2.mem, Next(h.tiles, p)) == Head(h.mem, Next(h.tiles, p))
  {
    AlignedSum(p, h.tiles[p].size);
    AlignedSum(p, nb);
    AlignedSum(p, 8);
    AlignedSum(p + nb, 8);
  }

  lemma CarveBins(h: Heap, p: Addr, nb: nat, rest: Rest)
    requires Binned(h.tiles, h.top, h.dv, h.small, h.large, {}) && VictimOk(h.tiles, h.top, h.dv, h.dvsize)
    requires CanCarve(h, p, nb, rest) && p + nb !in h.tiles && 0 !in h.tiles && h.top in h.tiles
    ensures Binned(Carved(h.tiles, p, nb), if rest == ToTop then p + nb else h.top,
        if rest == ToVictim then p + nb else h.dv,
                   SmallAfter(h, p, nb, rest), LargeAfter(h, p, nb, rest), {})
  {
    hide Carved, BinHolds, SmallBins.IsSmall;
    var t2, r := Carved(h.tiles, p, nb), p + nb;
    var top2, dv2 := if rest == ToTop then r else h.top, if rest == ToVictim then r else h.dv;
    BinCarved(h.tiles, h.top, h.dv, h.small, p, nb, top2, dv2, true);
    BinCarved(h.tiles, h.top, h.dv, h.large, p, nb, top2, dv2, false);
    CarveLoose(h, p, nb, rest);
    LooseBins(h, p, nb, rest, t2, top2, dv2, {r, h.dv} - {top2, dv2, p});
  }

  // The loose chunks go to their bins.
  lemma LooseBins(h: Heap, p: Addr, nb: nat, rest: Rest, t2: Tiles, top2: Addr, dv2: Addr, loose: set<Addr>)
    requires Binned(t2, top2, dv2, h.small - {p}, h.large - {p}, loose) && CanCarve(h, p, nb, rest)
    requires match rest
      case ToTop => loose == {} && h.small - {p} == h.small && h.large - {p} == h.large
      case ToBin => loose == {p + nb} && InBin(t2, top2, dv2, {}, p + nb) && t2[p + nb].size == h.tiles[p].size - nb
      case ToVictim =>
        if p != h.dv && h.dvsize != 0 then loose == {h.dv} && InBin(t2, top2, dv2, {}, h.dv)
            && t2[h.dv].size == h.dvsize
        else forall q :: q in loose ==> !InBin(t2, top2, dv2, {}, q)
    ensures Binned(t2, top2, dv2, SmallAfter(h, p, nb, rest), LargeAfter(h, p, nb, rest), {})
  {
    hide Binned, InBin;
    match rest
    case ToBin =>
      BinsInserted(t2, top2, dv2, h.small - {p}, h.large - {p}, loose, p + nb);
      assert loose - {p + nb} == {};
    case ToVictim =>
      if p != h.dv && h.dvsize != 0 {
        BinsInserted(t2, top2, dv2, h.small - {p}, h.large - {p}, loose, h.dv);
        assert loose - {h.dv} == {};
      } else {
        BinsTight(t2, top2, dv2, h.small - {p}, h.large - {p}, loose);
      }
    case ToTop =>
  }

  // What the split leaves loose.
  lemma CarveLoose(h: Heap, p: Addr, nb: nat, rest: Rest)
    requires Binned(h.tiles, h.top, h.dv, h.small, h.large, {}) && VictimOk(h.tiles, h.top, h.dv, h.dvsize)
    requires CanCarve(h, p, nb, rest) && p + nb !in h.tiles && 0 !in h.tiles && h.top in h.tiles
    ensures var t2, r := Carved(h.tiles, p, nb), p + nb;
      var top2, dv2 := if rest == ToTop then r else h.top, if rest == ToVictim then r else h.dv;
      var loose := {r, h.dv} - {top2, dv2, p};
      match rest
      case ToTop => loose == {} && h.small - {p} == h.small && h.large - {p} == h.large
      case ToBin => loose == {p + nb} && InBin(t2, top2, dv2, {}, p + nb) && t2[p + nb].size == h.tiles[p].size - nb
      case ToVictim =>
        if p != h.dv && h.dvsize != 0 then loose == {h.dv} && InBin(t2, top2, dv2, {}, h.dv)
            && t2[h.dv].size == h.dvsize
        else forall q :: q in loose ==> !InBin(t2, top2, dv2, {}, q)
  {
    hide SmallBins.IsSmall;
  }

  lemma CarveOk(h: Heap, h2: Heap, p: Addr, nb: nat, rest: Rest)
    requires Ok(h) && CanCarve(h, p, nb, rest) && CarvedFrom(h, h2, p, nb, rest)
    ensures Ok(h2) && InnerKept(h, h2) && Undisturbed(h, h2, h.live) && p !in h.live
  {
    hide Ok, CoreOk, SpaceOk, RangeChange, Tiled, Tagged, CarveWrites, Owned, Undisturbed, InnerKept, Binned,
      SmallAfter, LargeAfter, VictimOk;
    OkParts(h);
    CoreParts(h, {});
    var hi := Next(h.tiles, p);
    var w := {p + 8, p + nb + 8, hi};
    CarveChange(h, h2, p, nb, rest);
    ChangeParts(h, h2, p, hi, w);
    RangeInner(h, h2, p, hi, w);
    SpaceKept(h, h2, p, hi, w);
    ArenaOf(h);
    ChunkFacts(h, p);
    CarveBins(h, p, nb, rest);
    DirectsOf(h);
    LiveElsewhere(h, p, hi);
    RangeUndisturbed(h, h2, p, hi, w, h.live);
    CarvedCore(h, h2, p, nb, rest);
    CarvedUsers(h, h2, p, nb, rest);
    OkOf(h2);
  }

  lemma CarvedCore(h: Heap, h2: Heap, p: Addr, nb: nat, rest: Rest)
    requires CanCarve(h, p, nb, rest) && CarvedFrom(h, h2, p, nb, rest) && 0 !in h.tiles && p + nb !in h.tiles
    requires VictimOk(h.tiles, h.top, h.dv, h.dvsize) && h.top in h.tiles && h.tiles[h.top].size == h.topsize
    requires Tiled(h2.tiles, h2.starts, h2.ends, h2.top) && Tagged(h2.mem, h2.tiles, h2.top)
    requires Binned(h2.tiles, h2.top, h2.dv, h2.small, h2.large, {})
    ensures CoreOk(h2, {})
  {
    hide Tiled, Tagged, Binned, CarveWrites, SmallAfter, LargeAfter, Aligned;
  }

  lemma CarvedUsers(h: Heap, h2: Heap, p: Addr, nb: nat, rest: Rest)
    requires CanCarve(h, p, nb, rest) && CarvedFrom(h, h2, p, nb, rest) && p + nb !in h.tiles
    requires UsersOk(h) && Owned(h.arena, p, Next(h.tiles, p)) && DirectsOk(h.mem, h.arena, h.direct)
    ensures UsersOk(h2)
  {
    hide CarveWrites, SmallAfter, LargeAfter, Aligned;
    DirectsOutside(h.mem, h.arena, h.direct);
  }

  // ---- Free merges a chunk with its free neighbours ----

  datatype Freed = IntoTop | IntoVictim | IntoBin

  // p is a block in a segment; the run from lo to hi is p and the free chunks next to it, and kind says where it goes.
  ghost predicate CanFree(h: Heap, p: Addr, lo: Addr, hi: Addr, kind: Freed) {
    && p in h.live && p in h.tiles && Next(h.tiles, p) in h.tiles
    && (if Head(h.mem, p).pinuse then lo == p
        else lo in h.tiles && !h.tiles[lo].used && lo < p && Next(h.tiles, lo) == p)
    && var n := Next(h.tiles, p);
    && (hi == if h.tiles[n].used then n else Next(h.tiles, n))
    && kind == if n == h.top then IntoTop else if lo == h.dv || n == h.dv then IntoVictim else IntoBin
  }

  function FreedTop(h: Heap, lo: Addr, kind: Freed): Addr {
    if kind == IntoTop then lo else h.top
  }

  function FreedVictim(h: Heap, lo: Addr, kind: Freed): Addr {
    match kind
    case IntoTop => if lo == h.dv then 0 else h.dv
    case IntoVictim => lo
    case IntoBin => h.dv
  }

  function FreedSmall(h: Heap, p: Addr, lo: Addr, hi: Addr, kind: Freed): map<Addr, nat>
    requires p in h.tiles && lo < hi
  {
    var rest := h.small - {lo, Next(h.tiles, p)};
    if kind == IntoBin then PutSmall(rest, lo, hi - lo) else rest
  }

  function FreedLarge(h: Heap, p: Addr, lo: Addr, hi: Addr, kind: Freed): map<Addr, nat>
    requires p in h.tiles && lo < hi
  {
    var rest := h.large - {lo, Next(h.tiles, p)};
    if kind == IntoBin then PutLarge(rest, lo, hi - lo) else rest
  }

  ghost function FreedHeap(h: Heap, m: Memory, p: Addr, lo: Addr, hi: Addr, kind: Freed): Heap
    requires p in h.tiles && lo < hi
  {
    h.(mem := m, tiles := Merged(h.tiles, lo, hi),
       top := FreedTop(h, lo, kind), topsize := if kind == IntoTop then hi - lo else h.topsize,
       dv := FreedVictim(h, lo, kind),
       dvsize := match kind case IntoTop => (if lo == h.dv then 0 else h.dvsize) case IntoVictim => hi - lo
                            case IntoBin => h.dvsize,
       small := FreedSmall(h, p, lo, hi, kind), large := FreedLarge(h, p, lo, hi, kind), live := h.live - {p})
  }

  ghost predicate FreedInto(h: Heap, h2: Heap, p: Addr, lo: Addr, hi: Addr, kind: Freed)
    requires p in h.tiles && lo < hi
  {
    MergeWrites(h.mem, h2.mem, lo, hi, kind == IntoTop) && h2 == FreedHeap(h, h2.mem, p, lo, hi, kind)
  }

  // The run of chunks that free merges.
  lemma RunFacts(h: Heap, p: Addr, lo: Addr, hi: Addr, kind: Freed)
    requires Tiled(h.tiles, h.starts, h.ends, h.top) && Tagged(h.mem, h.tiles, h.top)
    requires CanFree(h, p, lo, hi, kind) && h.tiles[p].used && p != h.top
    ensures lo in h.tiles && lo <= p < Next(h.tiles, p) <= hi && Head(h.mem, lo).pinuse && hi - lo >= MIN_CHUNK_SIZE
    ensures forall q :: q in h.tiles && lo <= q < hi ==> q == lo || q == p || q == Next(h.tiles, p)
    ensures Inside(h.starts, h.ends, lo, hi)
    ensures hi in h.tiles ==> h.tiles[hi].used
    ensures if kind == IntoTop then hi == Next(h.tiles, h.top) && hi in h.ends && lo < h.top < hi
        && !h.tiles[h.top].used
            else hi in h.tiles && hi !in h.ends && !(lo <= h.top < hi)
    ensures Next(h.tiles, p) < hi || h.tiles[Next(h.tiles, p)].used
  {
    var t, n := h.tiles, Next(h.tiles, p);
    assert TileOk(t, h.ends, h.top, p) && TileOk(t, h.ends, h.top, lo) && TileOk(t, h.ends, h.top, n);
    assert TagsOf(h.mem, t, h.top, lo) && TagsOf(h.mem, t, h.top, n);
    NoneInside(t, h.starts, h.ends, lo);
    NoneInside(t, h.starts, h.ends, p);
    NoneInside(t, h.starts, h.ends, n);
    if hi in t {
      assert TagsOf(h.mem, t, h.top, hi);
    }
  }

  // What the proofs about free need to know of the run.
  ghost predicate Run(h: Heap, p: Addr, lo: Addr, hi: Addr, kind: Freed)
    requires p in h.tiles
  {
    && lo in h.tiles && lo <= p < Next(h.tiles, p) <= hi && p != h.top && h.tiles[p].used && Aligned(hi - lo)
    && (forall q :: q in h.tiles && lo <= q < hi ==> q == lo || q == p || q == Next(h.tiles, p))
    && h.top in h.tiles && (if kind == IntoTop then lo < h.top < hi && !h.tiles[h.top].used else !(lo <= h.top < hi))
    && Next(h.tiles, p) in h.tiles && (Next(h.tiles, p) < hi || h.tiles[Next(h.tiles, p)].used)
  }

  lemma FreeRun(h: Heap, p: Addr, lo: Addr, hi: Addr, kind: Freed)
    requires Ok(h) && CanFree(h, p, lo, hi, kind)
    ensures Run(h, p, lo, hi, kind) && Owned(h.arena, lo, hi) && Aligned(hi) && Aligned(lo)
    ensures Head(h.mem, lo).pinuse && hi - lo >= MIN_CHUNK_SIZE && Inside(h.starts, h.ends, lo, hi)
    ensures hi in h.tiles ==> h.tiles[hi].used
    ensures if kind == IntoTop then hi == Next(h.tiles, h.top) && hi in h.ends else hi in h.tiles && hi !in h.ends
  {
    hide Ok, CoreOk, SpaceOk, UsersOk, Tagged, Tiled, CanFree, Inside, Owned, Aligned;
    FreePlace(h, p, lo, hi, kind);
    Neighbours(h, p);
    OkParts(h);
    CoreParts(h, {});
    ArenaOf(h);
    FreePlace(h, p, lo, hi, kind);
    RunFacts(h, p, lo, hi, kind);
    FreeAligned(h, p, lo, hi, kind);
  }

  lemma FreePlace(h: Heap, p: Addr, lo: Addr, hi: Addr, kind: Freed)
    requires CanFree(h, p, lo, hi, kind)
    ensures p in h.live && p in h.tiles && Next(h.tiles, p) in h.tiles
  {
  }

  lemma FreeChange(h: Heap, h2: Heap, p: Addr, lo: Addr, hi: Addr, kind: Freed)
    requires Ok(h) && CanFree(h, p, lo, hi, kind) && lo < hi && FreedInto(h, h2, p, lo, hi, kind)
    ensures RangeChange(h, h2, lo, hi, {lo + 8, hi, hi + 8}) && Owned(h.arena, lo, hi)
    ensures Run(h, p, lo, hi, kind)
  {
    hide Ok, CoreOk, SpaceOk, Tagged, Tiled, MergeWrites, Change, FreedSmall, FreedLarge, Inside, Owned, Aligned;
    FreePlace(h, p, lo, hi, kind);
    FreeRun(h, p, lo, hi, kind);
    hide CanFree;
    OkParts(h);
    CoreParts(h, {});
    var top2 := if kind == IntoTop then lo else h.top;
    MergeKeeps(h.mem, h2.mem, h.tiles, h.starts, h.ends, h.top, lo, hi, top2);
    FreeWords(h, h2, lo, hi, kind);
  }

  lemma FreeAligned(h: Heap, p: Addr, lo: Addr, hi: Addr, kind: Freed)
    requires Tiled(h.tiles, h.starts, h.ends, h.top) && InArena(h.tiles, h.ends, h.arena)
    requires CanFree(h, p, lo, hi, kind) && p != h.top
    ensures Aligned(lo) && Aligned(hi) && Aligned(hi - lo) && Owned(h.arena, lo, hi)
  {
    hide Tiled, Aligned, InArena;
    var n := Next(h.tiles, p);
    ChunkFacts(h, lo);
    ChunkFacts(h, p);
    ChunkFacts(h, n);
    AlignedSum(n, h.tiles[n].size);
    AlignedSum(hi, lo);
  }

  lemma FreeWords(h: Heap, h2: Heap, lo: Addr, hi: Addr, kind: Freed)
    requires Tagged(h.mem, h.tiles, h.top) && h.top in h.tiles && Aligned(lo) && Aligned(hi) && lo < hi
    requires MergeWrites(h.mem, h2.mem, lo, hi, kind == IntoTop)
    requires kind == IntoTop ==> hi == Next(h.tiles, h.top) && !h.tiles[h.top].used
    requires kind != IntoTop ==> hi !in h.ends
    ensures forall a :: a in {lo + 8, hi, hi + 8} ==> Aligned(a)
    ensures hi in h.ends ==> Head(h2.mem, hi) == Head(h.mem, hi)
  {
    assert TagsOf(h.mem, h.tiles, h.top, h.top);
  }

  // What a merge does to the free chunks that have a bin.
  lemma MergedInBin(t: Tiles, top: Addr, dv: Addr, lo: Addr, hi: Addr, gone: set<Addr>, top2: Addr, dv2: Addr, p: Addr)
    requires lo in t && lo < hi && 0 !in t
    requires forall q :: q in t && lo <= q < hi && !t[q].used ==> q in gone
    requires forall q :: q in gone ==> lo <= q < hi || (q in t && t[q].used)
    requires top2 == if lo <= top < hi then lo else top
    requires (dv2 == dv && !(lo <= dv < hi)) || (dv2 in {0, lo} && lo <= dv < hi)
    ensures InBin(Merged(t, lo, hi), top2, dv2, {lo} - {top2, dv2}, p) <==> InBin(t, top, dv, {}, p) && p !in gone
    ensures InBin(t, top, dv, {}, p) && p !in gone ==> Merged(t, lo, hi)[p] == t[p]
  {
  }

  // A run of chunks becomes one loose chunk, unless it is the new top or victim.
  lemma BinMerged(t: Tiles, top: Addr, dv: Addr, b: map<Addr, nat>, lo: Addr, hi: Addr, gone: set<Addr>,
                  top2: Addr, dv2: Addr, small: bool)
    requires BinHolds(t, top, dv, b, {}, small) && lo in t && lo < hi && 0 !in t
    requires forall q :: q in t && lo <= q < hi && !t[q].used ==> q in gone
    requires forall q :: q in gone ==> lo <= q < hi || (q in t && t[q].used)
    requires top2 == if lo <= top < hi then lo else top
    requires (dv2 == dv && !(lo <= dv < hi)) || (dv2 in {0, lo} && lo <= dv < hi)
    ensures BinHolds(Merged(t, lo, hi), top2, dv2, b - gone, {lo} - {top2, dv2}, small)
  {
    hide SmallBins.IsSmall, Merged;
    var t2, loose := Merged(t, lo, hi), {lo} - {top2, dv2};
    forall p
      ensures p in b - gone <==> InBin(t2, top2, dv2, loose, p) && SmallBins.IsSmall(t2[p].size) == small
      ensures p in b - gone ==> (b - gone)[p] == t2[p].size
    {
      MergedInBin(t, top, dv, lo, hi, gone, top2, dv2, p);
    }
  }

  lemma FreeBins(h: Heap, p: Addr, lo: Addr, hi: Addr, kind: Freed)
    requires Binned(h.tiles, h.top, h.dv, h.small, h.large, {}) && VictimOk(h.tiles, h.top, h.dv, h.dvsize)
    requires CanFree(h, p, lo, hi, kind) && Run(h, p, lo, hi, kind) && h.top in h.tiles && 0 !in h.tiles
    ensures Binned(Merged(h.tiles, lo, hi), FreedTop(h, lo, kind), FreedVictim(h, lo, kind),
                   FreedSmall(h, p, lo, hi, kind), FreedLarge(h, p, lo, hi, kind), {})
  {
    hide BinHolds, Merged, SmallBins.IsSmall, CanFree, VictimOk, FreedTop, FreedVictim;
    FreePlace(h, p, lo, hi, kind);
    var t2, gone := Merged(h.tiles, lo, hi), {lo, Next(h.tiles, p)};
    var top2, dv2 := FreedTop(h, lo, kind), FreedVictim(h, lo, kind);
    FreeVictim(h, p, lo, hi, kind);
    FreeUnlinked(h, p, lo, hi, kind);
    MergedAt(h.tiles, lo, hi);
    hide Run, Binned;
    if kind == IntoBin {
      BinsInserted(t2, top2, dv2, h.small - gone, h.large - gone, {lo}, lo);
      assert {lo} - {lo} == {};
    }
  }

  lemma MergedAt(t: Tiles, lo: Addr, hi: Addr)
    requires lo in t && lo < hi
    ensures lo in Merged(t, lo, hi) && Merged(t, lo, hi)[lo] == Tile(hi - lo, false)
  {
  }

  lemma FreeUnlinked(h: Heap, p: Addr, lo: Addr, hi: Addr, kind: Freed)
    requires Binned(h.tiles, h.top, h.dv, h.small, h.large, {}) && VictimOk(h.tiles, h.top, h.dv, h.dvsize)
    requires CanFree(h, p, lo, hi, kind) && Run(h, p, lo, hi, kind) && 0 !in h.tiles
    ensures var gone := {lo, Next(h.tiles, p)};
      Binned(Merged(h.tiles, lo, hi), FreedTop(h, lo, kind), FreedVictim(h, lo, kind), h.small - gone, h.large - gone,
             if kind == IntoBin then {lo} else {})
  {
    hide Merged, BinHolds, SmallBins.IsSmall, FreedTop, FreedVictim;
    var gone := {lo, Next(h.tiles, p)};
    FreeVictim(h, p, lo, hi, kind);
    hide CanFree, VictimOk;
    BinMerged(h.tiles, h.top, h.dv, h.small, lo, hi, gone, FreedTop(h, lo, kind), FreedVictim(h, lo, kind), true);
    BinMerged(h.tiles, h.top, h.dv, h.large, lo, hi, gone, FreedTop(h, lo, kind), FreedVictim(h, lo, kind), false);
  }

  lemma FreeVictim(h: Heap, p: Addr, lo: Addr, hi: Addr, kind: Freed)
    requires VictimOk(h.tiles, h.top, h.dv, h.dvsize)
    requires CanFree(h, p, lo, hi, kind) && Run(h, p, lo, hi, kind) && 0 !in h.tiles
    ensures var dv2 := FreedVictim(h, lo, kind);
        (dv2 == h.dv && !(lo <= h.dv < hi)) || (dv2 in {0, lo} && lo <= h.dv < hi)
    ensures FreedTop(h, lo, kind) == if lo <= h.top < hi then lo else h.top
    ensures {lo} - {FreedTop(h, lo, kind), FreedVictim(h, lo, kind)} == if kind == IntoBin then {lo} else {}
    ensures kind == IntoBin ==> lo != FreedTop(h, lo, kind) && lo != FreedVictim(h, lo, kind)
  {
  }

  lemma FreeOk(h: Heap, h2: Heap, p: Addr, lo: Addr, hi: Addr, kind: Freed)
    requires Ok(h) && CanFree(h, p, lo, hi, kind) && lo < hi && FreedInto(h, h2, p, lo, hi, kind)
    ensures Ok(h2) && InnerKept(h, h2) && Undisturbed(h, h2, h.live - {p})
  {
    hide Ok, CoreOk, SpaceOk, RangeChange, Tiled, Tagged, MergeWrites, Owned, Undisturbed, InnerKept, Binned,
      FreedSmall, FreedLarge, VictimOk;
    OkParts(h);
    CoreParts(h, {});
    var w := {lo + 8, hi, hi + 8};
    FreeChange(h, h2, p, lo, hi, kind);
    ChangeParts(h, h2, lo, hi, w);
    RangeInner(h, h2, lo, hi, w);
    SpaceKept(h, h2, lo, hi, w);
    ArenaOf(h);
    ChunkFacts(h, p);
    FreeBins(h, p, lo, hi, kind);
    DirectsOf(h);
    FreeElsewhere(h, p, lo, hi, kind);
    RangeUndisturbed(h, h2, lo, hi, w, h.live - {p});
    FreedCore(h, h2, p, lo, hi, kind);
    OkOf(h2);
  }

  lemma FreeElsewhere(h: Heap, p: Addr, lo: Addr, hi: Addr, kind: Freed)
    requires CanFree(h, p, lo, hi, kind) && Run(h, p, lo, hi, kind) && UsersOk(h)
    requires Owned(h.arena, lo, hi) && DirectsOk(h.mem, h.arena, h.direct)
    ensures Elsewhere(h.live - {p}, lo, hi)
  {
    DirectsOutside(h.mem, h.arena, h.direct);
  }

  lemma FreedCore(h: Heap, h2: Heap, p: Addr, lo: Addr, hi: Addr, kind: Freed)
    requires CanFree(h, p, lo, hi, kind) && Run(h, p, lo, hi, kind) && FreedInto(h, h2, p, lo, hi, kind)
    requires VictimOk(h.tiles, h.top, h.dv, h.dvsize) && h.top in h.tiles && h.tiles[h.top].size == h.topsize
    requires Tiled(h2.tiles, h2.starts, h2.ends, h2.top) && Tagged(h2.mem, h2.tiles, h2.top)
    requires Binned(h2.tiles, h2.top, h2.dv, h2.small, h2.large, {})
    requires UsersOk(h) && 0 !in h.tiles
    ensures CoreOk(h2, {}) && UsersOk(h2)
  {
    hide Tiled, Tagged, Binned, MergeWrites, FreedSmall, FreedLarge, Aligned;
    FreeVictim(h, p, lo, hi, kind);
  }

  // ---- Realloc and memalign cut a block in two; realloc grows one into top ----

  // The words from lo to hi are as they were.
  ghost predicate SameWords(m: Memory, m2: Memory, lo: Addr, hi: Addr) {
    forall a: Addr :: lo <= a < hi ==> At(m2, a) == At(m, a)
  }

  ghost predicate CanHalve(h: Heap, p: Addr, nb: nat) {
    p in h.live && p in h.tiles && MIN_CHUNK_SIZE <= nb && nb + MIN_CHUNK_SIZE <= h.tiles[p].size && Aligned(nb)
  }

  ghost function HalvedHeap(h: Heap, m: Memory, p: Addr, nb: nat): Heap
    requires CanHalve(h, p, nb)
  {
    h.(mem := m, tiles := Halved(h.tiles, p, nb), live := h.live + {p + nb})
  }

  ghost predicate HalvedInto(h: Heap, h2: Heap, p: Addr, nb: nat)
    requires CanHalve(h, p, nb)
  {
    && HalveWrites(h.mem, h2.mem, p, nb, h.tiles[p].size)
    && h2 == HalvedHeap(h, h2.mem, p, nb)
  }

  lemma HalveChange(h: Heap, h2: Heap, p: Addr, nb: nat)
    requires Ok(h) && CanHalve(h, p, nb) && HalvedInto(h, h2, p, nb)
    ensures RangeChange(h, h2, p, Next(h.tiles, p), {p + 8, p + nb + 8}) && Owned(h.arena, p, Next(h.tiles, p))
    ensures forall q :: q in h.tiles ==> !(p < q < Next(h.tiles, p))
    ensures p != h.top && h.tiles[p].used && h.top in h.tiles && Next(h.tiles, p) > p
  {
    hide Ok, CoreOk, SpaceOk, Tagged, Tiled, HalveWrites, Change, Owned;
    Neighbours(h, p);
    OkParts(h);
    CoreParts(h, {});
    ArenaOf(h);
    ChunkFacts(h, p);
    ChunksApart(h, p);
    HalveKeeps(h.mem, h2.mem, h.tiles, h.starts, h.ends, h.top, p, nb);
    HalveWords(h, h2, p, nb);
  }

  lemma HalveWords(h: Heap, h2: Heap, p: Addr, nb: nat)
    requires CanHalve(h, p, nb) && HalvedInto(h, h2, p, nb) && Aligned(p)
    ensures forall a :: a in {p + 8, p + nb + 8} ==> Aligned(a)
    ensures Head(h2.mem, Next(h.tiles, p)) == Head(h.mem, Next(h.tiles, p))
  {
    AlignedSum(p, nb);
    AlignedSum(p, 8);
    AlignedSum(p + nb, 8);
  }

  lemma BinHalved(t: Tiles, top: Addr, dv: Addr, b: map<Addr, nat>, p: Addr, nb: nat, small: bool)
    requires BinHolds(t, top, dv, b, {}, small) && p in t && t[p].used && nb < t[p].size && p + nb !in t
    ensures BinHolds(Halved(t, p, nb), top, dv, b, {}, small)
  {
    hide SmallBins.IsSmall;
  }

  // The block cut in two keeps the words of its first part, and every other block is undisturbed.
  lemma HalveOk(h: Heap, h2: Heap, p: Addr, nb: nat)
    requires Ok(h) && CanHalve(h, p, nb) && HalvedInto(h, h2, p, nb)
    ensures Ok(h2) && InnerKept(h, h2) && Undisturbed(h, h2, h.live - {p}) && p + nb !in h.live
    ensures SameWords(h.mem, h2.mem, p + TWO_WORDS, p + nb + 8)
  {
    hide Ok, CoreOk, SpaceOk, RangeChange, Tiled, Tagged, HalveWrites, Owned, Undisturbed, InnerKept, BinHolds,
      VictimOk, SameWords;
    OkParts(h);
    CoreParts(h, {});
    var hi, w := Next(h.tiles, p), {p + 8, p + nb + 8};
    HalveChange(h, h2, p, nb);
    ChangeParts(h, h2, p, hi, w);
    RangeInner(h, h2, p, hi, w);
    SpaceKept(h, h2, p, hi, w);
    ArenaOf(h);
    DirectsOf(h);
    BinHalved(h.tiles, h.top, h.dv, h.small, p, nb, true);
    BinHalved(h.tiles, h.top, h.dv, h.large, p, nb, false);
    CutElsewhere(h, p, hi);
    RangeUndisturbed(h, h2, p, hi, w, h.live - {p});
    HalvedCore(h, h2, p, nb);
    OkOf(h2);
    FirstWords(h, h2, p, nb);
  }

  lemma CutElsewhere(h: Heap, p: Addr, hi: Addr)
    requires forall q :: q in h.tiles ==> !(p < q < hi)
    requires UsersOk(h) && Owned(h.arena, p, hi) && DirectsOk(h.mem, h.arena, h.direct)
    ensures Elsewhere(h.live - {p}, p, hi)
  {
    DirectsOutside(h.mem, h.arena, h.direct);
  }

  lemma FirstWords(h: Heap, h2: Heap, p: Addr, nb: nat)
    requires CanHalve(h, p, nb) && HalvedInto(h, h2, p, nb)
    ensures SameWords(h.mem, h2.mem, p + TWO_WORDS, p + nb + 8)
  {
  }

  lemma HalvedCore(h: Heap, h2: Heap, p: Addr, nb: nat)
    requires CanHalve(h, p, nb) && HalvedInto(h, h2, p, nb) && CoreOk(h, {}) && UsersOk(h)
    requires DirectsOk(h.mem, h.arena, h.direct) && Owned(h.arena, p, Next(h.tiles, p))
    requires forall q :: q in h.tiles ==> !(p < q < Next(h.tiles, p))
    requires p != h.top && h.tiles[p].used
    requires Tiled(h2.tiles, h2.starts, h2.ends, h2.top) && Tagged(h2.mem, h2.tiles, h2.top)
    requires Binned(h2.tiles, h2.top, h2.dv, h2.small, h2.large, {})
    ensures CoreOk(h2, {}) && UsersOk(h2) && p + nb !in h.live
  {
    hide Tiled, Tagged, Binned, HalveWrites, Aligned;
    CoreParts(h, {});
    DirectsOutside(h.mem, h.arena, h.direct);
    assert p + nb in h.arena;
  }

  ghost predicate CanExpand(h: Heap, p: Addr, nb: nat) {
    && p in h.live && p in h.tiles && h.top in h.tiles && Next(h.tiles, p) == h.top && Aligned(nb)
    && h.tiles[p].size < nb < h.tiles[p].size + h.tiles[h.top].size
  }

  ghost function ExpandedHeap(h: Heap, m: Memory, p: Addr, nb: nat): Heap
    requires CanExpand(h, p, nb)
  {
    h.(mem := m, tiles := Expanded(h.tiles, p, h.top, nb),
       top := p + nb, topsize := h.tiles[p].size + h.tiles[h.top].size - nb)
  }

  ghost predicate ExpandedInto(h: Heap, h2: Heap, p: Addr, nb: nat)
    requires CanExpand(h, p, nb)
  {
    && ExpandWrites(h.mem, h2.mem, p, nb, h.tiles[p].size + h.tiles[h.top].size)
    && h2 == ExpandedHeap(h, h2.mem, p, nb)
  }

  lemma ExpandChange(h: Heap, h2: Heap, p: Addr, nb: nat)
    requires Ok(h) && CanExpand(h, p, nb) && ExpandedInto(h, h2, p, nb)
    ensures RangeChange(h, h2, p, Next(h.tiles, h.top), {p + 8, p + nb + 8}) && Owned(h.arena, p, Next(h.tiles, h.top))
    ensures forall q :: q in h.tiles && p <= q < Next(h.tiles, h.top) ==> q == p || q == h.top
    ensures p < h.top && h.tiles[p].used && !h.tiles[h.top].used
  {
    hide Ok, CoreOk, SpaceOk, Tagged, Tiled, ExpandWrites, Change, Owned;
    Neighbours(h, p);
    OkParts(h);
    CoreParts(h, {});
    ArenaOf(h);
    ChunkFacts(h, p);
    ChunkFacts(h, h.top);
    ExpandRetiled(h.tiles, h.starts, h.ends, h.top, p, nb);
    ExpandKeeps(h.mem, h2.mem, h.tiles, h.starts, h.ends, h.top, p, nb);
    OwnedRun(h.arena, p, h.top, Next(h.tiles, h.top));
    ExpandWords(h, h2, p, nb);
    TopFree(h);
  }

  lemma TopFree(h: Heap)
    requires Tiled(h.tiles, h.starts, h.ends, h.top)
    ensures h.top in h.tiles && !h.tiles[h.top].used && Next(h.tiles, h.top) in h.ends
  {
  }

  lemma OwnedRun(arena: set<Addr>, lo: Addr, mid: Addr, hi: Addr)
    requires Owned(arena, lo, mid) && Owned(arena, mid, hi)
    ensures Owned(arena, lo, hi)
  {
  }

  lemma ExpandWords(h: Heap, h2: Heap, p: Addr, nb: nat)
    requires CanExpand(h, p, nb) && ExpandedInto(h, h2, p, nb) && Aligned(p)
    ensures forall a :: a in {p + 8, p + nb + 8} ==> Aligned(a)
    ensures Head(h2.mem, Next(h.tiles, h.top)) == Head(h.mem, Next(h.tiles, h.top))
    ensures SameWords(h.mem, h2.mem, p + TWO_WORDS, Next(h.tiles, p) + 8)
  {
    AlignedSum(p, nb);
    AlignedSum(p, 8);
    AlignedSum(p + nb, 8);
  }

  lemma BinExpanded(t: Tiles, top: Addr, dv: Addr, b: map<Addr, nat>, p: Addr, nb: nat, small: bool)
    requires BinHolds(t, top, dv, b, {}, small) && p in t && t[p].used && top in t && nb < t[p].size + t[top].size
    requires p < top && p + nb !in t - {top}
    ensures BinHolds(Expanded(t, p, top, nb), p + nb, dv, b, {}, small)
  {
    hide SmallBins.IsSmall;
  }

  // The block keeps all its words as it grows into top, and every other block is undisturbed.
  lemma ExpandOk(h: Heap, h2: Heap, p: Addr, nb: nat)
    requires Ok(h) && CanExpand(h, p, nb) && ExpandedInto(h, h2, p, nb)
    ensures Ok(h2) && InnerKept(h, h2) && Undisturbed(h, h2, h.live - {p})
    ensures SameWords(h.mem, h2.mem, p + TWO_WORDS, Next(h.tiles, p) + 8)
  {
    hide Ok, CoreOk, SpaceOk, RangeChange, Tiled, Tagged, ExpandWrites, Owned, Undisturbed, InnerKept, BinHolds,
      VictimOk, SameWords;
    OkParts(h);
    CoreParts(h, {});
    var hi, w := Next(h.tiles, h.top), {p + 8, p + nb + 8};
    ExpandChange(h, h2, p, nb);
    ChangeParts(h, h2, p, hi, w);
    RangeInner(h, h2, p, hi, w);
    SpaceKept(h, h2, p, hi, w);
    ArenaOf(h);
    DirectsOf(h);
    ChunkFacts(h, p);
    BinExpanded(h.tiles, h.top, h.dv, h.small, p, nb, true);
    BinExpanded(h.tiles, h.top, h.dv, h.large, p, nb, false);
    GrowElsewhere(h, p, hi);
    RangeUndisturbed(h, h2, p, hi, w, h.live - {p});
    ExpandedCore(h, h2, p, nb);
    OkOf(h2);
    ExpandWords(h, h2, p, nb);
  }

  lemma GrowElsewhere(h: Heap, p: Addr, hi: Addr)
    requires forall q :: q in h.tiles && p <= q < hi ==> q == p || q == h.top
    requires h.top in h.tiles && !h.tiles[h.top].used
    requires UsersOk(h) && Owned(h.arena, p, hi) && DirectsOk(h.mem, h.arena, h.direct)
    ensures Elsewhere(h.live - {p}, p, hi)
  {
    DirectsOutside(h.mem, h.arena, h.direct);
  }

  lemma ExpandedCore(h: Heap, h2: Heap, p: Addr, nb: nat)
    requires CanExpand(h, p, nb) && ExpandedInto(h, h2, p, nb) && UsersOk(h)
    requires VictimOk(h.tiles, h.top, h.dv, h.dvsize)
    requires DirectsOk(h.mem, h.arena, h.direct) && Owned(h.arena, p, Next(h.tiles, h.top))
    requires forall q :: q in h.tiles && p <= q < Next(h.tiles, h.top) ==> q == p || q == h.top
    requires p < h.top && h.tiles[p].used && !h.tiles[h.top].used
    requires Tiled(h2.tiles, h2.starts, h2.ends, h2.top) && Tagged(h2.mem, h2.tiles, h2.top)
    requires Binned(h2.tiles, h2.top, h2.dv, h2.small, h2.large, {})
    ensures CoreOk(h2, {}) && UsersOk(h2)
  {
    hide Tiled, Tagged, Binned, ExpandWrites, Aligned;
    DirectsOutside(h.mem, h.arena, h.direct);
    assert p + nb in h.arena;
  }
}
