// Directly mapped blocks: a region of its own for each, with the offset of the
// chunk in its prev_foot and a fake next chunk after it.
module HeapDirect {
  import opened Tiling
  import opened HeapState
  import opened HeapSegments

  ghost predicate DirectWrites(m: Memory, m2: Memory, mm: Addr, p: Addr, size: nat)
    requires mm <= p
  {
    && Head(m2, p) == Word(size, false, false) && Foot(m2, p) == p - mm
    && Head(m2, p + size) == FENCEPOST && Head(m2, p + size + 8) == Word(0, false, false)
    && SameExcept(m, m2, {mm, p, p + 8, p + size + 8, p + size + 16})
  }

  ghost function MappedHeap(h: Heap, m: Memory, mm: Addr, p: Addr, size: nat): Heap {
    h.(mem := m, direct := h.direct[p := Region(mm, size)], live := h.live + {p})
  }

  // mmap_alloc: the region from mm holds one chunk.
  ghost predicate DirectMapped(h: Heap, h2: Heap, mm: Addr, p: Addr, size: nat) {
    && mm < p && Aligned(p) && Aligned(size) && size >= MIN_CHUNK_SIZE
    && DirectWrites(h.mem, h2.mem, mm, p, size)
    && h2 == MappedHeap(h, h2.mem, mm, p, size)
  }

  lemma RegionApart(direct: map<Addr, Region>, q: Addr, lo: Addr, hi: Addr)
    requires OutsideDirects(direct, Range(lo, hi)) && q in direct && lo < hi && direct[q].start <= q
    ensures hi <= direct[q].start || RegionEnd(q, direct[q]) <= lo
  {
    var x := Max(lo, direct[q].start);
    assert InRegion(q, direct[q], x) ==> x !in Range(lo, hi);
  }

  // The words that the owner of a chunk in use may write are bytes of segments.
  lemma UsableInArena(t: Tiles, starts: set<Addr>, ends: set<Addr>, top: Addr, arena: set<Addr>, p: Addr, a: Addr)
    requires Tiled(t, starts, ends, top) && InArena(t, ends, arena) && p in t && InUsable(t, p, a)
    ensures a in arena
  {
    assert TileOk(t, ends, top, p);
    var n := Next(t, p);
    if a >= n && n in t {
      assert TileOk(t, ends, top, n);
    }
  }

  lemma DirectWordsOutside(h: Heap, mm: Addr, hi: Addr, w: set<Addr>)
    requires Tiled(h.tiles, h.starts, h.ends, h.top) && InArena(h.tiles, h.ends, h.arena)
    requires (forall x :: mm <= x < hi ==> x !in h.arena) && forall a :: a in w ==> mm <= a < hi
    ensures forall p, a :: p in h.tiles && a in w ==> !InUsable(h.tiles, p, a)
  {
    forall p, a | p in h.tiles && a in w ensures !InUsable(h.tiles, p, a) {
      if InUsable(h.tiles, p, a) {
        UsableInArena(h.tiles, h.starts, h.ends, h.top, h.arena, p, a);
        assert false;
      }
    }
  }

  // A change outside the bytes of the segments keeps the chunks and the segments.
  lemma OutsideArena(h: Heap, h2: Heap, w: set<Addr>)
    requires CoreOk(h, {}) && SpaceOk(h) && SameExcept(h.mem, h2.mem, w) && forall a :: a in w ==> a !in h.arena
    requires h2 == h.(mem := h2.mem, direct := h2.direct, live := h2.live)
    requires DirectsOk(h2.mem, h2.arena, h2.direct)
    ensures CoreOk(h2, {}) && SpaceOk(h2)
  {
    hide Tiled, VictimOk, BinHolds, InArena, DirectsOk, SegmentOk, EndsKnown, SegmentsApart;
    CoreParts(h, {});
    forall p | p in h.tiles ensures TagsOf(h2.mem, h.tiles, h.top, p) {
      OutsideTags(h, h2, w, p);
    }
    forall i | 0 <= i < |h2.segs| ensures SegmentOk(h2, i) {
      assert SegmentOk(h, i);
      OutsideSegment(h, h2, w, i);
    }
    OutsideEnds(h, h2);
  }

  lemma OutsideEnds(h: Heap, h2: Heap)
    requires EndsKnown(h) && h2.ends == h.ends && h2.segs == h.segs && h2.top == h.top && h2.topsize == h.topsize
    ensures EndsKnown(h2)
  {
    forall e | e in h2.ends ensures exists i {:trigger EndOf(h2, i)} :: 0 <= i < |h2.segs| && EndOf(h2, i) == e {
      var i :| 0 <= i < |h.segs| && EndOf(h, i) == e;
      assert EndOf(h2, i) == e;
    }
  }

  lemma OutsideSegment(h: Heap, h2: Heap, w: set<Addr>, i: nat)
    requires i < |h.segs| && SegmentOk(h, i) && SameExcept(h.mem, h2.mem, w) && forall a :: a in w ==> a !in h.arena
    requires h2 == h.(mem := h2.mem, direct := h2.direct, live := h2.live)
    ensures SegmentOk(h2, i)
  {
    var s := h.segs[i];
    forall x: Addr | s.base <= x < s.base + s.size ensures At(h2.mem, x) == At(h.mem, x) {
      assert x in Range(s.base, s.base + s.size);
    }
    SegmentAgrees(h, h2, i, i);
  }

  lemma OutsideTags(h: Heap, h2: Heap, w: set<Addr>, p: Addr)
    requires Tiled(h.tiles, h.starts, h.ends, h.top) && Tagged(h.mem, h.tiles, h.top)
        && InArena(h.tiles, h.ends, h.arena)
    requires SameExcept(h.mem, h2.mem, w) && (forall a :: a in w ==> a !in h.arena) && p in h.tiles
    ensures TagsOf(h2.mem, h.tiles, h.top, p)
  {
    var t, n := h.tiles, Next(h.tiles, p);
    assert TileOk(t, h.ends, h.top, p) && TagsOf(h.mem, t, h.top, p);
    assert p in h.arena && n in h.arena by {
      assert n in t ==> TileOk(t, h.ends, h.top, n);
    }
    HeadInArena(h, p);
    if n in t {
      HeadInArena(h, n);
    } else {
      assert n + 8 in h.arena;
    }
  }

  lemma HeadInArena(h: Heap, p: Addr)
    requires Tiled(h.tiles, h.starts, h.ends, h.top) && InArena(h.tiles, h.ends, h.arena) && p in h.tiles
    ensures p + 8 in h.arena
  {
    assert TileOk(h.tiles, h.ends, h.top, p) && TileOk(h.tiles, h.ends, h.top, h.top);
    if Next(h.tiles, p) == p + 8 {
      assert p == h.top;
      assert Next(h.tiles, p) in h.arena;
    } else {
      assert p + 8 < Next(h.tiles, p);
    }
  }

  lemma MapDirects(h: Heap, h2: Heap, mm: Addr, p: Addr, size: nat)
    requires DirectsOk(h.mem, h.arena, h.direct) && DirectMapped(h, h2, mm, p, size) && Fresh(h, mm, p + size + 32 - mm)
    ensures DirectsOk(h2.mem, h2.arena, h2.direct) && p !in h.direct
    ensures OutsideDirects(h.direct, {mm, p, p + 8, p + size + 8, p + size + 16})
  {
    hide DirectsOk, DirectWrites, OutsideDirects, Aligned;
    var hi, w := p + size + 32, {mm, p, p + 8, p + size + 8, p + size + 16};
    DirectsOutsideArena(h.mem, h.arena, h.direct);
    assert w <= Range(mm, hi);
    BothOutside(h.direct, Range(mm, hi), Range(mm, hi), w);
    MapWrites(h, h2, mm, p, size);
    DirectsMoved(h.mem, h2.mem, w, h.arena, h.arena, h.direct);
    NewDirect(h, h2, mm, p, size);
  }

  lemma MapWrites(h: Heap, h2: Heap, mm: Addr, p: Addr, size: nat)
    requires DirectMapped(h, h2, mm, p, size) && Fresh(h, mm, p + size + 32 - mm)
    ensures SameExcept(h.mem, h2.mem, {mm, p, p + 8, p + size + 8, p + size + 16})
    ensures DirectOk(h2.mem, h.arena, p, Region(mm, size))
  {
  }

  lemma NewDirect(h: Heap, h2: Heap, mm: Addr, p: Addr, size: nat)
    requires DirectsOk(h.mem, h.arena, h.direct) && DirectsOk(h2.mem, h.arena, h.direct)
    requires DirectMapped(h, h2, mm, p, size) && Fresh(h, mm, p + size + 32 - mm)
    requires DirectOk(h2.mem, h.arena, p, Region(mm, size))
    ensures DirectsOk(h2.mem, h.arena, h.direct[p := Region(mm, size)]) && p !in h.direct
  {
    hide DirectMapped, Fresh, DirectsOk, DirectOk;
    forall q | q in h.direct
      ensures q != p && (RegionEnd(p, Region(mm, size)) <= h.direct[q].start || RegionEnd(q, h.direct[q]) <= mm)
    {
      NewApart(h, h2, mm, p, size, q);
    }
    OneMore(h2.mem, h.arena, h.direct, p, Region(mm, size));
  }

  lemma NewApart(h: Heap, h2: Heap, mm: Addr, p: Addr, size: nat, q: Addr)
    requires DirectsOk(h.mem, h.arena, h.direct) && q in h.direct
    requires DirectMapped(h, h2, mm, p, size) && Fresh(h, mm, p + size + 32 - mm)
    ensures q != p && (RegionEnd(p, Region(mm, size)) <= h.direct[q].start || RegionEnd(q, h.direct[q]) <= mm)
  {
    hide DirectWrites, Aligned, OutsideDirects;
    assert DirectOk(h.mem, h.arena, q, h.direct[q]);
    RegionApart(h.direct, q, mm, p + size + 32);
  }

  // One more block, apart from the others.
  lemma OneMore(m: Memory, arena: set<Addr>, direct: map<Addr, Region>, p: Addr, r: Region)
    requires DirectsOk(m, arena, direct) && DirectOk(m, arena, p, r)
    requires forall q :: q in direct && q != p ==>
        RegionEnd(p, r) <= direct[q].start || RegionEnd(q, direct[q]) <= r.start
    ensures DirectsOk(m, arena, direct[p := r])
  {
    forall q | q in direct && q != p ensures DirectOk(m, arena, q, direct[q]) {
    }
    hide DirectOk, RegionEnd;
  }

  // mmap_alloc keeps the invariant and disturbs no block.
  lemma DirectMapOk(h: Heap, h2: Heap, mm: Addr, p: Addr, size: nat)
    requires DirectMapped(h, h2, mm, p, size) && Fresh(h, mm, p + size + 32 - mm) && Ok(h)
    ensures p !in h.live && p in h2.live && p in h2.direct && p !in h2.tiles
    ensures Ok(h2) && InnerKept(h, h2) && Undisturbed(h, h2, h.live)
  {
    hide Ok, CoreOk, SpaceOk, Undisturbed, DirectMapped, Fresh, Tiled, Tagged, VictimOk, Binned;
    OkParts(h);
    CoreParts(h, {});
    ArenaOf(h);
    DirectsOf(h);
    MapDirects(h, h2, mm, p, size);
    MapUsers(h, h2, mm, p, size);
    OutsideArena(h, h2, {mm, p, p + 8, p + size + 8, p + size + 16});
    OkOf(h2);
  }

  lemma MapUsers(h: Heap, h2: Heap, mm: Addr, p: Addr, size: nat)
    requires UsersOk(h) && DirectMapped(h, h2, mm, p, size) && Fresh(h, mm, p + size + 32 - mm) && p !in h.direct
    requires Tiled(h.tiles, h.starts, h.ends, h.top) && InArena(h.tiles, h.ends, h.arena)
    requires OutsideDirects(h.direct, {mm, p, p + 8, p + size + 8, p + size + 16})
        && DirectsOk(h.mem, h.arena, h.direct)
    ensures UsersOk(h2) && InnerKept(h, h2) && Undisturbed(h, h2, h.live) && p !in h.live && p in h2.direct
        && p !in h2.tiles
    ensures SameExcept(h.mem, h2.mem, {mm, p, p + 8, p + size + 8, p + size + 16})
    ensures forall a :: a in {mm, p, p + 8, p + size + 8, p + size + 16} ==> a !in h.arena
    ensures h2 == h.(mem := h2.mem, direct := h2.direct, live := h2.live)
  {
    hide Tiled, InArena, Undisturbed, OutsideDirects, Aligned, DirectsOk;
    var w := {mm, p, p + 8, p + size + 8, p + size + 16};
    TilesInArena(h);
    DirectWordsOutside(h, mm, p + size + 32, w);
    hide SameExcept;
    NoneDisturbed(h, h2, w);
  }

  lemma TilesInArena(h: Heap)
    requires Tiled(h.tiles, h.starts, h.ends, h.top) && InArena(h.tiles, h.ends, h.arena)
    ensures forall p :: p in h.tiles ==> p in h.arena
  {
    forall p | p in h.tiles ensures p in h.arena {
      assert TileOk(h.tiles, h.ends, h.top, p);
    }
  }

  // ---- Unmapping a block ----

  ghost function UnmappedHeap(h: Heap, p: Addr): Heap {
    h.(direct := h.direct - {p}, live := h.live - {p})
  }

  ghost predicate DirectUnmapped(h: Heap, h2: Heap, p: Addr) {
    p in h.direct && h2 == UnmappedHeap(h, p)
  }

  lemma DirectUnmapOk(h: Heap, h2: Heap, p: Addr)
    requires DirectUnmapped(h, h2, p) && Ok(h)
    ensures Ok(h2) && InnerKept(h, h2) && Undisturbed(h, h2, h.live - {p})
  {
    hide Ok, CoreOk, SpaceOk, UsersOk, Undisturbed;
    OkParts(h);
    DirectsOf(h);
    FewerDirects(h.mem, h.arena, h.direct, p);
    UnmapUsers(h, h2, p);
    OutsideArena(h, h2, {});
    OkOf(h2);
  }

  lemma UnmapUsers(h: Heap, h2: Heap, p: Addr)
    requires DirectUnmapped(h, h2, p) && UsersOk(h)
    ensures UsersOk(h2) && InnerKept(h, h2) && Undisturbed(h, h2, h.live - {p})
  {
  }

  lemma FewerDirects(m: Memory, arena: set<Addr>, direct: map<Addr, Region>, p: Addr)
    requires DirectsOk(m, arena, direct)
    ensures DirectsOk(m, arena, direct - {p})
  {
    forall q | q in direct - {p} ensures DirectOk(m, arena, q, (direct - {p})[q]) {
      assert DirectOk(m, arena, q, direct[q]);
    }
  }

  // ---- memalign moves the start of a block inside its region ----

  ghost function ShiftedHeap(h: Heap, m: Memory, p: Addr, lead: nat): Heap
    requires p in h.direct && lead <= h.direct[p].size
  {
    var q := p + lead;
    h.(mem := m, direct := (h.direct - {p})[q := Region(h.direct[p].start, h.direct[p].size - lead)],
        live := h.live - {p} + {q})
  }

  ghost predicate DirectShifted(h: Heap, h2: Heap, p: Addr, lead: nat) {
    && p in h.direct && Aligned(lead) && 0 < lead && lead + MIN_CHUNK_SIZE <= h.direct[p].size
    && var q, r := p + lead, Region(h.direct[p].start, h.direct[p].size - lead);
    && Head(h2.mem, q) == Word(r.size, false, false) && Foot(h2.mem, q) == Foot(h.mem, p) + lead
    && SameExcept(h.mem, h2.mem, {q, q + 8})
    && h2 == ShiftedHeap(h, h2.mem, p, lead)
  }

  lemma ShiftedDirect(h: Heap, h2: Heap, p: Addr, lead: nat)
    requires DirectShifted(h, h2, p, lead) && DirectOk(h.mem, h.arena, p, h.direct[p])
    ensures DirectOk(h2.mem, h.arena, p + lead, Region(h.direct[p].start, h.direct[p].size - lead))
  {
    AlignedSum(p, lead);
    var size := h.direct[p].size;
    assert Aligned(size - lead);
    assert Head(h2.mem, p + size) == Head(h.mem, p + size) && Head(h2.mem, p + size + 8) == Head(h.mem, p + size + 8);
    assert RegionEnd(p + lead, Region(h.direct[p].start, size - lead)) == RegionEnd(p, h.direct[p]);
  }

  lemma OtherDirect(h: Heap, h2: Heap, p: Addr, lead: nat, q: Addr)
    requires DirectShifted(h, h2, p, lead) && DirectsOk(h.mem, h.arena, h.direct) && q in h.direct && q != p
    ensures DirectOk(h2.mem, h.arena, q, h.direct[q])
    ensures forall x :: InRegion(q, h.direct[q], x) ==> x !in {p + lead, p + lead + 8}
    ensures q != p + lead
  {
    assert DirectOk(h.mem, h.arena, q, h.direct[q]) && DirectOk(h.mem, h.arena, p, h.direct[p]);
    var w := {p + lead, p + lead + 8};
    assert forall x: Addr :: InRegion(q, h.direct[q], x) ==> !InRegion(p, h.direct[p], x);
    assert InRegion(p, h.direct[p], p + lead) && InRegion(p, h.direct[p], p + lead + 8);
    assert InRegion(q, h.direct[q], q);
    hide DirectsOk;
    DirectMoved(h.mem, h2.mem, w, h.arena, h.arena, q, h.direct[q]);
  }

  lemma ShiftDirects(h: Heap, h2: Heap, p: Addr, lead: nat)
    requires DirectShifted(h, h2, p, lead) && DirectsOk(h.mem, h.arena, h.direct)
    ensures DirectsOk(h2.mem, h2.arena, h2.direct) && p + lead !in h.direct
    ensures forall q, x :: q in h.direct && q != p && InRegion(q, h.direct[q], x) ==> x !in {p + lead, p + lead + 8}
    ensures p + lead !in h.arena && p + lead + 8 !in h.arena
  {
    assert DirectOk(h.mem, h.arena, p, h.direct[p]);
    ShiftedDirect(h, h2, p, lead);
    assert p + lead !in h.arena && p + lead + 8 !in h.arena;
    hide SameExcept, DirectOk, InRegion, DirectsOk;
    forall q | q in h.direct && q != p
      ensures DirectOk(h2.mem, h.arena, q, h.direct[q]) && q != p + lead
      ensures forall x :: InRegion(q, h.direct[q], x) ==> x !in {p + lead, p + lead + 8}
    {
      OtherDirect(h, h2, p, lead, q);
    }
    assert p + lead !in h.direct;
    ShiftedApart(h, h2, p, lead);
  }

  lemma ShiftedApart(h: Heap, h2: Heap, p: Addr, lead: nat)
    requires DirectShifted(h, h2, p, lead) && DirectsOk(h.mem, h.arena, h.direct) && p + lead !in h.direct
    requires DirectOk(h2.mem, h.arena, p + lead, Region(h.direct[p].start, h.direct[p].size - lead))
    requires forall q :: q in h.direct && q != p ==> DirectOk(h2.mem, h.arena, q, h.direct[q])
    ensures DirectsOk(h2.mem, h2.arena, h2.direct)
  {
    hide SameExcept, DirectOk, Aligned;
  }

  // The block moves up in its region, which stays the same; every other block is undisturbed.
  lemma DirectShiftOk(h: Heap, h2: Heap, p: Addr, lead: nat)
    requires DirectShifted(h, h2, p, lead) && Ok(h)
    ensures Ok(h2) && InnerKept(h, h2) && Undisturbed(h, h2, h.live - {p}) && p + lead !in h.live
  {
    hide Ok, CoreOk, SpaceOk, Tiled, Tagged, VictimOk, Binned, Undisturbed, DirectShifted;
    OkParts(h);
    CoreParts(h, {});
    ArenaOf(h);
    DirectsOf(h);
    ShiftDirects(h, h2, p, lead);
    ShiftUsers(h, h2, p, lead);
    OutsideArena(h, h2, {p + lead, p + lead + 8});
    OkOf(h2);
  }

  lemma ShiftUsers(h: Heap, h2: Heap, p: Addr, lead: nat)
    requires UsersOk(h) && DirectShifted(h, h2, p, lead) && p + lead !in h.direct
    requires Tiled(h.tiles, h.starts, h.ends, h.top) && InArena(h.tiles, h.ends, h.arena)
    requires DirectsOk(h.mem, h.arena, h.direct)
    requires forall q, x :: q in h.direct && q != p && InRegion(q, h.direct[q], x) ==> x !in {p + lead, p + lead + 8}
    requires p + lead !in h.arena && p + lead + 8 !in h.arena
    ensures UsersOk(h2) && InnerKept(h, h2) && Undisturbed(h, h2, h.live - {p}) && p + lead !in h.live
    ensures h2 == h.(mem := h2.mem, direct := h2.direct, live := h2.live)
        && SameExcept(h.mem, h2.mem, {p + lead, p + lead + 8})
  {
    hide Tiled, InArena, Aligned, DirectsOk;
    TilesInArena(h);
    StartsBelow(h.mem, h.arena, h.direct);
    forall q, a: Addr | q in h.live - {p} && OwnWord(h, q, a) ensures a !in {p + lead, p + lead + 8} {
      if q in h.tiles {
        UsableInArena(h.tiles, h.starts, h.ends, h.top, h.arena, q, a);
      } else {
        assert InRegion(q, h.direct[q], a);
      }
    }
  }

  // ---- The owner of a block writes its words ----

  ghost predicate Stored(h: Heap, h2: Heap, p: Addr, w: set<Addr>) {
    && p in h.live && (p in h.tiles || p in h.direct) && (forall a :: a in w ==> OwnWord(h, p, a))
    && SameExcept(h.mem, h2.mem, w) && h2 == h.(mem := h2.mem)
  }

  // Whatever the owner of a block writes in its words keeps the invariant and every other block.
  lemma StoreOk(h: Heap, h2: Heap, p: Addr, w: set<Addr>)
    requires Stored(h, h2, p, w) && Ok(h)
    ensures Ok(h2) && InnerKept(h, h2) && Undisturbed(h, h2, h.live - {p})
  {
    hide Ok, CoreOk, SpaceOk, Undisturbed, Tiled, Tagged, Binned, VictimOk, DirectsOk;
    OkParts(h);
    CoreParts(h, {});
    ArenaOf(h);
    DirectsOf(h);
    StoreOthers(h, h2, p, w);
    if p in h.tiles {
      StoreInChunk(h, h2, p, w);
    } else {
      StoreInRegion(h, h2, p, w);
    }
    OkOf(h2);
  }

  lemma StoreOthers(h: Heap, h2: Heap, p: Addr, w: set<Addr>)
    requires Stored(h, h2, p, w) && UsersOk(h) && DirectsOk(h.mem, h.arena, h.direct)
    requires Tiled(h.tiles, h.starts, h.ends, h.top) && InArena(h.tiles, h.ends, h.arena)
    ensures Undisturbed(h, h2, h.live - {p}) && UsersOk(h2)
  {
    hide Tiled, InArena, DirectsOk;
    forall q, a: Addr | q in h.live - {p} && OwnWord(h, q, a) ensures a !in w {
      if OwnWord(h, p, a) {
        OwnedOnce(h, p, q, a);
        assert false;
      }
    }
  }

  // No word has two owners.
  lemma OwnedOnce(h: Heap, p: Addr, q: Addr, a: Addr)
    requires UsersOk(h) && DirectsOk(h.mem, h.arena, h.direct)
    requires Tiled(h.tiles, h.starts, h.ends, h.top) && InArena(h.tiles, h.ends, h.arena)
    requires p in h.live && q in h.live && p != q && (p in h.tiles || p in h.direct) && (q in h.tiles || q in h.direct)
    requires OwnWord(h, p, a)
    ensures !OwnWord(h, q, a)
  {
    if OwnWord(h, q, a) {
      if p in h.tiles && q in h.tiles {
        ChunksOwnedOnce(h, p, q, a);
      } else {
        if p in h.tiles {
          UsableInArena(h.tiles, h.starts, h.ends, h.top, h.arena, p, a);
        }
        if q in h.tiles {
          UsableInArena(h.tiles, h.starts, h.ends, h.top, h.arena, q, a);
        }
        RegionsOwnedOnce(h, p, q, a);
      }
    }
  }

  lemma ChunksOwnedOnce(h: Heap, p: Addr, q: Addr, a: Addr)
    requires Tiled(h.tiles, h.starts, h.ends, h.top) && p in h.tiles && q in h.tiles && p != q
        && InUsable(h.tiles, p, a)
    ensures !InUsable(h.tiles, q, a)
  {
    assert TileOk(h.tiles, h.ends, h.top, p) && TileOk(h.tiles, h.ends, h.top, q);
  }

  lemma RegionsOwnedOnce(h: Heap, p: Addr, q: Addr, a: Addr)
    requires DirectsOk(h.mem, h.arena, h.direct) && p in h.live && q in h.live && p != q
    requires (p in h.tiles || p in h.direct) && (q in h.tiles || q in h.direct) && !(p in h.tiles && q in h.tiles)
    requires (p in h.tiles || q in h.tiles ==> a in h.arena) && OwnWord(h, p, a)
    ensures !OwnWord(h, q, a)
  {
    StartsBelow(h.mem, h.arena, h.direct);
    DirectsOutsideArena(h.mem, h.arena, h.direct);
    assert p !in h.tiles ==> InRegion(p, h.direct[p], a);
    assert q !in h.tiles ==> InRegion(q, h.direct[q], a) || !OwnWord(h, q, a);
  }

  lemma StoreInRegion(h: Heap, h2: Heap, p: Addr, w: set<Addr>)
    requires Stored(h, h2, p, w) && p !in h.tiles && CoreOk(h, {}) && SpaceOk(h)
    ensures CoreOk(h2, {}) && SpaceOk(h2)
  {
    hide CoreOk, SpaceOk;
    DirectsOf(h);
    StoreRegions(h, h2, p, w);
    OutsideArena(h, h2, w);
  }

  lemma StoreRegions(h: Heap, h2: Heap, p: Addr, w: set<Addr>)
    requires Stored(h, h2, p, w) && p !in h.tiles && DirectsOk(h.mem, h.arena, h.direct)
    ensures DirectsOk(h2.mem, h2.arena, h2.direct) && forall a :: a in w ==> a !in h.arena
  {
    StartsBelow(h.mem, h.arena, h.direct);
    DirectsOutsideArena(h.mem, h.arena, h.direct);
    assert forall a :: a in w ==> OwnWord(h, p, a) && InRegion(p, h.direct[p], a);
    forall q | q in h.direct ensures DirectOk(h2.mem, h.arena, q, h.direct[q]) {
      assert DirectOk(h.mem, h.arena, q, h.direct[q]);
      StoreRegion(h, h2, p, w, q);
    }
  }

  lemma StoreRegion(h: Heap, h2: Heap, p: Addr, w: set<Addr>, q: Addr)
    requires Stored(h, h2, p, w) && p !in h.tiles && q in h.direct && DirectOk(h.mem, h.arena, q, h.direct[q])
    requires RegionsApart(h.direct) && h.direct[p].start <= p
    ensures DirectOk(h2.mem, h.arena, q, h.direct[q])
  {
    var r := h.direct[q];
    assert forall a :: a in w ==> OwnWord(h, p, a);
    assert q !in w && q + 8 !in w && q + r.size + 8 !in w && q + r.size + 16 !in w;
    assert At(h2.mem, q) == At(h.mem, q) && Head(h2.mem, q) == Head(h.mem, q);
    assert Head(h2.mem, q + r.size) == Head(h.mem, q + r.size)
        && Head(h2.mem, q + r.size + 8) == Head(h.mem, q + r.size + 8);
  }

  lemma StoreInChunk(h: Heap, h2: Heap, p: Addr, w: set<Addr>)
    requires Stored(h, h2, p, w) && p in h.tiles && CoreOk(h, {}) && SpaceOk(h) && UsersOk(h)
    ensures CoreOk(h2, {}) && SpaceOk(h2)
  {
    hide Tiled, VictimOk, BinHolds, InArena, DirectsOk, SegmentOk, EndsKnown, SegmentsApart, UsersOk;
    CoreParts(h, {});
    assert h.tiles[p].used by {
      UsedChunk(h, p);
    }
    forall q | q in h.tiles ensures TagsOf(h2.mem, h.tiles, h.top, q) {
      StoreTags(h, h2, p, w, q);
    }
    forall i | 0 <= i < |h2.segs| ensures SegmentOk(h2, i) {
      assert SegmentOk(h, i);
      StoreSegment(h, h2, p, w, i);
    }
    OutsideEnds(h, h2);
    StoreDirects(h, h2, p, w);
  }

  lemma UsedChunk(h: Heap, p: Addr)
    requires UsersOk(h) && p in h.live && p in h.tiles
    ensures h.tiles[p].used
  {
  }

  lemma StoreTags(h: Heap, h2: Heap, p: Addr, w: set<Addr>, q: Addr)
    requires Stored(h, h2, p, w) && p in h.tiles && h.tiles[p].used && q in h.tiles
    requires Tiled(h.tiles, h.starts, h.ends, h.top) && Tagged(h.mem, h.tiles, h.top)
    ensures TagsOf(h2.mem, h.tiles, h.top, q)
  {
    var t, n := h.tiles, Next(h.tiles, q);
    assert TagsOf(h.mem, t, h.top, q) && TagsOf(h.mem, t, h.top, p);
    assert forall a :: a in w ==> InUsable(t, p, a) by {
      assert forall a :: a in w ==> OwnWord(h, p, a);
    }
    TagsUnowned(t, h.starts, h.ends, h.top, p, w, q);
    if !Head(h.mem, q).pinuse {
      assert Next(t, p) != q;
    }
  }

  // The words of a chunk in use are no tags, except for the prev_foot of the chunk after it.
  lemma TagsUnowned(t: Tiles, starts: set<Addr>, ends: set<Addr>, top: Addr, p: Addr, w: set<Addr>, q: Addr)
    requires Tiled(t, starts, ends, top) && p in t && q in t && t[p].used && forall a :: a in w ==> InUsable(t, p, a)
    ensures q + 8 !in w && Next(t, q) + 8 !in w && (Next(t, p) != q ==> q !in w) && (!t[q].used ==> Next(t, q) !in w)
  {
    hide Started;
    assert TileOk(t, ends, top, p) && TileOk(t, ends, top, q);
    var n := Next(t, q);
    if n in t {
      assert TileOk(t, ends, top, n);
    }
  }

  lemma StoreSegment(h: Heap, h2: Heap, p: Addr, w: set<Addr>, i: nat)
    requires Stored(h, h2, p, w) && p in h.tiles && i < |h.segs| && SegmentOk(h, i)
        && Tiled(h.tiles, h.starts, h.ends, h.top)
    ensures SegmentOk(h2, i)
  {
    var s, e := h.segs[i], EndOf(h, i);
    assert forall a :: a in w ==> OwnWord(h, p, a);
    assert EndOf(h2, i) == e;
    forall f: Addr | e <= f < s.base + s.size ensures Head(h2.mem, f) == Head(h.mem, f) {
      assert f + 8 !in w;
    }
  }

  lemma StoreDirects(h: Heap, h2: Heap, p: Addr, w: set<Addr>)
    requires Stored(h, h2, p, w) && p in h.tiles && Tiled(h.tiles, h.starts, h.ends, h.top)
    requires InArena(h.tiles, h.ends, h.arena) && DirectsOk(h.mem, h.arena, h.direct)
    ensures DirectsOk(h2.mem, h2.arena, h2.direct)
  {
    forall a | a in w ensures a in h.arena {
      assert OwnWord(h, p, a);
      UsableInArena(h.tiles, h.starts, h.ends, h.top, h.arena, p, a);
    }
    hide DirectsOk, Tiled, InArena;
    DirectsKept(h.mem, h2.mem, w, h.arena, h.direct);
  }
}
