// What getting memory from the system and giving it back does to the segments:
// the top chunk grows or shrinks with its segment, a segment is added,
// prepended to or released, and blocks are mapped directly. Each change keeps
// the invariant of the space and disturbs no block handed out.
module HeapSegments {
  import opened Tiling
  import opened HeapState
  import SmallBins

  // ---- What a change elsewhere leaves alone ----

  // Both states say the same of the bytes from lo to hi.
  ghost predicate AgreeOn(h: Heap, h2: Heap, lo: Addr, hi: Addr) {
    forall x: Addr :: lo <= x < hi ==>
      && (x in h.tiles <==> x in h2.tiles) && (x in h.tiles ==> h2.tiles[x] == h.tiles[x])
      && (x in h.starts ==> x in h2.starts) && (x in h.ends ==> x in h2.ends) && (x in h.inner ==> x in h2.inner)
      && (x in h.arena ==> x in h2.arena) && At(h2.mem, x) == At(h.mem, x)
  }

  lemma SegmentAgrees(h: Heap, h2: Heap, i: nat, j: nat)
    requires i < |h.segs| && j < |h2.segs| && h2.segs[j] == h.segs[i] && (i == 0 <==> j == 0)
    requires i == 0 ==> h2.top == h.top && h2.topsize == h.topsize
    requires SegmentOk(h, i) && AgreeOn(h, h2, h.segs[i].base, h.segs[i].base + h.segs[i].size)
    ensures SegmentOk(h2, j)
  {
    var s, e := h.segs[i], EndOf(h, i);
    assert EndOf(h2, j) == e;
    assert s.base in h2.starts && e in h2.ends;
    if i > 0 {
      assert s.record - TWO_WORDS in h2.tiles && s.record - TWO_WORDS in h2.inner;
      forall f: Addr | e <= f && f + TWO_WORDS <= s.base + s.size && Aligned(f) ensures Head(h2.mem, f) == FENCEPOST {
        assert Head(h.mem, f) == FENCEPOST;
        assert At(h2.mem, f + 8) == At(h.mem, f + 8);
      }
    } else {
      assert At(h2.mem, e + 8) == At(h.mem, e + 8);
    }
  }

  predicate InRegion(p: Addr, r: Region, x: Addr) {
    r.start <= x < RegionEnd(p, r)
  }

  // No byte of s is in the region of a directly mapped block.
  ghost predicate OutsideDirects(direct: map<Addr, Region>, s: set<Addr>) {
    forall p, x :: p in direct && InRegion(p, direct[p], x) ==> x !in s
  }

  lemma DirectMoved(m: Memory, m2: Memory, w: set<Addr>, arena: set<Addr>, arena2: set<Addr>, p: Addr, r: Region)
    requires DirectOk(m, arena, p, r) && SameExcept(m, m2, w)
    requires forall x: Addr :: InRegion(p, r, x) ==> x !in w && x !in arena2
    ensures DirectOk(m2, arena2, p, r)
  {
    assert InRegion(p, r, p) && InRegion(p, r, p + 8) && InRegion(p, r, p + r.size + 8)
        && InRegion(p, r, p + r.size + 16);
    assert At(m2, p) == At(m, p) && Head(m2, p) == Head(m, p);
    assert Head(m2, p + r.size) == Head(m, p + r.size) && Head(m2, p + r.size + 8) == Head(m, p + r.size + 8);
    forall x: Addr | r.start <= x < RegionEnd(p, r) ensures x !in arena2 && x < TWO64 {
      assert InRegion(p, r, x) && x !in arena;
    }
  }

  lemma DirectsMoved(m: Memory, m2: Memory, w: set<Addr>, arena: set<Addr>, arena2: set<Addr>,
      direct: map<Addr, Region>)
    requires DirectsOk(m, arena, direct) && SameExcept(m, m2, w)
    requires OutsideDirects(direct, w) && OutsideDirects(direct, arena2)
    ensures DirectsOk(m2, arena2, direct)
  {
    forall p | p in direct ensures DirectOk(m2, arena2, p, direct[p]) {
      assert DirectOk(m, arena, p, direct[p]);
      DirectMoved(m, m2, w, arena, arena2, p, direct[p]);
    }
  }

  lemma StartsBelow(m: Memory, arena: set<Addr>, direct: map<Addr, Region>)
    requires DirectsOk(m, arena, direct)
    ensures forall q :: q in direct ==> 0 < direct[q].start <= q
  {
    forall q | q in direct ensures 0 < direct[q].start <= q {
      assert DirectOk(m, arena, q, direct[q]);
    }
  }

  // A change that keeps every block, and writes none of their words.
  lemma NoneDisturbed(h: Heap, h2: Heap, w: set<Addr>)
    requires UsersOk(h) && SameExcept(h.mem, h2.mem, w) && OutsideDirects(h.direct, w)
    requires DirectsOk(h.mem, h.arena, h.direct)
    requires forall p :: p in h.live ==>
        p in h2.live && (p in h2.tiles <==> p in h.tiles) && (p in h2.direct <==> p in h.direct)
    requires forall p :: p in h.live && p in h.tiles ==> h2.tiles[p].size == h.tiles[p].size
    requires forall p :: p in h.live && p in h.direct ==> h2.direct[p] == h.direct[p]
    requires forall p, a :: p in h.live && p in h.tiles && a in w ==> !InUsable(h.tiles, p, a)
    ensures Undisturbed(h, h2, h.live)
  {
    StartsBelow(h.mem, h.arena, h.direct);
    hide DirectsOk;
    forall p, a: Addr | p in h.live && OwnWord(h, p, a) ensures a !in w {
      if p in h.tiles {
        assert InUsable(h.tiles, p, a);
      } else {
        assert InRegion(p, h.direct[p], a);
      }
    }
  }

  // ---- init_top after the segment of top grows or shrinks ----

  // All other chunks and ends beyond top lie at lim or after.
  ghost predicate ClearTo(t: Tiles, ends: set<Addr>, top: Addr, lim: Addr)
    requires top in t
  {
    && (forall p :: p in t ==> p <= top || lim <= p)
    && (forall e :: e in ends ==> e <= top || e == Next(t, top) || lim <= e)
  }

  lemma TopTiled(t: Tiles, starts: set<Addr>, ends: set<Addr>, top: Addr, e2: Addr, lim: Addr)
    requires Tiled(t, starts, ends, top) && ClearTo(t, ends, top, lim) && top < e2 && e2 + TWO_WORDS <= lim
        && Aligned(e2)
    requires Next(t, top) + TWO_WORDS <= lim
    ensures Tiled(t[top := Tile(e2 - top, false)], starts, ends - {Next(t, top)} + {e2}, top)
  {
    var t2, ends2 := t[top := Tile(e2 - top, false)], ends - {Next(t, top)} + {e2};
    forall p | p in t2 ensures TileOk(t2, ends2, top, p) {
      assert TileOk(t, ends, top, p) && TileOk(t, ends, top, top);
      TopTile(t, starts, ends, top, e2, lim, p);
    }
    TopApart(t, starts, ends, top, e2, lim);
    hide TileOk, Apart, Bounded, Started;
  }

  lemma TopTile(t: Tiles, starts: set<Addr>, ends: set<Addr>, top: Addr, e2: Addr, lim: Addr, p: Addr)
    requires Apart(t) && top in t && ClearTo(t, ends, top, lim) && top < e2 && e2 + TWO_WORDS <= lim && Aligned(e2)
    requires Next(t, top) + TWO_WORDS <= lim && p in t && TileOk(t, ends, top, p) && TileOk(t, ends, top, top)
    ensures TileOk(t[top := Tile(e2 - top, false)], ends - {Next(t, top)} + {e2}, top, p)
  {
    AlignedSum(e2, top);
    if p != top {
      assert Next(t, p) != Next(t, top);
    }
  }

  lemma TopApart(t: Tiles, starts: set<Addr>, ends: set<Addr>, top: Addr, e2: Addr, lim: Addr)
    requires Apart(t) && Bounded(t, ends) && Started(t, starts) && top in t && ClearTo(t, ends, top, lim)
    requires top < e2 && e2 + TWO_WORDS <= lim && Next(t, top) + TWO_WORDS <= lim
    ensures var t2 := t[top := Tile(e2 - top, false)];
      Apart(t2) && Bounded(t2, ends - {Next(t, top)} + {e2}) && Started(t2, starts)
  {
  }

  lemma TopTagged(m: Memory, m2: Memory, t: Tiles, starts: set<Addr>, ends: set<Addr>, top: Addr, e2: Addr, lim: Addr)
    requires Tiled(t, starts, ends, top) && ClearTo(t, ends, top, lim) && top < e2 && e2 + TWO_WORDS <= lim
    requires Tagged(m, t, top) && SameExcept(m, m2, {top + 8, e2 + 8})
    requires Head(m2, top) == Word(e2 - top, false, true) && !Head(m2, e2).pinuse
    ensures Tagged(m2, t[top := Tile(e2 - top, false)], top)
  {
    var t2 := t[top := Tile(e2 - top, false)];
    forall p | p in t2 ensures TagsOf(m2, t2, top, p) {
      assert TileOk(t, ends, top, p) && TagsOf(m, t, top, p);
      if p != top {
        TopTags(m, m2, t, starts, ends, top, e2, lim, p);
      }
    }
  }

  lemma TopTags(m: Memory, m2: Memory, t: Tiles, starts: set<Addr>, ends: set<Addr>, top: Addr, e2: Addr,
      lim: Addr, p: Addr)
    requires Tiled(t, starts, ends, top) && ClearTo(t, ends, top, lim) && top < e2 && e2 + TWO_WORDS <= lim
    requires p in t && p != top && TagsOf(m, t, top, p) && TagsOf(m, t, top, top) && TileOk(t, ends, top, p)
    requires SameExcept(m, m2, {top + 8, e2 + 8}) && Head(m2, top) == Word(e2 - top, false, true)
    ensures TagsOf(m2, t[top := Tile(e2 - top, false)], top, p)
  {
    assert Next(t, p) <= top || lim <= p;
    assert Aligned(p) && Aligned(t[p].size);
    if !Head(m, p).pinuse {
      var q := p - Foot(m, p);
      assert q in t && !t[q].used && Next(t, q) == p;
      assert q != top;
    }
  }

  function TopEnd(h: Heap): Addr {
    h.top + h.topsize + TOP_FOOT_SIZE
  }

  ghost function ResizedHeap(h: Heap, m: Memory, size: nat, arena: set<Addr>): Heap
    requires |h.segs| > 0 && h.segs[0].base <= h.top + size
  {
    var e2 := h.top + size;
    h.(mem := m, tiles := h.tiles[h.top := Tile(size, false)],
       ends := h.ends - {h.top + h.topsize} + {e2}, topsize := size,
       segs := h.segs[0 := h.segs[0].(size := e2 + TOP_FOOT_SIZE - h.segs[0].base)], arena := arena)
  }

  // init_top on the same top chunk with a new size; the segment of top ends where the top foot ends.
  ghost predicate TopResized(h: Heap, h2: Heap, size: nat) {
    var e2 := h.top + size;
    && |h.segs| > 0 && h.segs[0].base <= e2
    && SameExcept(h.mem, h2.mem, {h.top + 8, e2 + 8})
    && Head(h2.mem, h.top) == Word(size, false, true) && Head(h2.mem, e2) == Word(TOP_FOOT_SIZE, false, false)
    && h2 == ResizedHeap(h, h2.mem, size, h2.arena)
  }

  // The bytes between the old and the new end come from the system, or go back to it.
  ghost predicate ArenaResized(h: Heap, h2: Heap) {
    && (forall x :: x in h2.arena <==> (x in h.arena && !(TopEnd(h2) <= x < TopEnd(h))) || TopEnd(h) <= x < TopEnd(h2))
    && (forall x :: TopEnd(h) <= x < TopEnd(h2) ==> x !in h.arena) && TopEnd(h2) <= TWO64
    && OutsideDirects(h.direct, Range(TopEnd(h), TopEnd(h2)))
  }

  // The segment of top: its bytes end with the top foot, and all that is after top lies beyond it.
  lemma TopSegment(h: Heap)
    requires Tiled(h.tiles, h.starts, h.ends, h.top) && h.tiles[h.top].size == h.topsize && SpaceOk(h)
    ensures h.segs[0].base <= h.top && h.segs[0].base + h.segs[0].size == TopEnd(h)
    ensures forall p :: p in h.tiles && p > h.top ==> TopEnd(h) <= p
    ensures forall e :: e in h.ends && e > h.top && e != h.top + h.topsize ==> TopEnd(h) <= e
  {
    var s := h.segs[0];
    assert SegmentOk(h, 0);
    assert s.base in h.tiles && TileOk(h.tiles, h.ends, h.top, h.top);
    forall e | e in h.ends && e > h.top && e != h.top + h.topsize ensures TopEnd(h) <= e {
      var i :| 0 <= i < |h.segs| && EndOf(h, i) == e;
      assert i > 0 && SegmentOk(h, i);
    }
  }

  lemma TopClear(h: Heap, h2: Heap, size: nat)
    requires Tiled(h.tiles, h.starts, h.ends, h.top) && h.tiles[h.top].size == h.topsize && SpaceOk(h)
    requires TopResized(h, h2, size) && ArenaResized(h, h2)
    ensures ClearTo(h.tiles, h.ends, h.top, Max(TopEnd(h), TopEnd(h2)))
    ensures h.segs[0].base <= h.top && h.segs[0].base + h.segs[0].size == TopEnd(h)
  {
    TopSegment(h);
    hide EndsKnown, SegmentOk, SegmentsApart, Tagged;
    forall p | p in h.tiles && p > h.top ensures Max(TopEnd(h), TopEnd(h2)) <= p {
      assert TileOk(h.tiles, h.ends, h.top, p) && p in h.arena;
    }
    forall e | e in h.ends && e > h.top && e != h.top + h.topsize ensures Max(TopEnd(h), TopEnd(h2)) <= e {
      assert e in h.arena;
    }
  }

  lemma TopResizeSegment(h: Heap, h2: Heap, size: nat, i: nat)
    requires Tiled(h.tiles, h.starts, h.ends, h.top) && h.tiles[h.top].size == h.topsize && SpaceOk(h)
    requires TopResized(h, h2, size) && ArenaResized(h, h2) && 0 < size && Aligned(size)
    requires h.segs[0].base <= h.top && h.segs[0].base + h.segs[0].size == TopEnd(h)
    requires i < |h.segs| && ClearTo(h.tiles, h.ends, h.top, Max(TopEnd(h), TopEnd(h2)))
    ensures SegmentOk(h2, i)
  {
    hide EndsKnown, DirectsOk, InArena, OutsideDirects;
    if i == 0 {
      FirstResized(h, h2, size);
    } else {
      assert SegmentOk(h, i);
      var s := h.segs[i];
      BytesApart(h, h2, size, i);
      SegmentAgrees(h, h2, i, i);
    }
  }

  lemma BytesApart(h: Heap, h2: Heap, size: nat, i: nat)
    requires |h.segs| > 0 && 0 < i < |h.segs| && SegmentsApart(h.segs) && SegmentOk(h, i)
    requires TopResized(h, h2, size) && ArenaResized(h, h2)
    requires h.segs[0].base <= h.top && h.segs[0].base + h.segs[0].size == TopEnd(h)
    ensures AgreeOn(h, h2, h.segs[i].base, h.segs[i].base + h.segs[i].size)
    ensures h2.segs[0].base + h2.segs[0].size <= h.segs[i].base || h.segs[i].base + h.segs[i].size <= h2.segs[0].base
  {
    var s := h.segs[i];
    if TopEnd(h) <= s.base {
      assert s.base in Range(s.base, s.base + s.size) && s.base in h.arena;
      assert TopEnd(h2) <= s.base;
    }
  }

  lemma FirstResized(h: Heap, h2: Heap, size: nat)
    requires h.top in h.tiles && TileOk(h.tiles, h.ends, h.top, h.top) && |h.segs| > 0 && SegmentOk(h, 0)
    requires TopResized(h, h2, size) && ArenaResized(h, h2) && 0 < size && Aligned(size)
    requires h.segs[0].base <= h.top && h.segs[0].base + h.segs[0].size == TopEnd(h)
    requires ClearTo(h.tiles, h.ends, h.top, Max(TopEnd(h), TopEnd(h2)))
    ensures SegmentOk(h2, 0)
  {
    hide SameExcept, OutsideDirects;
    var s, s2 := h.segs[0], h2.segs[0];
    AlignedSum(h.top, size);
    AlignedSum(h.top + size, TOP_FOOT_SIZE);
    AlignedSum(h.top + size + TOP_FOOT_SIZE, s.base);
    hide Aligned, TileOk;
    assert EndOf(h2, 0) == h.top + size;
    forall x | x in Range(s2.base, s2.base + s2.size) ensures x in h2.arena {
      assert x < TopEnd(h) ==> x in Range(s.base, s.base + s.size);
    }
  }

  // Growing the top chunk into new memory after it, or giving the end of it back, keeps the invariant.
  lemma TopResizeOk(h: Heap, h2: Heap, size: nat)
    requires Ok(h) && TopResized(h, h2, size) && ArenaResized(h, h2) && 0 < size && Aligned(size)
    ensures Ok(h2) && InnerKept(h, h2) && Undisturbed(h, h2, h.live)
  {
    hide Ok, CoreOk, SpaceOk, Undisturbed, Tiled, Tagged, VictimOk, BinHolds, ClearTo, ArenaResized;
    OkParts(h);
    CoreParts(h, {});
    ChunkFacts(h, h.top);
    TopClear(h, h2, size);
    TopCore(h, h2, size);
    TopSpace(h, h2, size);
    TopUsers(h, h2, size);
    OkOf(h2);
  }

  lemma BinResized(t: Tiles, top: Addr, dv: Addr, b: map<Addr, nat>, n: nat, small: bool)
    requires BinHolds(t, top, dv, b, {}, small) && top in t
    ensures BinHolds(t[top := Tile(n, false)], top, dv, b, {}, small)
  {
  }

  lemma TopCore(h: Heap, h2: Heap, size: nat)
    requires CoreOk(h, {}) && TopResized(h, h2, size) && 0 < size && Aligned(h.top) && Aligned(size)
    requires ClearTo(h.tiles, h.ends, h.top, Max(TopEnd(h), TopEnd(h2)))
    ensures CoreOk(h2, {})
  {
    hide Tiled, Tagged, BinHolds, ClearTo, SameExcept;
    CoreParts(h, {});
    var e2, lim := h.top + size, Max(TopEnd(h), TopEnd(h2));
    AlignedSum(h.top, size);
    TopTiled(h.tiles, h.starts, h.ends, h.top, e2, lim);
    TopTagged(h.mem, h2.mem, h.tiles, h.starts, h.ends, h.top, e2, lim);
    BinResized(h.tiles, h.top, h.dv, h.small, size, true);
    BinResized(h.tiles, h.top, h.dv, h.large, size, false);
  }

  lemma TopSpace(h: Heap, h2: Heap, size: nat)
    requires CoreOk(h, {}) && SpaceOk(h) && TopResized(h, h2, size) && ArenaResized(h, h2) && 0 < size && Aligned(size)
    requires ClearTo(h.tiles, h.ends, h.top, Max(TopEnd(h), TopEnd(h2)))
    requires h.segs[0].base <= h.top && h.segs[0].base + h.segs[0].size == TopEnd(h)
    ensures SpaceOk(h2)
  {
    hide Tiled, Tagged, VictimOk, Binned, SegmentOk, ClearTo, InArena, EndsKnown, DirectsOk, SegmentsApart, CoreOk;
    CoreParts(h, {});
    TopEnds(h, h2, size);
    TopSegsApart(h, h2, size);
    TopArena(h, h2, size);
    TopDirects(h, h2, size);
    forall i | 0 <= i < |h2.segs| ensures SegmentOk(h2, i) {
      TopResizeSegment(h, h2, size, i);
    }
  }

  lemma TopEnds(h: Heap, h2: Heap, size: nat)
    requires EndsKnown(h) && TopResized(h, h2, size)
    ensures EndsKnown(h2)
  {
    forall e | e in h2.ends ensures exists i {:trigger EndOf(h2, i)} :: 0 <= i < |h2.segs| && EndOf(h2, i) == e {
      if e == h.top + size {
        assert EndOf(h2, 0) == e;
      } else {
        var i :| 0 <= i < |h.segs| && EndOf(h, i) == e;
        assert i > 0 && EndOf(h2, i) == e;
      }
    }
  }

  lemma TopSegsApart(h: Heap, h2: Heap, size: nat)
    requires SpaceOk(h) && TopResized(h, h2, size) && ArenaResized(h, h2)
    requires h.segs[0].base <= h.top && h.segs[0].base + h.segs[0].size == TopEnd(h)
    ensures SegmentsApart(h2.segs)
  {
    hide EndsKnown, DirectsOk, InArena, SameExcept, OutsideDirects;
    forall i, j | 0 <= i < j < |h2.segs|
      ensures h2.segs[i].base + h2.segs[i].size <= h2.segs[j].base
          || h2.segs[j].base + h2.segs[j].size <= h2.segs[i].base
    {
      if i == 0 {
        assert SegmentOk(h, j);
        BytesApart(h, h2, size, j);
      }
    }
  }

  lemma TopArena(h: Heap, h2: Heap, size: nat)
    requires Tiled(h.tiles, h.starts, h.ends, h.top) && h.tiles[h.top].size == h.topsize
        && InArena(h.tiles, h.ends, h.arena)
    requires TopResized(h, h2, size) && ArenaResized(h, h2)
    requires ClearTo(h.tiles, h.ends, h.top, Max(TopEnd(h), TopEnd(h2)))
    requires |h.segs| > 0 && SegmentOk(h, 0) && h.segs[0].base <= h.top && h.segs[0].base + h.segs[0].size == TopEnd(h)
    ensures InArena(h2.tiles, h2.ends, h2.arena)
  {
    hide SameExcept, OutsideDirects, TileOk, Aligned;
    var s, e2 := h.segs[0], h.top + size;
    forall x: Addr | h.top <= x < TopEnd(h2) ensures x in h2.arena {
      assert x < TopEnd(h) ==> x in Range(s.base, s.base + s.size);
    }
    forall p, x: Addr | p in h2.tiles && p <= x < Next(h2.tiles, p) ensures x in h2.arena {
      if p != h.top {
        assert p <= x < Next(h.tiles, p) && x in h.arena;
      }
    }
    forall e, x: Addr | e in h2.ends && e <= x < e + TWO_WORDS ensures x in h2.arena {
      if e != e2 {
        assert x in h.arena;
        assert e < h.top ==> e + TWO_WORDS <= h.top;
      }
    }
  }

  lemma DirectsOutsideArena(m: Memory, arena: set<Addr>, direct: map<Addr, Region>)
    requires DirectsOk(m, arena, direct)
    ensures OutsideDirects(direct, arena)
  {
    forall p, x | p in direct && InRegion(p, direct[p], x) ensures x !in arena {
      assert DirectOk(m, arena, p, direct[p]);
    }
  }

  lemma TopDirects(h: Heap, h2: Heap, size: nat)
    requires h.top in h.tiles && InArena(h2.tiles, h2.ends, h2.arena)
    requires TopResized(h, h2, size) && ArenaResized(h, h2) && size >= 8 && DirectsOk(h.mem, h.arena, h.direct)
    ensures DirectsOk(h2.mem, h2.arena, h2.direct)
  {
    hide DirectsOk, SameExcept;
    DirectsOutsideArena(h.mem, h.arena, h.direct);
    var w := {h.top + 8, h.top + size + 8};
    assert h2.arena <= h.arena + Range(TopEnd(h), TopEnd(h2));
    assert OutsideDirects(h.direct, h2.arena);
    TopOutside(h, h2, size);
    DirectsMoved(h.mem, h2.mem, w, h.arena, h2.arena, h.direct);
  }

  lemma TopUsers(h: Heap, h2: Heap, size: nat)
    requires CoreOk(h, {}) && SpaceOk(h) && UsersOk(h) && TopResized(h, h2, size) && ArenaResized(h, h2)
    requires SpaceOk(h2) && size >= 8
    requires ClearTo(h.tiles, h.ends, h.top, Max(TopEnd(h), TopEnd(h2)))
    ensures UsersOk(h2) && InnerKept(h, h2) && Undisturbed(h, h2, h.live)
  {
    hide Tagged, SpaceOk, BinHolds, VictimOk, Undisturbed, TileOk, ArenaResized;
    var w := {h.top + 8, h.top + size + 8};
    ArenaOf(h2);
    DirectsOf(h2);
    DirectsOf(h);
    TopOutside(h, h2, size);
    TopUnused(h, w, size);
    hide Tiled, InArena, ClearTo, DirectsOk;
    NoneDisturbed(h, h2, w);
  }

  lemma TopUnused(h: Heap, w: set<Addr>, size: nat)
    requires CoreOk(h, {}) && UsersOk(h) && w == {h.top + 8, h.top + size + 8} && size >= 8
    requires ClearTo(h.tiles, h.ends, h.top, h.top + size)
    ensures forall p, a :: p in h.live && p in h.tiles && a in w ==> !InUsable(h.tiles, p, a)
  {
    hide Tagged, SpaceOk, BinHolds, VictimOk, TileOk;
    forall p, a | p in h.live && p in h.tiles && a in w ensures !InUsable(h.tiles, p, a) {
      assert p != h.top;
    }
  }

  lemma TopOutside(h: Heap, h2: Heap, size: nat)
    requires DirectsOk(h.mem, h.arena, h.direct) && TopResized(h, h2, size) && ArenaResized(h, h2)
    requires InArena(h2.tiles, h2.ends, h2.arena) && h.top in h.tiles && size >= 8
    ensures OutsideDirects(h.direct, {h.top + 8, h.top + size + 8})
  {
    hide DirectsOk, SameExcept;
    DirectsOutsideArena(h.mem, h.arena, h.direct);
    assert h2.arena <= h.arena + Range(TopEnd(h), TopEnd(h2));
    assert h.top + size in h2.ends && h.top + size + 8 in h2.arena;
    assert h.top in h2.tiles && Next(h2.tiles, h.top) == h.top + size;
    assert h.top + 8 in h2.arena;
    assert {h.top + 8, h.top + size + 8} <= h2.arena;
  }

  // ---- add_segment ----

  // Where the record of the old segment goes: at the end of old top, or at its start when it is too small to be a
  // chunk.
  function RecordChunk(h: Heap): Addr {
    if h.topsize < MIN_CHUNK_SIZE then h.top else h.top + h.topsize
  }

  // What the record leaves of the old top is free, the record is in use, and top is the whole new segment.
  function AddedTiles(t: Tiles, top: Addr, csp: Addr, tbase: Addr, size: nat): Tiles
    requires top <= csp
  {
    var t1 := if csp == top then t else t[top := Tile(csp - top, false)];
    t1[csp := Tile(SEGMENT_RECORD_SIZE, true)][tbase := Tile(size, false)]
  }

  // The range from lo to hi lies between the chunks and ends.
  ghost predicate Away(t: Tiles, ends: set<Addr>, lo: Addr, hi: Addr) {
    && (forall p :: p in t ==> if p < lo then Next(t, p) <= lo else hi <= p)
    && (forall e :: e in ends ==> if e < lo then e + TWO_WORDS <= lo else hi <= e)
  }

  // Only top lies between its start and the end of its segment.
  ghost predicate TopLast(t: Tiles, ends: set<Addr>, top: Addr, lim: Addr)
    requires top in t
  {
    && (forall p :: p in t && p > top ==> lim <= p)
    && (forall e :: e in ends && e > top && e != Next(t, top) ==> lim <= e)
    && Next(t, top) + TOP_FOOT_SIZE == lim
  }

  ghost predicate Placed(top: Addr, lim: Addr, csp: Addr, tbase: Addr, size: nat) {
    && Aligned(csp) && (csp == top || csp >= top + MIN_CHUNK_SIZE) && csp + TOP_FOOT_SIZE <= lim
    && tbase > 0 && Aligned(tbase) && Aligned(size) && size > 0
    && (lim <= tbase || tbase + size + TOP_FOOT_SIZE <= top)
  }

  function AddedEnds(ends: set<Addr>, e: Addr, csp: Addr, e2: Addr): set<Addr> {
    ends - {e} + {csp + SEGMENT_RECORD_SIZE, e2}
  }

  lemma AddTile(t: Tiles, ends: set<Addr>, top: Addr, lim: Addr, csp: Addr, tbase: Addr, size: nat, p: Addr)
    requires Apart(t) && top in t && TopLast(t, ends, top, lim) && Placed(top, lim, csp, tbase, size)
    requires Away(t, ends, tbase, tbase + size + TOP_FOOT_SIZE) && p in t && TileOk(t, ends, top, p) && p != top
    ensures TileOk(AddedTiles(t, top, csp, tbase, size), AddedEnds(ends, Next(t, top), csp, tbase + size), tbase, p)
  {
    hide Aligned;
    assert Next(t, p) <= top || lim <= p;
    assert p != csp && p != tbase;
  }

  lemma AddNewTiles(t: Tiles, ends: set<Addr>, top: Addr, lim: Addr, csp: Addr, tbase: Addr, size: nat, p: Addr)
    requires top in t && TopLast(t, ends, top, lim) && Placed(top, lim, csp, tbase, size)
    requires TileOk(t, ends, top, top) && p in {top, csp, tbase}
    ensures TileOk(AddedTiles(t, top, csp, tbase, size), AddedEnds(ends, Next(t, top), csp, tbase + size), tbase, p)
  {
    AlignedSum(csp, top);
    AlignedSum(csp, SEGMENT_RECORD_SIZE);
    var t2 := AddedTiles(t, top, csp, tbase, size);
    hide Aligned;
    assert Next(t2, csp) == csp + SEGMENT_RECORD_SIZE && Next(t2, tbase) == tbase + size;
    assert csp != top ==> Next(t2, top) == csp;
    assert Aligned(SEGMENT_RECORD_SIZE);
  }

  // One chunk of the new tiling: where it is and where it ends.
  lemma AddedAt(t: Tiles, ends: set<Addr>, top: Addr, lim: Addr, csp: Addr, tbase: Addr, size: nat, p: Addr)
    requires Apart(t) && top in t && t[top].size > 0 && TopLast(t, ends, top, lim) && Placed(top, lim, csp, tbase, size)
    requires Away(t, ends, tbase, tbase + size + TOP_FOOT_SIZE) && p in AddedTiles(t, top, csp, tbase, size)
    ensures var t2 := AddedTiles(t, top, csp, tbase, size);
      if p == csp then Next(t2, p) == csp + SEGMENT_RECORD_SIZE
      else if p == tbase then Next(t2, p) == tbase + size
      else if p == top then Next(t2, p) == csp && p < csp
      else p in t && t2[p] == t[p] && (if p < top then Next(t2, p) <= top else lim <= p)
           && (if p < tbase then Next(t2, p) <= tbase else tbase + size + TOP_FOOT_SIZE <= p)
  {
    hide Aligned;
  }

  lemma AddApart(t: Tiles, ends: set<Addr>, top: Addr, lim: Addr, csp: Addr, tbase: Addr, size: nat)
    requires Apart(t) && top in t && t[top].size > 0 && TopLast(t, ends, top, lim) && Placed(top, lim, csp, tbase, size)
    requires Away(t, ends, tbase, tbase + size + TOP_FOOT_SIZE)
    ensures Apart(AddedTiles(t, top, csp, tbase, size))
  {
    hide Aligned, AddedTiles, TopLast, Away;
    var t2 := AddedTiles(t, top, csp, tbase, size);
    forall p, q | p in t2 && q in t2 && p < q ensures Next(t2, p) <= q {
      AddedAt(t, ends, top, lim, csp, tbase, size, p);
      AddedAt(t, ends, top, lim, csp, tbase, size, q);
    }
  }

  lemma AddBounded(t: Tiles, ends: set<Addr>, top: Addr, lim: Addr, csp: Addr, tbase: Addr, size: nat)
    requires Apart(t) && top in t && t[top].size > 0 && TopLast(t, ends, top, lim) && Placed(top, lim, csp, tbase, size)
    requires Away(t, ends, tbase, tbase + size + TOP_FOOT_SIZE) && Bounded(t, ends)
    ensures Bounded(AddedTiles(t, top, csp, tbase, size), AddedEnds(ends, Next(t, top), csp, tbase + size))
  {
    hide Aligned, AddedTiles, Apart;
    var t2, ends2 := AddedTiles(t, top, csp, tbase, size), AddedEnds(ends, Next(t, top), csp, tbase + size);
    forall p, e | p in t2 && e in ends2 ensures if p < e then Next(t2, p) <= e else e + TWO_WORDS <= p {
      AddedAt(t, ends, top, lim, csp, tbase, size, p);
    }
  }

  lemma AddStarted(t: Tiles, starts: set<Addr>, ends: set<Addr>, top: Addr, lim: Addr, csp: Addr,
      tbase: Addr, size: nat)
    requires Apart(t) && top in t && t[top].size > 0 && TopLast(t, ends, top, lim) && Placed(top, lim, csp, tbase, size)
    requires Away(t, ends, tbase, tbase + size + TOP_FOOT_SIZE) && Started(t, starts)
    requires forall p :: p in t ==> Next(t, p) in t || Next(t, p) in ends
    ensures Started(AddedTiles(t, top, csp, tbase, size), starts + {tbase})
  {
    hide Aligned, Apart;
    var t2 := AddedTiles(t, top, csp, tbase, size);
    forall s, p | s in starts + {tbase} && p in t2 ensures Next(t2, p) != s {
      AddedAt(t, ends, top, lim, csp, tbase, size, p);
    }
  }

  lemma AddTiled(t: Tiles, starts: set<Addr>, ends: set<Addr>, top: Addr, lim: Addr, csp: Addr, tbase: Addr, size: nat)
    requires Tiled(t, starts, ends, top) && TopLast(t, ends, top, lim) && Placed(top, lim, csp, tbase, size)
    requires Away(t, ends, tbase, tbase + size + TOP_FOOT_SIZE)
    ensures Tiled(AddedTiles(t, top, csp, tbase, size), starts + {tbase},
        AddedEnds(ends, Next(t, top), csp, tbase + size), tbase)
  {
    var t2, ends2 := AddedTiles(t, top, csp, tbase, size), AddedEnds(ends, Next(t, top), csp, tbase + size);
    assert TileOk(t, ends, top, top);
    assert forall p :: p in t ==> TileOk(t, ends, top, p);
    AddApart(t, ends, top, lim, csp, tbase, size);
    AddBounded(t, ends, top, lim, csp, tbase, size);
    AddStarted(t, starts, ends, top, lim, csp, tbase, size);
    hide Bounded, Started, TopLast, Placed, Away, Aligned;
    forall p | p in t2 ensures TileOk(t2, ends2, tbase, p) {
      if p in {top, csp, tbase} {
        AddNewTiles(t, ends, top, lim, csp, tbase, size, p);
      } else {
        assert TileOk(t, ends, top, p);
        AddTile(t, ends, top, lim, csp, tbase, size, p);
      }
    }
  }

  function AddedWords(top: Addr, csp: Addr, lim: Addr, tbase: Addr, size: nat): set<Addr> {
    {top + 8, tbase + 8, tbase + size + 8} + Range(if csp == top then csp + 8 else csp, lim)
  }

  ghost predicate AddWrites(m: Memory, m2: Memory, top: Addr, csp: Addr, lim: Addr, tbase: Addr, size: nat)
    requires top <= csp
  {
    && SameExcept(m, m2, AddedWords(top, csp, lim, tbase, size))
    && Head(m2, tbase) == Word(size, false, true) && Head(m2, tbase + size) == Word(TOP_FOOT_SIZE, false, false)
    && Head(m2, csp) == Word(SEGMENT_RECORD_SIZE, true, csp == top) && Fenced(m2, csp + SEGMENT_RECORD_SIZE, lim)
    && (csp != top ==> Head(m2, top) == Word(csp - top, false, true) && Foot(m2, csp) == csp - top)
  }

  lemma AddTags(m: Memory, m2: Memory, t: Tiles, ends: set<Addr>, top: Addr, lim: Addr, csp: Addr, tbase: Addr,
      size: nat, p: Addr)
    requires Apart(t) && Bounded(t, ends) && top in t && t[top].size > 0
    requires TopLast(t, ends, top, lim) && Placed(top, lim, csp, tbase, size)
    requires Away(t, ends, tbase, tbase + size + TOP_FOOT_SIZE) && AddWrites(m, m2, top, csp, lim, tbase, size)
    requires p in t && TileOk(t, ends, top, p) && p != top && TagsOf(m, t, top, p) && TagsOf(m, t, top, top)
        && !t[top].used
    ensures TagsOf(m2, AddedTiles(t, top, csp, tbase, size), tbase, p)
  {
    hide AddWrites, Fenced, AddedWords, Aligned, Placed, Away, TileOk, AddedTiles, Apart, Bounded;
    OldWords(m, m2, t, ends, top, lim, csp, tbase, size, p);
    AddedAt2(t, ends, top, lim, csp, tbase, size);
    PlacedChunks(t, ends, top, lim, csp, tbase, size, p);
    assert Next(t, p) == top ==> t[p].used;
    SameTags(m, m2, t, AddedTiles(t, top, csp, tbase, size), top, tbase, p);
  }

  lemma PlacedChunks(t: Tiles, ends: set<Addr>, top: Addr, lim: Addr, csp: Addr, tbase: Addr, size: nat, p: Addr)
    requires Apart(t) && top in t && t[top].size > 0 && TopLast(t, ends, top, lim) && Placed(top, lim, csp, tbase, size)
    requires Away(t, ends, tbase, tbase + size + TOP_FOOT_SIZE) && p in t
    ensures p != tbase && Next(t, top) != p && top <= csp
  {
  }

  // The tags of a chunk are right if its words and the chunks around it are the same.
  lemma SameTags(m: Memory, m2: Memory, t: Tiles, t2: Tiles, top: Addr, top2: Addr, p: Addr)
    requires p in t && p in t2 && t2[p] == t[p] && p != top && p != top2 && TagsOf(m, t, top, p)
    requires Head(m2, p) == Head(m, p) && Foot(m2, p) == Foot(m, p)
    requires Foot(m2, Next(t, p)) == Foot(m, Next(t, p)) && Head(m2, Next(t, p)).pinuse == Head(m, Next(t, p)).pinuse
    requires forall q :: q in t && Next(t, q) == p ==> q in t2 && t2[q] == t[q]
    ensures TagsOf(m2, t2, top2, p)
  {
  }

  lemma AddedAt2(t: Tiles, ends: set<Addr>, top: Addr, lim: Addr, csp: Addr, tbase: Addr, size: nat)
    requires top in t && TopLast(t, ends, top, lim) && Placed(top, lim, csp, tbase, size)
    requires Away(t, ends, tbase, tbase + size + TOP_FOOT_SIZE)
    ensures forall p :: p in t && p != top ==>
        p in AddedTiles(t, top, csp, tbase, size) && AddedTiles(t, top, csp, tbase, size)[p] == t[p]
  {
    hide Aligned;
  }

  // The tags of an old chunk are not written, but for the head of top after it, whose pinuse bit stays.
  lemma OldWords(m: Memory, m2: Memory, t: Tiles, ends: set<Addr>, top: Addr, lim: Addr, csp: Addr, tbase: Addr,
      size: nat, p: Addr)
    requires Apart(t) && Bounded(t, ends) && top in t && t[top].size > 0
    requires TopLast(t, ends, top, lim) && Placed(top, lim, csp, tbase, size)
    requires Away(t, ends, tbase, tbase + size + TOP_FOOT_SIZE) && AddWrites(m, m2, top, csp, lim, tbase, size)
    requires p in t && TileOk(t, ends, top, p) && p != top
    ensures Head(m2, p) == Head(m, p) && Foot(m2, p) == Foot(m, p) && Foot(m2, Next(t, p)) == Foot(m, Next(t, p))
    ensures if Next(t, p) == top then Head(m2, top).pinuse else Head(m2, Next(t, p)) == Head(m, Next(t, p))
  {
    var n, w := Next(t, p), AddedWords(top, csp, lim, tbase, size);
    assert n <= top || lim <= p;
    assert n in t || n in ends;
    assert t[p].size >= 32;
    hide Aligned, Fenced;
    assert p !in w && p + 8 !in w;
    assert n !in w && (n != top ==> n + 8 !in w);
  }

  lemma AddNewTags(m: Memory, m2: Memory, t: Tiles, top: Addr, lim: Addr, csp: Addr, tbase: Addr, size: nat, p: Addr)
    requires top in t && Placed(top, lim, csp, tbase, size) && AddWrites(m, m2, top, csp, lim, tbase, size)
    requires p in {top, csp, tbase} && TagsOf(m, t, top, top) && !t[top].used
    ensures TagsOf(m2, AddedTiles(t, top, csp, tbase, size), tbase, p)
  {
    var t2 := AddedTiles(t, top, csp, tbase, size);
    var e := csp + SEGMENT_RECORD_SIZE;
    AlignedSum(csp, SEGMENT_RECORD_SIZE);
    assert Aligned(SEGMENT_RECORD_SIZE);
    hide Aligned, SameExcept;
    assert Head(m2, e) == FENCEPOST;
    assert Next(t2, csp) == e && Next(t2, tbase) == tbase + size && (csp != top ==> Next(t2, top) == csp);
  }

  lemma AddTagged(m: Memory, m2: Memory, t: Tiles, starts: set<Addr>, ends: set<Addr>, top: Addr, lim: Addr,
      csp: Addr, tbase: Addr, size: nat)
    requires Tiled(t, starts, ends, top) && TopLast(t, ends, top, lim) && Placed(top, lim, csp, tbase, size)
    requires Away(t, ends, tbase, tbase + size + TOP_FOOT_SIZE)
    requires Tagged(m, t, top) && AddWrites(m, m2, top, csp, lim, tbase, size)
    ensures Tagged(m2, AddedTiles(t, top, csp, tbase, size), tbase)
  {
    var t2 := AddedTiles(t, top, csp, tbase, size);
    assert TileOk(t, ends, top, top) && TagsOf(m, t, top, top);
    assert t[top].size > 0;
    hide Apart, Bounded, Started, TopLast, Placed, Away, Aligned, AddWrites;
    forall p | p in t2 ensures TagsOf(m2, t2, tbase, p) {
      if p in {top, csp, tbase} {
        AddNewTags(m, m2, t, top, lim, csp, tbase, size, p);
      } else {
        assert TileOk(t, ends, top, p) && TagsOf(m, t, top, p);
        AddTags(m, m2, t, ends, top, lim, csp, tbase, size, p);
      }
    }
  }

  // Memory fresh from the system: whole and aligned, and neither in the segments nor in directly mapped regions.
  ghost predicate Fresh(h: Heap, tbase: Addr, tsize: nat) {
    && tbase > 0 && Aligned(tbase) && Aligned(tsize) && tbase + tsize <= TWO64
    && (forall x :: tbase <= x < tbase + tsize ==> x !in h.arena)
    && OutsideDirects(h.direct, Range(tbase, tbase + tsize))
  }

  ghost function AddedHeap(h: Heap, m: Memory, tbase: Addr, tsize: nat, mmapped: bool): Heap
    requires tsize > TOP_FOOT_SIZE && |h.segs| > 0
  {
    var csp, size := RecordChunk(h), tsize - TOP_FOOT_SIZE;
    h.(mem := m, tiles := AddedTiles(h.tiles, h.top, csp, tbase, size), starts := h.starts + {tbase},
       ends := AddedEnds(h.ends, h.top + h.topsize, csp, tbase + size), top := tbase, topsize := size,
       small := if csp == h.top then h.small else PutSmall(h.small, h.top, csp - h.top),
       large := if csp == h.top then h.large else PutLarge(h.large, h.top, csp - h.top),
       segs := [Segment(tbase, tsize, 0, mmapped, false)] + [h.segs[0].(record := csp + TWO_WORDS)] + h.segs[1..],
       arena := h.arena + Range(tbase, tbase + tsize), inner := h.inner + {csp})
  }

  ghost predicate SegmentAdded(h: Heap, h2: Heap, tbase: Addr, tsize: nat, mmapped: bool) {
    && tsize > TOP_FOOT_SIZE && |h.segs| > 0
    && AddWrites(h.mem, h2.mem, h.top, RecordChunk(h), TopEnd(h), tbase, tsize - TOP_FOOT_SIZE)
    && h2 == AddedHeap(h, h2.mem, tbase, tsize, mmapped)
  }

  // The record fits: it starts at old top or leaves a chunk before it, and the rest of the old segment holds the record
  // chunk and at least two fenceposts.
  lemma RecordFits(h: Heap)
    requires 0 < h.topsize && Aligned(h.top) && Aligned(h.topsize)
    ensures var csp := RecordChunk(h);
      && Aligned(csp) && (csp == h.top || csp >= h.top + MIN_CHUNK_SIZE)
      && csp + SEGMENT_RECORD_SIZE + 4 * 8 <= TopEnd(h) && csp + TOP_FOOT_SIZE <= TopEnd(h)
  {
    AlignedSum(h.top, h.topsize);
  }

  lemma FreshAway(h: Heap, tbase: Addr, tsize: nat)
    requires Tiled(h.tiles, h.starts, h.ends, h.top) && InArena(h.tiles, h.ends, h.arena)
        && Fresh(h, tbase, tsize) && tsize > 0
    ensures Away(h.tiles, h.ends, tbase, tbase + tsize)
  {
    forall p | p in h.tiles ensures if p < tbase then Next(h.tiles, p) <= tbase else tbase + tsize <= p {
      assert TileOk(h.tiles, h.ends, h.top, p) && p in h.arena;
      assert p < tbase < Next(h.tiles, p) ==> tbase in h.arena;
    }
    forall e | e in h.ends ensures if e < tbase then e + TWO_WORDS <= tbase else tbase + tsize <= e {
      assert e in h.arena;
      assert e < tbase < e + TWO_WORDS ==> tbase in h.arena;
    }
  }

  // Where the new segment is.
  lemma AddPlace(h: Heap, tbase: Addr, tsize: nat)
    requires CoreOk(h, {}) && SpaceOk(h) && Fresh(h, tbase, tsize) && tsize > TOP_FOOT_SIZE
    ensures TopLast(h.tiles, h.ends, h.top, TopEnd(h)) && Away(h.tiles, h.ends, tbase, tbase + tsize)
    ensures Placed(h.top, TopEnd(h), RecordChunk(h), tbase, tsize - TOP_FOOT_SIZE)
    ensures h.segs[0].base <= h.top && h.segs[0].base + h.segs[0].size == TopEnd(h)
    ensures TopEnd(h) <= tbase || tbase + tsize <= h.segs[0].base
  {
    hide Tagged, VictimOk, Binned, SegmentsApart, EndsKnown, Apart, Bounded, Started;
    TopSegment(h);
    ArenaOf(h);
    ChunkFacts(h, h.top);
    RecordFits(h);
    FreshAway(h, tbase, tsize);
    AlignedSum(tsize, TOP_FOOT_SIZE);
    assert SegmentOk(h, 0);
    RangeApart(h.arena, h.segs[0].base, TopEnd(h), tbase, tbase + tsize);
  }

  lemma RangeApart(arena: set<Addr>, lo: Addr, hi: Addr, tbase: Addr, tend: Addr)
    requires Range(lo, hi) <= arena && lo < hi && tbase < tend && forall x :: tbase <= x < tend ==> x !in arena
    ensures hi <= tbase || tend <= lo
  {
    var x := Max(lo, tbase);
    assert lo <= x < hi ==> x in Range(lo, hi);
  }

  lemma BinAdded(t: Tiles, top: Addr, dv: Addr, b: map<Addr, nat>, csp: Addr, tbase: Addr, size: nat, small: bool)
    requires BinHolds(t, top, dv, b, {}, small) && top in t && !t[top].used && top <= csp && tbase != top
        && tbase != csp
    requires (csp == top || csp !in t) && tbase !in t && dv != top && dv != tbase && 0 !in t
    ensures BinHolds(AddedTiles(t, top, csp, tbase, size), tbase, dv, b, if csp == top then {} else {top}, small)
  {
    hide SmallBins.IsSmall;
  }

  lemma AddCoreTiles(h: Heap, h2: Heap, tbase: Addr, tsize: nat, mmapped: bool)
    requires Tiled(h.tiles, h.starts, h.ends, h.top) && Tagged(h.mem, h.tiles, h.top)
        && h.tiles[h.top].size == h.topsize
    requires SegmentAdded(h, h2, tbase, tsize, mmapped)
    requires TopLast(h.tiles, h.ends, h.top, TopEnd(h)) && Away(h.tiles, h.ends, tbase, tbase + tsize)
    requires Placed(h.top, TopEnd(h), RecordChunk(h), tbase, tsize - TOP_FOOT_SIZE)
    ensures Tiled(h2.tiles, h2.starts, h2.ends, h2.top) && Tagged(h2.mem, h2.tiles, h2.top)
  {
    hide Tiled, Tagged, TopLast, Placed, Away, AddWrites, AddedTiles, PutSmall, PutLarge;
    var csp, size := RecordChunk(h), tsize - TOP_FOOT_SIZE;
    AddTiled(h.tiles, h.starts, h.ends, h.top, TopEnd(h), csp, tbase, size);
    AddTagged(h.mem, h2.mem, h.tiles, h.starts, h.ends, h.top, TopEnd(h), csp, tbase, size);
  }

  lemma AddCoreBins(h: Heap, h2: Heap, tbase: Addr, tsize: nat, mmapped: bool)
    requires h.top in h.tiles && h.tiles[h.top].size == h.topsize > 0 && !h.tiles[h.top].used
    requires Binned(h.tiles, h.top, h.dv, h.small, h.large, {}) && VictimOk(h.tiles, h.top, h.dv, h.dvsize)
    requires SegmentAdded(h, h2, tbase, tsize, mmapped)
    requires TopLast(h.tiles, h.ends, h.top, TopEnd(h)) && Away(h.tiles, h.ends, tbase, tbase + tsize)
    requires Placed(h.top, TopEnd(h), RecordChunk(h), tbase, tsize - TOP_FOOT_SIZE) && 0 !in h.tiles
    ensures Binned(h2.tiles, h2.top, h2.dv, h2.small, h2.large, {}) && VictimOk(h2.tiles, h2.top, h2.dv, h2.dvsize)
    ensures h2.top in h2.tiles && h2.tiles[h2.top].size == h2.topsize
  {
    hide BinHolds, TopLast, Placed, Away, AddWrites, AddedTiles, VictimOk, InBin, PutSmall, PutLarge;
    var csp, size := RecordChunk(h), tsize - TOP_FOOT_SIZE;
    AddedFacts(h, tbase, size, csp);
    BinAdded(h.tiles, h.top, h.dv, h.small, csp, tbase, size, true);
    BinAdded(h.tiles, h.top, h.dv, h.large, csp, tbase, size, false);
    AddBins(h, h2, tbase, tsize, csp);
  }

  lemma AddCore(h: Heap, h2: Heap, tbase: Addr, tsize: nat, mmapped: bool)
    requires CoreOk(h, {}) && SegmentAdded(h, h2, tbase, tsize, mmapped)
    requires TopLast(h.tiles, h.ends, h.top, TopEnd(h)) && Away(h.tiles, h.ends, tbase, tbase + tsize)
    requires Placed(h.top, TopEnd(h), RecordChunk(h), tbase, tsize - TOP_FOOT_SIZE) && 0 !in h.tiles
    ensures CoreOk(h2, {})
  {
    hide Tiled, Tagged, Binned, VictimOk, TopLast, Placed, Away, SegmentAdded;
    CoreParts(h, {});
    TopPositive(h);
    AddCoreTiles(h, h2, tbase, tsize, mmapped);
    AddCoreBins(h, h2, tbase, tsize, mmapped);
  }

  lemma TopPositive(h: Heap)
    requires Tiled(h.tiles, h.starts, h.ends, h.top)
    ensures h.top in h.tiles && h.tiles[h.top].size > 0 && !h.tiles[h.top].used
  {
    assert TileOk(h.tiles, h.ends, h.top, h.top);
  }

  // What the new chunks are, and what they are not.
  lemma AddedFacts(h: Heap, tbase: Addr, size: nat, csp: Addr)
    requires h.top in h.tiles && h.tiles[h.top].size == h.topsize > 0 && csp == RecordChunk(h)
    requires TopLast(h.tiles, h.ends, h.top, TopEnd(h)) && Away(h.tiles, h.ends, tbase, tbase + size + TOP_FOOT_SIZE)
    requires Placed(h.top, TopEnd(h), csp, tbase, size) && VictimOk(h.tiles, h.top, h.dv, h.dvsize) && 0 !in h.tiles
    ensures h.top <= csp && h.dv != h.top && h.dv != tbase
    ensures tbase !in h.tiles && tbase != h.top && tbase != csp && (csp == h.top || csp !in h.tiles)
    ensures var t2 := AddedTiles(h.tiles, h.top, csp, tbase, size);
      && tbase in t2 && t2[tbase] == Tile(size, false) && csp in t2 && t2[csp] == Tile(SEGMENT_RECORD_SIZE, true)
      && (csp != h.top ==> h.top in t2 && t2[h.top] == Tile(csp - h.top, false) && InBin(t2, tbase, h.dv, {}, h.top))
      && (forall p :: p in t2 <==> p == csp || p == tbase || (p in h.tiles && (p == h.top ==> csp != h.top)))
      && (forall p :: p in h.tiles && p != h.top ==> p != csp && p != tbase && t2[p] == h.tiles[p])
      && VictimOk(t2, tbase, h.dv, h.dvsize)
  {
    hide Aligned;
  }

  lemma AddBins(h: Heap, h2: Heap, tbase: Addr, tsize: nat, csp: Addr)
    requires h.top <= csp && tsize > TOP_FOOT_SIZE
    requires var t2 := AddedTiles(h.tiles, h.top, csp, tbase, tsize - TOP_FOOT_SIZE);
      && Binned(t2, tbase, h.dv, h.small, h.large, if csp == h.top then {} else {h.top})
      && h2.tiles == t2 && h2.top == tbase && h2.dv == h.dv
      && (csp != h.top ==> h.top in t2 && t2[h.top].size == csp - h.top && InBin(t2, tbase, h.dv, {}, h.top))
    requires h2.small == if csp == h.top then h.small else PutSmall(h.small, h.top, csp - h.top)
    requires h2.large == if csp == h.top then h.large else PutLarge(h.large, h.top, csp - h.top)
    ensures Binned(h2.tiles, h2.top, h2.dv, h2.small, h2.large, {})
  {
    hide Binned, AddedTiles;
    if csp != h.top {
      BinsInserted(h2.tiles, tbase, h.dv, h.small, h.large, {h.top}, h.top);
      assert {h.top} - {h.top} == {};
    }
  }

  lemma AddAgree(h: Heap, h2: Heap, tbase: Addr, tsize: nat, mmapped: bool, lo: Addr, hi: Addr)
    requires SegmentAdded(h, h2, tbase, tsize, mmapped) && h.top in h.tiles
    requires Placed(h.top, TopEnd(h), RecordChunk(h), tbase, tsize - TOP_FOOT_SIZE)
    requires hi <= h.top || TopEnd(h) <= lo
    requires hi <= tbase || tbase + tsize <= lo
    ensures AgreeOn(h, h2, lo, hi)
  {
    var w := AddedWords(h.top, RecordChunk(h), TopEnd(h), tbase, tsize - TOP_FOOT_SIZE);
    forall x: Addr | lo <= x < hi ensures x !in w && (x in h.ends ==> x in h2.ends) {
    }
  }

  // The new segment, with nothing in it but top.
  lemma NewSegmentOk(h: Heap, h2: Heap, tbase: Addr, tsize: nat, mmapped: bool)
    requires SegmentAdded(h, h2, tbase, tsize, mmapped) && Fresh(h, tbase, tsize) && h.top in h.tiles
    requires Placed(h.top, TopEnd(h), RecordChunk(h), tbase, tsize - TOP_FOOT_SIZE)
    requires Away(h.tiles, h.ends, tbase, tbase + tsize)
    ensures SegmentOk(h2, 0)
  {
    hide OutsideDirects, SameExcept, Fenced, Aligned;
    assert EndOf(h2, 0) == tbase + tsize - TOP_FOOT_SIZE;
  }

  // The old segment of top, with its record and fenceposts.
  lemma FencedSegmentOk(h: Heap, h2: Heap, tbase: Addr, tsize: nat, mmapped: bool)
    requires SegmentAdded(h, h2, tbase, tsize, mmapped) && |h.segs| > 0 && SegmentOk(h, 0) && h.top in h.tiles
    requires Placed(h.top, TopEnd(h), RecordChunk(h), tbase, tsize - TOP_FOOT_SIZE)
    requires TopLast(h.tiles, h.ends, h.top, TopEnd(h))
    requires h.segs[0].base <= h.top && h.segs[0].base + h.segs[0].size == TopEnd(h)
    requires TopEnd(h) <= tbase || tbase + tsize <= h.segs[0].base
    ensures SegmentOk(h2, 1)
  {
    hide OutsideDirects, SameExcept, Fenced, Aligned;
    var s, csp := h.segs[0], RecordChunk(h);
    assert h2.segs[1] == s.(record := csp + TWO_WORDS) && EndOf(h2, 1) == csp + SEGMENT_RECORD_SIZE;
    assert csp in h2.tiles && h2.tiles[csp].size == SEGMENT_RECORD_SIZE && csp in h2.inner;
    assert Range(s.base, s.base + s.size) <= h2.arena;
  }

  lemma AddSegmentOkAt(h: Heap, h2: Heap, tbase: Addr, tsize: nat, mmapped: bool, i: nat)
    requires CoreOk(h, {}) && SpaceOk(h) && SegmentAdded(h, h2, tbase, tsize, mmapped) && Fresh(h, tbase, tsize)
    requires TopLast(h.tiles, h.ends, h.top, TopEnd(h)) && Away(h.tiles, h.ends, tbase, tbase + tsize)
    requires Placed(h.top, TopEnd(h), RecordChunk(h), tbase, tsize - TOP_FOOT_SIZE)
    requires h.segs[0].base <= h.top && h.segs[0].base + h.segs[0].size == TopEnd(h)
    requires TopEnd(h) <= tbase || tbase + tsize <= h.segs[0].base
    requires i < |h2.segs|
    ensures SegmentOk(h2, i)
  {
    hide SegmentAdded, Tagged, TopLast, Away, Placed, InArena, DirectsOk, EndsKnown, Fresh, CoreOk, Tiled;
    CoreParts(h, {});
    TopPositive(h);
    if i == 0 {
      NewSegmentOk(h, h2, tbase, tsize, mmapped);
    } else if i == 1 {
      assert SegmentOk(h, 0);
      FencedSegmentOk(h, h2, tbase, tsize, mmapped);
    } else {
      AddSegs(h, h2, tbase, tsize, mmapped);
      assert SegmentOk(h, i - 1);
      OldSegmentOk(h, h2, tbase, tsize, mmapped, i);
    }
  }

  lemma OldSegmentOk(h: Heap, h2: Heap, tbase: Addr, tsize: nat, mmapped: bool, i: nat)
    requires SegmentAdded(h, h2, tbase, tsize, mmapped) && Fresh(h, tbase, tsize) && h.top in h.tiles
    requires 2 <= i < |h2.segs| == |h.segs| + 1 && SegmentsApart(h.segs) && SegmentOk(h, i - 1)
    requires Placed(h.top, TopEnd(h), RecordChunk(h), tbase, tsize - TOP_FOOT_SIZE)
    requires h.segs[0].base <= h.top && h.segs[0].base + h.segs[0].size == TopEnd(h)
    ensures SegmentOk(h2, i)
  {
    hide Placed, AddWrites, Fresh, AddedTiles, AddedEnds, AgreeOn;
    var s := h.segs[i - 1];
    assert h2.segs[i] == s;
    SegmentElsewhere(h, tbase, tsize, i - 1);
    AddAgree(h, h2, tbase, tsize, mmapped, s.base, s.base + s.size);
    SegmentAgrees(h, h2, i - 1, i);
  }

  // Fresh memory overlaps no segment, and the other segments do not overlap that of top.
  lemma SegmentElsewhere(h: Heap, tbase: Addr, tsize: nat, i: nat)
    requires |h.segs| > 0 && SegmentsApart(h.segs) && i < |h.segs| && SegmentOk(h, i) && Fresh(h, tbase, tsize)
        && tsize > 0
    requires h.segs[0].base <= h.top && h.segs[0].base + h.segs[0].size == TopEnd(h)
    ensures var s := h.segs[i]; s.base + s.size <= tbase || tbase + tsize <= s.base
    ensures var s := h.segs[i]; i > 0 ==> s.base + s.size <= h.top || TopEnd(h) <= s.base
    ensures h.segs[i].base < h.segs[i].base + h.segs[i].size
  {
    var s := h.segs[i];
    RangeApart(h.arena, s.base, s.base + s.size, tbase, tbase + tsize);
  }

  lemma AddSegsApart(h: Heap, h2: Heap, tbase: Addr, tsize: nat, mmapped: bool)
    requires SpaceOk(h) && SegmentAdded(h, h2, tbase, tsize, mmapped) && Fresh(h, tbase, tsize)
    requires h.segs[0].base <= h.top && h.segs[0].base + h.segs[0].size == TopEnd(h)
    ensures SegmentsApart(h2.segs)
  {
    hide InArena, DirectsOk, EndsKnown, AddWrites, Fresh, SegmentOk, AddedTiles, AddedEnds;
    forall i, j | 0 <= i < j < |h2.segs|
      ensures h2.segs[i].base + h2.segs[i].size <= h2.segs[j].base
          || h2.segs[j].base + h2.segs[j].size <= h2.segs[i].base
    {
      assert SegmentOk(h, j - 1);
      assert h2.segs[j].base == h.segs[j - 1].base && h2.segs[j].size == h.segs[j - 1].size;
      if i == 0 {
        SegmentElsewhere(h, tbase, tsize, j - 1);
      } else {
        assert h2.segs[i].base == h.segs[i - 1].base && h2.segs[i].size == h.segs[i - 1].size;
      }
    }
  }

  lemma AddEnds(h: Heap, h2: Heap, tbase: Addr, tsize: nat, mmapped: bool)
    requires EndsKnown(h) && SegmentAdded(h, h2, tbase, tsize, mmapped)
    ensures EndsKnown(h2)
  {
    hide AddWrites, AddedTiles;
    forall e | e in h2.ends ensures exists i {:trigger EndOf(h2, i)} :: 0 <= i < |h2.segs| && EndOf(h2, i) == e {
      if e == tbase + tsize - TOP_FOOT_SIZE {
        assert EndOf(h2, 0) == e;
      } else if e == RecordChunk(h) + SEGMENT_RECORD_SIZE {
        assert EndOf(h2, 1) == e;
      } else {
        var i :| 0 <= i < |h.segs| && EndOf(h, i) == e;
        assert i > 0 && h2.segs[i + 1] == h.segs[i] && EndOf(h2, i + 1) == e;
      }
    }
  }

  // The chunks after add_segment, one by one.
  ghost predicate AddedShape(t: Tiles, t2: Tiles, top: Addr, csp: Addr, tbase: Addr, size: nat) {
    && (forall p :: p in t2 <==> p == csp || p == tbase || (p in t && (p == top ==> csp != top)))
    && (forall p :: p in t && p != top ==> p != csp && p != tbase && t2[p] == t[p])
    && t2[csp] == Tile(SEGMENT_RECORD_SIZE, true) && t2[tbase] == Tile(size, false) && top <= csp
    && (csp != top && top in t ==> t2[top] == Tile(csp - top, false))
  }

  lemma AddShape(h: Heap, tbase: Addr, size: nat)
    requires Apart(h.tiles) && h.top in h.tiles && h.tiles[h.top].size == h.topsize > 0
    requires TopLast(h.tiles, h.ends, h.top, TopEnd(h)) && Away(h.tiles, h.ends, tbase, tbase + size + TOP_FOOT_SIZE)
    requires Placed(h.top, TopEnd(h), RecordChunk(h), tbase, size)
    ensures AddedShape(h.tiles, AddedTiles(h.tiles, h.top, RecordChunk(h), tbase, size), h.top,
        RecordChunk(h), tbase, size)
  {
    hide Aligned;
  }

  // The bytes from top to the end of its segment.
  lemma TopBytes(h: Heap)
    requires |h.segs| > 0 && SegmentOk(h, 0)
    requires h.segs[0].base <= h.top && h.segs[0].base + h.segs[0].size == TopEnd(h)
    ensures Range(h.top, TopEnd(h)) <= h.arena
  {
    assert Range(h.top, TopEnd(h)) <= Range(h.segs[0].base, TopEnd(h));
  }

  lemma AddArena(h: Heap, h2: Heap, tbase: Addr, tsize: nat, mmapped: bool)
    requires InArena(h.tiles, h.ends, h.arena) && Range(h.top, TopEnd(h)) <= h.arena && h.top in h.tiles
    requires SegmentAdded(h, h2, tbase, tsize, mmapped) && Fresh(h, tbase, tsize)
    requires Placed(h.top, TopEnd(h), RecordChunk(h), tbase, tsize - TOP_FOOT_SIZE)
    requires AddedShape(h.tiles, h2.tiles, h.top, RecordChunk(h), tbase, tsize - TOP_FOOT_SIZE)
    ensures InArena(h2.tiles, h2.ends, h2.arena)
  {
    hide AddWrites, Aligned, OutsideDirects, AddedTiles;
    var csp := RecordChunk(h);
    forall p, x: Addr | p in h2.tiles && p <= x < Next(h2.tiles, p) ensures x in h2.arena {
      if p == csp || p == h.top {
        assert x in Range(h.top, TopEnd(h));
      } else if p != tbase {
        assert p in h.tiles && p <= x < Next(h.tiles, p) && x in h.arena;
      }
    }
    hide AddedShape;
    forall e, x: Addr | e in h2.ends && e <= x < e + TWO_WORDS ensures x in h2.arena {
      if e == csp + SEGMENT_RECORD_SIZE {
        assert x in Range(h.top, TopEnd(h));
      } else if e != tbase + tsize - TOP_FOOT_SIZE {
        assert x in h.arena;
      }
    }
  }

  lemma AddDirects(h: Heap, h2: Heap, tbase: Addr, tsize: nat, mmapped: bool)
    requires SegmentAdded(h, h2, tbase, tsize, mmapped) && Fresh(h, tbase, tsize) && DirectsOk(h.mem, h.arena, h.direct)
    requires Range(h.top, TopEnd(h)) <= h.arena
    requires Placed(h.top, TopEnd(h), RecordChunk(h), tbase, tsize - TOP_FOOT_SIZE)
    ensures DirectsOk(h2.mem, h2.arena, h2.direct)
    ensures OutsideDirects(h.direct, AddedWords(h.top, RecordChunk(h), TopEnd(h), tbase, tsize - TOP_FOOT_SIZE))
  {
    hide DirectsOk, SameExcept, Fenced, OutsideDirects, AddedTiles;
    var w := AddedWords(h.top, RecordChunk(h), TopEnd(h), tbase, tsize - TOP_FOOT_SIZE);
    AddedWithin(h.top, RecordChunk(h), TopEnd(h), tbase, tsize);
    hide AddedWords;
    DirectsOutsideArena(h.mem, h.arena, h.direct);
    BothOutside(h.direct, h.arena, Range(tbase, tbase + tsize), h2.arena);
    BothOutside(h.direct, h2.arena, h2.arena, w);
    DirectsMoved(h.mem, h2.mem, w, h.arena, h2.arena, h.direct);
  }

  lemma AddedWithin(top: Addr, csp: Addr, lim: Addr, tbase: Addr, tsize: nat)
    requires tsize > TOP_FOOT_SIZE && Placed(top, lim, csp, tbase, tsize - TOP_FOOT_SIZE)
    ensures AddedWords(top, csp, lim, tbase, tsize - TOP_FOOT_SIZE) <= Range(top, lim) + Range(tbase, tbase + tsize)
  {
    hide Aligned;
  }

  lemma BothOutside(direct: map<Addr, Region>, a: set<Addr>, b: set<Addr>, s: set<Addr>)
    requires OutsideDirects(direct, a) && OutsideDirects(direct, b) && s <= a + b
    ensures OutsideDirects(direct, s)
  {
    hide InRegion;
  }

  lemma AddUsers(h: Heap, h2: Heap, tbase: Addr, tsize: nat, mmapped: bool)
    requires UsersOk(h) && SegmentAdded(h, h2, tbase, tsize, mmapped) && tbase !in h.direct
    requires h.top in h.tiles && !h.tiles[h.top].used && RecordChunk(h) !in h.direct && RecordChunk(h) !in h.live
    requires AddedShape(h.tiles, h2.tiles, h.top, RecordChunk(h), tbase, tsize - TOP_FOOT_SIZE)
    ensures UsersOk(h2) && InnerKept(h, h2)
  {
    hide AddWrites, AddedTiles, AddedEnds;
  }

  // Neither new chunk is in the region of a direct block.
  lemma NewOutside(h: Heap, tbase: Addr, tsize: nat)
    requires Fresh(h, tbase, tsize) && tsize > 0 && Range(h.top, TopEnd(h)) <= h.arena
        && DirectsOk(h.mem, h.arena, h.direct)
    ensures tbase !in h.direct && RecordChunk(h) !in h.direct
  {
    DirectsOutside(h.mem, h.arena, h.direct);
    StartsBelow(h.mem, h.arena, h.direct);
    assert RecordChunk(h) in Range(h.top, TopEnd(h)) && tbase in Range(tbase, tbase + tsize);
    assert tbase in h.direct ==> InRegion(tbase, h.direct[tbase], tbase);
  }

  // add_segment keeps the invariant and disturbs no block.
  lemma AddSegmentOk(h: Heap, h2: Heap, tbase: Addr, tsize: nat, mmapped: bool)
    requires Ok(h) && SegmentAdded(h, h2, tbase, tsize, mmapped) && Fresh(h, tbase, tsize)
    ensures Ok(h2) && InnerKept(h, h2) && Undisturbed(h, h2, h.live)
  {
    hide Ok, CoreOk, UsersOk, SegmentAdded, Tiled, Tagged, VictimOk, Binned, TopLast, Placed, Away, Fresh, Undisturbed,
      InnerKept, AddedShape, SegmentOk;
    OkParts(h);
    CoreParts(h, {});
    TopPositive(h);
    ChunkFacts(h, h.top);
    AddSize(h, h2, tbase, tsize, mmapped);
    AddPlace(h, tbase, tsize);
    AddCore(h, h2, tbase, tsize, mmapped);
    AddShape2(h, h2, tbase, tsize, mmapped);
    assert SegmentOk(h, 0);
    TopBytes(h);
    NewOutside(h, tbase, tsize);
    AddLive(h);
    AddUsers(h, h2, tbase, tsize, mmapped);
    AddSpace(h, h2, tbase, tsize, mmapped);
    AddUndisturbed(h, h2, tbase, tsize, mmapped);
    OkOf(h2);
  }

  lemma AddSize(h: Heap, h2: Heap, tbase: Addr, tsize: nat, mmapped: bool)
    requires SegmentAdded(h, h2, tbase, tsize, mmapped)
    ensures tsize > TOP_FOOT_SIZE
  {
  }

  lemma AddShape2(h: Heap, h2: Heap, tbase: Addr, tsize: nat, mmapped: bool)
    requires Tiled(h.tiles, h.starts, h.ends, h.top) && h.tiles[h.top].size == h.topsize > 0
    requires SegmentAdded(h, h2, tbase, tsize, mmapped)
    requires TopLast(h.tiles, h.ends, h.top, TopEnd(h)) && Away(h.tiles, h.ends, tbase, tbase + tsize)
    requires Placed(h.top, TopEnd(h), RecordChunk(h), tbase, tsize - TOP_FOOT_SIZE)
    ensures AddedShape(h.tiles, h2.tiles, h.top, RecordChunk(h), tbase, tsize - TOP_FOOT_SIZE)
  {
    hide AddedShape, TopLast, Away, Placed, AddWrites;
    AddShape(h, tbase, tsize - TOP_FOOT_SIZE);
  }

  lemma AddLive(h: Heap)
    requires CoreOk(h, {}) && UsersOk(h) && SpaceOk(h) && RecordChunk(h) !in h.direct
    ensures RecordChunk(h) !in h.live
  {
    hide SpaceOk, Tagged, VictimOk, Binned;
    TopSegment(h);
    TopPositive(h);
  }

  lemma AddSpace(h: Heap, h2: Heap, tbase: Addr, tsize: nat, mmapped: bool)
    requires CoreOk(h, {}) && SpaceOk(h) && SegmentAdded(h, h2, tbase, tsize, mmapped) && Fresh(h, tbase, tsize)
    requires TopLast(h.tiles, h.ends, h.top, TopEnd(h)) && Away(h.tiles, h.ends, tbase, tbase + tsize)
    requires Placed(h.top, TopEnd(h), RecordChunk(h), tbase, tsize - TOP_FOOT_SIZE)
    requires AddedShape(h.tiles, h2.tiles, h.top, RecordChunk(h), tbase, tsize - TOP_FOOT_SIZE)
    requires h.segs[0].base <= h.top && h.segs[0].base + h.segs[0].size == TopEnd(h)
    requires TopEnd(h) <= tbase || tbase + tsize <= h.segs[0].base
    ensures SpaceOk(h2)
  {
    hide CoreOk, Tiled, Tagged, SegmentAdded, Fresh, TopLast, Away, Placed, AddedShape, SegmentOk, SegmentsApart,
      EndsKnown, InArena, DirectsOk;
    CoreParts(h, {});
    assert SegmentOk(h, 0);
    TopBytes(h);
    AddEnds(h, h2, tbase, tsize, mmapped);
    AddArena(h, h2, tbase, tsize, mmapped);
    AddDirects(h, h2, tbase, tsize, mmapped);
    AddSegsApart(h, h2, tbase, tsize, mmapped);
    AddSegs(h, h2, tbase, tsize, mmapped);
    forall i | 0 <= i < |h2.segs| ensures SegmentOk(h2, i) {
      AddSegmentOkAt(h, h2, tbase, tsize, mmapped, i);
    }
  }

  lemma AddSegs(h: Heap, h2: Heap, tbase: Addr, tsize: nat, mmapped: bool)
    requires SegmentAdded(h, h2, tbase, tsize, mmapped)
    ensures |h2.segs| == |h.segs| + 1 > 1
  {
  }

  lemma AddUndisturbed(h: Heap, h2: Heap, tbase: Addr, tsize: nat, mmapped: bool)
    requires CoreOk(h, {}) && UsersOk(h) && SpaceOk(h) && SegmentAdded(h, h2, tbase, tsize, mmapped)
        && Fresh(h, tbase, tsize)
    requires UsersOk(h2)
    requires TopLast(h.tiles, h.ends, h.top, TopEnd(h)) && Away(h.tiles, h.ends, tbase, tbase + tsize)
    requires Placed(h.top, TopEnd(h), RecordChunk(h), tbase, tsize - TOP_FOOT_SIZE)
    requires AddedShape(h.tiles, h2.tiles, h.top, RecordChunk(h), tbase, tsize - TOP_FOOT_SIZE)
    requires Range(h.top, TopEnd(h)) <= h.arena
    ensures Undisturbed(h, h2, h.live)
  {
    hide CoreOk, Tiled, Tagged, SpaceOk, Fresh, AddedTiles, AddedEnds, DirectsOk, Undisturbed, AddedWords;
    CoreParts(h, {});
    DirectsOf(h);
    var w := AddedWords(h.top, RecordChunk(h), TopEnd(h), tbase, tsize - TOP_FOOT_SIZE);
    AddDirects(h, h2, tbase, tsize, mmapped);
    AddUnowned(h, tbase, tsize, w);
    TopPositive(h);
    NoneDisturbed(h, h2, w);
  }

  lemma AddUnowned(h: Heap, tbase: Addr, tsize: nat, w: set<Addr>)
    requires Tiled(h.tiles, h.starts, h.ends, h.top) && tsize > TOP_FOOT_SIZE
    requires TopLast(h.tiles, h.ends, h.top, TopEnd(h)) && Away(h.tiles, h.ends, tbase, tbase + tsize)
    requires Placed(h.top, TopEnd(h), RecordChunk(h), tbase, tsize - TOP_FOOT_SIZE)
    requires w == AddedWords(h.top, RecordChunk(h), TopEnd(h), tbase, tsize - TOP_FOOT_SIZE)
    ensures forall p, a :: p in h.tiles && p != h.top && a in w ==> !InUsable(h.tiles, p, a)
  {
    hide Aligned, Started;
    forall p, a | p in h.tiles && p != h.top && a in w ensures !InUsable(h.tiles, p, a) {
      assert TileOk(h.tiles, h.ends, h.top, p);
      assert Next(h.tiles, p) <= h.top || TopEnd(h) <= p;
      assert Next(h.tiles, p) in h.tiles || Next(h.tiles, p) in h.ends;
    }
  }

  // ---- prepend_alloc: a segment grows downwards ----

  ghost function PrependedHeap(h: Heap, m: Memory, k: nat, tsize: nat): Heap
    requires k < |h.segs| && tsize < h.segs[k].base
  {
    var s := h.segs[k];
    var tbase := s.base - tsize;
    h.(mem := m, tiles := h.tiles[tbase := Tile(tsize, true)], starts := h.starts - {s.base} + {tbase},
       segs := h.segs[k := s.(base := tbase, size := s.size + tsize)],
       arena := h.arena + Range(tbase, s.base), live := h.live + {tbase})
  }

  // The new memory before a segment as one block, before the part not asked for is given back.
  ghost predicate Prepended(h: Heap, h2: Heap, k: nat, tsize: nat) {
    && k < |h.segs| && MIN_CHUNK_SIZE <= tsize < h.segs[k].base
    && var s := h.segs[k];
    && var tbase := s.base - tsize;
    && Head(h2.mem, tbase) == Word(tsize, true, true) && SameExcept(h.mem, h2.mem, {tbase + 8})
    && h2 == PrependedHeap(h, h2.mem, k, tsize)
  }

  lemma PrependTiled(t: Tiles, starts: set<Addr>, ends: set<Addr>, top: Addr, tbase: Addr, b: Addr)
    requires Tiled(t, starts, ends, top) && Away(t, ends, tbase, b) && b in starts && 0 < tbase
        && tbase + MIN_CHUNK_SIZE <= b
    requires Aligned(tbase) && Aligned(b - tbase)
    ensures Tiled(t[tbase := Tile(b - tbase, true)], starts - {b} + {tbase}, ends, top) && tbase !in t && b in t
  {
    var t2 := t[tbase := Tile(b - tbase, true)];
    assert forall p :: p in t ==> TileOk(t, ends, top, p);
    PrependStarts(t, starts, ends, tbase, b);
    PrependApartTiles(t, ends, tbase, b);
    forall p | p in t2 ensures TileOk(t2, ends, top, p) {
      PrependTile(t, ends, top, tbase, b, p);
    }
    hide TileOk, Apart, Bounded, Started, Aligned;
  }

  lemma PrependTile(t: Tiles, ends: set<Addr>, top: Addr, tbase: Addr, b: Addr, p: Addr)
    requires b in t && top in t && Away(t, ends, tbase, b) && 0 < tbase && tbase + MIN_CHUNK_SIZE <= b
    requires Aligned(tbase) && Aligned(b - tbase) && (p == tbase || (p in t && TileOk(t, ends, top, p)))
    ensures TileOk(t[tbase := Tile(b - tbase, true)], ends, top, p) && tbase !in t
  {
  }

  lemma PrependApartTiles(t: Tiles, ends: set<Addr>, tbase: Addr, b: Addr)
    requires Apart(t) && Bounded(t, ends) && Away(t, ends, tbase, b) && tbase < b
    ensures var t2 := t[tbase := Tile(b - tbase, true)]; Apart(t2) && Bounded(t2, ends)
  {
  }

  lemma PrependStarts(t: Tiles, starts: set<Addr>, ends: set<Addr>, tbase: Addr, b: Addr)
    requires Started(t, starts) && Away(t, ends, tbase, b) && b in starts && tbase < b
    requires forall p :: p in t ==> Next(t, p) in t || Next(t, p) in ends
    ensures Started(t[tbase := Tile(b - tbase, true)], starts - {b} + {tbase}) && b in t
  {
    var t2 := t[tbase := Tile(b - tbase, true)];
    assert Next(t2, tbase) == b;
    assert forall p :: p in t ==> Next(t2, p) == Next(t, p) != tbase;
  }

  lemma PrependTagged(m: Memory, m2: Memory, t: Tiles, starts: set<Addr>, ends: set<Addr>, top: Addr,
      tbase: Addr, b: Addr)
    requires Tiled(t, starts, ends, top) && Tagged(m, t, top) && Away(t, ends, tbase, b) && b in starts
    requires tbase + MIN_CHUNK_SIZE <= b && Head(m2, tbase) == Word(b - tbase, true, true)
        && SameExcept(m, m2, {tbase + 8})
    ensures Tagged(m2, t[tbase := Tile(b - tbase, true)], top)
  {
    var t2 := t[tbase := Tile(b - tbase, true)];
    assert TagsOf(m, t, top, b);
    forall p | p in t2 ensures TagsOf(m2, t2, top, p) {
      if p != tbase {
        assert TileOk(t, ends, top, p) && TagsOf(m, t, top, p);
        PrependTags(m, m2, t, ends, top, tbase, b, p);
      }
    }
  }

  lemma PrependTags(m: Memory, m2: Memory, t: Tiles, ends: set<Addr>, top: Addr, tbase: Addr, b: Addr, p: Addr)
    requires p in t && TileOk(t, ends, top, p) && TagsOf(m, t, top, p) && Away(t, ends, tbase, b)
        && tbase + MIN_CHUNK_SIZE <= b
    requires SameExcept(m, m2, {tbase + 8})
    ensures TagsOf(m2, t[tbase := Tile(b - tbase, true)], top, p)
  {
    hide Aligned;
    assert Next(t, p) in t || Next(t, p) in ends;
    if !Head(m, p).pinuse {
      var q := p - Foot(m, p);
      assert q in t && Next(t, q) == p;
    }
  }

  lemma BinPrepended(t: Tiles, top: Addr, dv: Addr, b: map<Addr, nat>, p: Addr, n: nat, small: bool)
    requires BinHolds(t, top, dv, b, {}, small) && p !in t
    ensures BinHolds(t[p := Tile(n, true)], top, dv, b, {}, small)
  {
    hide SmallBins.IsSmall;
  }

  lemma PrependSegment(h: Heap, h2: Heap, k: nat, tsize: nat)
    requires Prepended(h, h2, k, tsize) && SegmentOk(h, k) && Aligned(tsize) && h.top in h.tiles
    requires Away(h.tiles, h.ends, h.segs[k].base - tsize, h.segs[k].base)
    ensures SegmentOk(h2, k)
  {
    var s, s2, e := h.segs[k], h2.segs[k], EndOf(h, k);
    AlignedSum(s.base, tsize);
    AlignedSum(s.size, tsize);
    hide Aligned;
    assert EndOf(h2, k) == e;
    assert forall x :: x in Range(s2.base, s2.base + s2.size) ==>
        x in Range(s.base, s.base + s.size) || x in Range(s2.base, s.base);
    forall p | p in h2.tiles && s2.base <= p < s2.base + s2.size ensures p < e {
      assert p == s2.base || s.base <= p;
    }
    if k > 0 {
      PrependFenced(h.mem, h2.mem, s2.base, e, s.base + s.size);
    }
  }

  lemma PrependFenced(m: Memory, m2: Memory, tbase: Addr, lo: Addr, hi: Addr)
    requires Fenced(m, lo, hi) && SameExcept(m, m2, {tbase + 8}) && tbase < lo
    ensures Fenced(m2, lo, hi)
  {
    forall f: Addr | lo <= f && f + TWO_WORDS <= hi && Aligned(f) ensures Head(m2, f) == FENCEPOST {
      assert Head(m, f) == FENCEPOST;
    }
  }

  lemma PrependOther(h: Heap, h2: Heap, k: nat, tsize: nat, i: nat)
    requires Prepended(h, h2, k, tsize) && i < |h.segs| && i != k && SegmentOk(h, i) && SegmentsApart(h.segs)
    requires Fresh(h, h.segs[k].base - tsize, tsize) && h.segs[k].size > 0
    ensures SegmentOk(h2, i)
    ensures h2.segs[i] == h.segs[i]
    ensures h.segs[i].base + h.segs[i].size <= h2.segs[k].base || h2.segs[k].base + h2.segs[k].size <= h.segs[i].base
  {
    var s, b := h.segs[i], h.segs[k].base;
    hide OutsideDirects;
    RangeApart(h.arena, s.base, s.base + s.size, b - tsize, b);
    PrependAgree(h, h2, k, tsize, i);
    SegmentAgrees(h, h2, i, i);
  }

  lemma PrependAgree(h: Heap, h2: Heap, k: nat, tsize: nat, i: nat)
    requires Prepended(h, h2, k, tsize) && i < |h.segs| && i != k
    requires var s, b := h.segs[i], h.segs[k].base; s.base + s.size <= b - tsize || b < s.base
    ensures AgreeOn(h, h2, h.segs[i].base, h.segs[i].base + h.segs[i].size)
  {
  }

  lemma SegmentPositive(h: Heap, k: nat)
    requires SpaceOk(h) && k < |h.segs|
    ensures h.segs[k].size > 0
  {
    assert SegmentOk(h, k);
  }

  lemma PrependSpace(h: Heap, h2: Heap, k: nat, tsize: nat)
    requires Prepended(h, h2, k, tsize) && SpaceOk(h) && Aligned(tsize) && Fresh(h, h.segs[k].base - tsize, tsize)
    requires h.top in h.tiles && Away(h.tiles, h.ends, h.segs[k].base - tsize, h.segs[k].base)
    ensures SpaceOk(h2)
  {
    hide SegmentOk, DirectsOk, InArena, Fresh, EndsKnown;
    SegmentPositive(h, k);
    forall i | 0 <= i < |h2.segs| ensures SegmentOk(h2, i) {
      assert SegmentOk(h, i);
      if i == k {
        PrependSegment(h, h2, k, tsize);
      } else {
        PrependOther(h, h2, k, tsize, i);
      }
    }
    PrependApart(h, h2, k, tsize);
    PrependEnds(h, h2, k, tsize);
    PrependArena(h, h2, k, tsize);
  }

  lemma PrependApart(h: Heap, h2: Heap, k: nat, tsize: nat)
    requires Prepended(h, h2, k, tsize) && SpaceOk(h) && Fresh(h, h.segs[k].base - tsize, tsize)
    ensures SegmentsApart(h2.segs)
  {
    hide SegmentOk, DirectsOk, InArena, Fresh, EndsKnown, SameExcept;
    SegmentPositive(h, k);
    forall i, j | 0 <= i < j < |h2.segs|
      ensures h2.segs[i].base + h2.segs[i].size <= h2.segs[j].base
          || h2.segs[j].base + h2.segs[j].size <= h2.segs[i].base
    {
      assert SegmentOk(h, i) && SegmentOk(h, j);
      if i == k {
        PrependOther(h, h2, k, tsize, j);
      } else {
        PrependOther(h, h2, k, tsize, i);
      }
    }
  }

  lemma PrependEnds(h: Heap, h2: Heap, k: nat, tsize: nat)
    requires Prepended(h, h2, k, tsize) && EndsKnown(h)
    ensures EndsKnown(h2)
  {
    forall e | e in h2.ends ensures exists i {:trigger EndOf(h2, i)} :: 0 <= i < |h2.segs| && EndOf(h2, i) == e {
      var i :| 0 <= i < |h.segs| && EndOf(h, i) == e;
      assert EndOf(h2, i) == e;
    }
  }

  lemma PrependArena(h: Heap, h2: Heap, k: nat, tsize: nat)
    requires Prepended(h, h2, k, tsize) && InArena(h.tiles, h.ends, h.arena) && DirectsOk(h.mem, h.arena, h.direct)
    requires Fresh(h, h.segs[k].base - tsize, tsize)
    ensures InArena(h2.tiles, h2.ends, h2.arena) && DirectsOk(h2.mem, h2.arena, h2.direct)
    ensures OutsideDirects(h.direct, {h.segs[k].base - tsize + 8})
  {
    hide DirectsOk, SameExcept, OutsideDirects, Aligned;
    var b, w := h.segs[k].base, {h.segs[k].base - tsize + 8};
    forall p, x: Addr | p in h2.tiles && p <= x < Next(h2.tiles, p) ensures x in h2.arena {
      if p != b - tsize {
        assert p <= x < Next(h.tiles, p);
      }
    }
    DirectsOutsideArena(h.mem, h.arena, h.direct);
    BothOutside(h.direct, h.arena, Range(b - tsize, b), h2.arena);
    BothOutside(h.direct, h2.arena, h2.arena, w);
    DirectsMoved(h.mem, h2.mem, w, h.arena, h2.arena, h.direct);
  }

  lemma PrependCore(h: Heap, h2: Heap, k: nat, tsize: nat)
    requires CoreOk(h, {}) && Prepended(h, h2, k, tsize) && Aligned(tsize) && h.segs[k].base in h.starts
    requires Aligned(h.segs[k].base - tsize) && Away(h.tiles, h.ends, h.segs[k].base - tsize, h.segs[k].base)
    ensures CoreOk(h2, {}) && h2.segs[k].base !in h.tiles
  {
    hide Tiled, Tagged, BinHolds, Away, SameExcept;
    CoreParts(h, {});
    var b := h.segs[k].base;
    PrependTiled(h.tiles, h.starts, h.ends, h.top, b - tsize, b);
    PrependTagged(h.mem, h2.mem, h.tiles, h.starts, h.ends, h.top, b - tsize, b);
    BinPrepended(h.tiles, h.top, h.dv, h.small, b - tsize, tsize, true);
    BinPrepended(h.tiles, h.top, h.dv, h.large, b - tsize, tsize, false);
  }

  // New memory before a segment becomes one block in use, and disturbs no other block.
  lemma PrependOk(h: Heap, h2: Heap, k: nat, tsize: nat)
    requires Prepended(h, h2, k, tsize) && Aligned(tsize) && Fresh(h, h.segs[k].base - tsize, tsize)
    requires Ok(h)
    ensures var tbase := h.segs[k].base - tsize;
      tbase !in h.live && tbase in h2.live && tbase in h2.tiles && h2.tiles[tbase] == Tile(tsize, true)
    ensures Ok(h2) && InnerKept(h, h2) && Undisturbed(h, h2, h.live)
  {
    hide Ok, CoreOk, SpaceOk, Tiled, Tagged, VictimOk, Binned, Away, Fresh, Undisturbed, OutsideDirects;
    OkParts(h);
    CoreParts(h, {});
    TopPositive(h);
    ArenaOf(h);
    PrependBase(h, k, tsize);
    var b := h.segs[k].base;
    FreshAway(h, b - tsize, tsize);
    PrependCore(h, h2, k, tsize);
    PrependSpace(h, h2, k, tsize);
    DirectsOf(h);
    PrependUsers(h, h2, k, tsize);
    OkOf(h2);
  }

  lemma PrependBase(h: Heap, k: nat, tsize: nat)
    requires SpaceOk(h) && k < |h.segs| && tsize < h.segs[k].base && Fresh(h, h.segs[k].base - tsize, tsize)
    ensures h.segs[k].base in h.starts && Aligned(h.segs[k].base - tsize)
  {
    assert SegmentOk(h, k);
  }

  lemma PrependUsers(h: Heap, h2: Heap, k: nat, tsize: nat)
    requires UsersOk(h) && Prepended(h, h2, k, tsize) && InArena(h.tiles, h.ends, h.arena)
        && DirectsOk(h.mem, h.arena, h.direct)
    requires Fresh(h, h.segs[k].base - tsize, tsize) && h2.segs[k].base !in h.tiles
    requires Away(h.tiles, h.ends, h.segs[k].base - tsize, h.segs[k].base)
    requires Tiled(h.tiles, h.starts, h.ends, h.top)
    ensures UsersOk(h2) && InnerKept(h, h2) && Undisturbed(h, h2, h.live) && h2.segs[k].base !in h.live
  {
    hide DirectsOk, OutsideDirects, InArena, Undisturbed, SameExcept, Tiled;
    var b, w := h.segs[k].base, {h.segs[k].base - tsize + 8};
    PrependArena(h, h2, k, tsize);
    RangeOutside(h, b - tsize, b);
    PrependUnowned(h, b - tsize, b);
    NoneDisturbed(h, h2, w);
  }

  lemma RangeOutside(h: Heap, lo: Addr, hi: Addr)
    requires OutsideDirects(h.direct, Range(lo, hi)) && lo < hi && DirectsOk(h.mem, h.arena, h.direct)
    ensures lo !in h.direct
  {
    StartsBelow(h.mem, h.arena, h.direct);
    assert lo in h.direct ==> InRegion(lo, h.direct[lo], lo);
    assert lo in Range(lo, hi);
  }

  lemma PrependUnowned(h: Heap, tbase: Addr, b: Addr)
    requires Tiled(h.tiles, h.starts, h.ends, h.top) && Away(h.tiles, h.ends, tbase, b) && tbase < b
    ensures forall p :: p in h.tiles ==> !InUsable(h.tiles, p, tbase + 8)
  {
    forall p | p in h.tiles ensures !InUsable(h.tiles, p, tbase + 8) {
      assert TileOk(h.tiles, h.ends, h.top, p);
    }
  }

  // ---- release_unused_segments ----

  // The chunk that holds the record of a segment other than that of top.
  function RecordOf(h: Heap, i: nat): Addr
    requires i < |h.segs|
  {
    if h.segs[i].record >= TWO_WORDS then h.segs[i].record - TWO_WORDS else 0
  }

  // The test of release_unused_segments: the first chunk is free and reaches the last TOP_FOOT_SIZE bytes.
  ghost predicate CanRelease(h: Heap, i: nat) {
    && 0 < i < |h.segs| && h.segs[i].base in h.tiles
    && var s := h.segs[i];
    && !h.tiles[s.base].used && Next(h.tiles, s.base) + TOP_FOOT_SIZE >= s.base + s.size
  }

  // Such a segment holds a free chunk and its own record, and nothing else.
  lemma OnlyRecordLeft(h: Heap, i: nat)
    requires Tiled(h.tiles, h.starts, h.ends, h.top) && h.tiles[h.top].size == h.topsize
    requires SpaceOk(h) && UsersOk(h) && CanRelease(h, i)
    ensures var s, c := h.segs[i], RecordOf(h, i);
      && s.record == c + TWO_WORDS && c in h.tiles && c in h.inner && h.tiles[c] == Tile(SEGMENT_RECORD_SIZE, true)
      && s.base < c && Next(h.tiles, s.base) == c && c + TOP_FOOT_SIZE == s.base + s.size
          && EndOf(h, i) == Next(h.tiles, c)
      && EndOf(h, i) in h.ends
      && (forall p :: p in h.tiles && s.base <= p < s.base + s.size ==> p == s.base || p == c)
    ensures h.segs[i].base != h.top && h.segs[i].base in h.starts
  {
    hide EndsKnown, InArena, DirectsOk, Started, Bounded;
    var s, c := h.segs[i], RecordOf(h, i);
    assert SegmentOk(h, i);
    assert TileOk(h.tiles, h.ends, h.top, s.base) && TileOk(h.tiles, h.ends, h.top, c);
    TopElsewhere(h, i);
  }

  // The top chunk is in the first segment only.
  lemma TopElsewhere(h: Heap, i: nat)
    requires Tiled(h.tiles, h.starts, h.ends, h.top) && h.tiles[h.top].size == h.topsize && SpaceOk(h)
        && 0 < i < |h.segs|
    ensures !(h.segs[i].base <= h.top < h.segs[i].base + h.segs[i].size)
  {
    hide EndsKnown, InArena, DirectsOk;
    assert SegmentOk(h, i) && SegmentOk(h, 0);
    TopSegment(h);
  }

  ghost predicate Released(h: Heap, h2: Heap, i: nat)
    requires CanRelease(h, i)
  {
    h2 == ReleasedHeap(h, i)
  }

  ghost function ReleasedHeap(h: Heap, i: nat): Heap
    requires i < |h.segs|
  {
    var s, c := h.segs[i], RecordOf(h, i);
    h.(tiles := h.tiles - {s.base, c}, starts := h.starts - {s.base}, ends := h.ends - {EndOf(h, i)},
             dv := if s.base == h.dv then 0 else h.dv, dvsize := if s.base == h.dv then 0 else h.dvsize,
             small := h.small - {s.base}, large := h.large - {s.base},
             segs := h.segs[..i] + h.segs[i + 1..], arena := h.arena - Range(s.base, s.base + s.size),
                 inner := h.inner - {c})
  }

  // A segment that is one free chunk and one other is taken out of the tiling.
  lemma ReleaseTiled(t: Tiles, starts: set<Addr>, ends: set<Addr>, top: Addr, p: Addr, c: Addr)
    requires Tiled(t, starts, ends, top) && p in t && c in t && p < c == Next(t, p) && Next(t, c) in ends && p in starts
    requires top != p && top != c
    ensures Tiled(t - {p, c}, starts - {p}, ends - {Next(t, c)}, top)
  {
    hide Tiled, TileOk, Apart, Bounded, Started;
    var t2, ends2 := t - {p, c}, ends - {Next(t, c)};
    forall q | q in t2 ensures TileOk(t2, ends2, top, q) {
      ReleaseTile(t, starts, ends, top, p, c, q);
    }
    TiledParts(t, starts, ends, top);
    ReleaseStarts(t, starts, ends, p, c);
    ReleaseApart(t, ends, p, c);
    ReleaseTopEnd(t, starts, ends, top, p, c);
    TiledOf(t2, starts - {p}, ends2, top);
  }

  lemma TiledParts(t: Tiles, starts: set<Addr>, ends: set<Addr>, top: Addr)
    requires Tiled(t, starts, ends, top)
    ensures Apart(t) && Bounded(t, ends) && Started(t, starts) && top in t && !t[top].used && Next(t, top) in ends
  {
  }

  lemma TiledOf(t: Tiles, starts: set<Addr>, ends: set<Addr>, top: Addr)
    requires forall p {:trigger TileOk(t, ends, top, p)} :: p in t ==> TileOk(t, ends, top, p)
    requires Apart(t) && Bounded(t, ends) && Started(t, starts) && top in t && !t[top].used && Next(t, top) in ends
    ensures Tiled(t, starts, ends, top)
  {
  }

  lemma ReleaseTopEnd(t: Tiles, starts: set<Addr>, ends: set<Addr>, top: Addr, p: Addr, c: Addr)
    requires Tiled(t, starts, ends, top) && c in t && top != c
    ensures Next(t, top) != Next(t, c)
  {
    assert TileOk(t, ends, top, c) && TileOk(t, ends, top, top);
  }

  lemma ReleaseApart(t: Tiles, ends: set<Addr>, p: Addr, c: Addr)
    requires Apart(t) && Bounded(t, ends) && c in t
    ensures Apart(t - {p, c}) && Bounded(t - {p, c}, ends - {Next(t, c)})
  {
  }

  lemma ReleaseStarts(t: Tiles, starts: set<Addr>, ends: set<Addr>, p: Addr, c: Addr)
    requires Started(t, starts) && p in t && c in t && c == Next(t, p)
    ensures Started(t - {p, c}, starts - {p})
  {
    assert c !in starts;
  }

  lemma ReleaseTile(t: Tiles, starts: set<Addr>, ends: set<Addr>, top: Addr, p: Addr, c: Addr, q: Addr)
    requires Tiled(t, starts, ends, top) && p in t && c in t && p < c == Next(t, p) && p in starts
    requires q in t && q != p && q != c
    ensures TileOk(t - {p, c}, ends - {Next(t, c)}, top, q)
  {
    assert TileOk(t, ends, top, q) && TileOk(t, ends, top, c);
    hide Aligned, Bounded;
    assert Next(t, q) != p && Next(t, q) != c && Next(t, q) != Next(t, c);
  }

  lemma ReleaseTagged(m: Memory, t: Tiles, starts: set<Addr>, ends: set<Addr>, top: Addr, p: Addr, c: Addr)
    requires Tiled(t, starts, ends, top) && Tagged(m, t, top) && p in t && c in t && p < c == Next(t, p)
    requires Next(t, c) in ends && top != p && top != c
    ensures Tagged(m, t - {p, c}, top)
  {
    var t2 := t - {p, c};
    forall q | q in t2 ensures TagsOf(m, t2, top, q) {
      assert TagsOf(m, t, top, q);
      assert Next(t, c) !in t;
      if q != top {
        SameTags(m, m, t, t2, top, top, q);
      }
    }
  }

  lemma BinReleased(t: Tiles, top: Addr, dv: Addr, b: map<Addr, nat>, p: Addr, c: Addr, small: bool)
    requires BinHolds(t, top, dv, b, {}, small) && p in t && c in t && t[c].used && 0 !in t
    ensures BinHolds(t - {p, c}, top, if p == dv then 0 else dv, b - {p}, {}, small)
  {
    hide SmallBins.IsSmall;
  }

  lemma ReleaseCore(h: Heap, h2: Heap, i: nat)
    requires CoreOk(h, {}) && SpaceOk(h) && UsersOk(h) && CanRelease(h, i) && Released(h, h2, i)
    ensures CoreOk(h2, {})
  {
    hide Tiled, Tagged, BinHolds, SpaceOk, UsersOk;
    CoreParts(h, {});
    OnlyRecordLeft(h, i);
    ReleaseTop(h, i);
    var p, c := h.segs[i].base, RecordOf(h, i);
    ReleaseTiled(h.tiles, h.starts, h.ends, h.top, p, c);
    ReleaseTagged(h.mem, h.tiles, h.starts, h.ends, h.top, p, c);
    BinReleased(h.tiles, h.top, h.dv, h.small, p, c, true);
    BinReleased(h.tiles, h.top, h.dv, h.large, p, c, false);
  }

  lemma ReleaseTop(h: Heap, i: nat)
    requires Tiled(h.tiles, h.starts, h.ends, h.top)
    ensures 0 !in h.tiles && h.top in h.tiles && !h.tiles[h.top].used
  {
    assert 0 in h.tiles ==> TileOk(h.tiles, h.ends, h.top, 0);
  }

  lemma ReleaseSegments(h: Heap, h2: Heap, i: nat)
    requires CoreOk(h, {}) && SpaceOk(h) && UsersOk(h) && CanRelease(h, i) && Released(h, h2, i)
    ensures |h2.segs| > 0 && forall j :: 0 <= j < |h2.segs| ==> SegmentOk(h2, j)
    ensures SegmentsApart(h2.segs)
  {
    hide CoreOk, Tiled, Tagged, VictimOk, Binned, UsersOk, EndsKnown, InArena, DirectsOk, AgreeOn;
    CoreParts(h, {});
    OnlyRecordLeft(h, i);
    forall j | 0 <= j < |h2.segs| ensures SegmentOk(h2, j) {
      var k := if j < i then j else j + 1;
      assert SegmentOk(h, k) && h2.segs[j] == h.segs[k];
      ReleaseAgree(h, h2, i, k);
      SegmentAgrees(h, h2, k, j);
    }
  }

  lemma ReleaseAgree(h: Heap, h2: Heap, i: nat, k: nat)
    requires CanRelease(h, i) && Released(h, h2, i) && k < |h.segs| && k != i && SegmentsApart(h.segs)
    requires var s, c := h.segs[i], RecordOf(h, i);
      s.base < c && c + TOP_FOOT_SIZE == s.base + s.size && s.record == c + TWO_WORDS
    ensures AgreeOn(h, h2, h.segs[k].base, h.segs[k].base + h.segs[k].size)
  {
  }

  lemma ReleaseEnds(h: Heap, h2: Heap, i: nat)
    requires EndsKnown(h) && CanRelease(h, i) && Released(h, h2, i)
    ensures EndsKnown(h2)
  {
    forall e | e in h2.ends ensures exists j {:trigger EndOf(h2, j)} :: 0 <= j < |h2.segs| && EndOf(h2, j) == e {
      var k :| 0 <= k < |h.segs| && EndOf(h, k) == e;
      var j := if k < i then k else k - 1;
      assert k != i && h2.segs[j] == h.segs[k] && EndOf(h2, j) == e;
    }
  }

  lemma ReleaseArena(h: Heap, h2: Heap, i: nat)
    requires Tiled(h.tiles, h.starts, h.ends, h.top) && h.tiles[h.top].size == h.topsize && SpaceOk(h) && UsersOk(h)
    requires CanRelease(h, i) && Released(h, h2, i)
    ensures InArena(h2.tiles, h2.ends, h2.arena)
  {
    hide TileOk, Bounded, Started, DirectsOk, SegmentsApart, EndsKnown, SegmentOk;
    OnlyRecordLeft(h, i);
    var s := h.segs[i];
    forall p, x: Addr | p in h2.tiles && p <= x < Next(h2.tiles, p) ensures x in h2.arena {
      assert p in h.tiles && p <= x < Next(h.tiles, p) && x in h.arena;
      assert p < s.base ==> Next(h.tiles, p) <= s.base;
    }
    forall e, x: Addr | e in h2.ends && e <= x < e + TWO_WORDS ensures x in h2.arena {
      assert e in h.ends && x in h.arena;
      EndElsewhere(h, i, e);
    }
  }

  // The end of another segment, and the two words there, lie outside segment i.
  lemma EndElsewhere(h: Heap, i: nat, e: Addr)
    requires SpaceOk(h) && 0 < i < |h.segs| && e in h.ends && e != EndOf(h, i)
    ensures e + TWO_WORDS <= h.segs[i].base || h.segs[i].base + h.segs[i].size <= e
  {
    hide InArena, DirectsOk;
    var k :| 0 <= k < |h.segs| && EndOf(h, k) == e;
    assert SegmentOk(h, k) && SegmentOk(h, i);
  }

  lemma ReleaseSpace(h: Heap, h2: Heap, i: nat)
    requires CoreOk(h, {}) && SpaceOk(h) && UsersOk(h) && CanRelease(h, i) && Released(h, h2, i)
    ensures SpaceOk(h2) && UsersOk(h2) && InnerKept(h, h2) && Undisturbed(h, h2, h.live)
  {
    hide CoreOk, Tiled, Tagged, VictimOk, Binned, SegmentOk, EndsKnown, InArena;
    CoreParts(h, {});
    OnlyRecordLeft(h, i);
    ReleaseSegments(h, h2, i);
    ReleaseEnds(h, h2, i);
    ReleaseArena(h, h2, i);
    SmallerArena(h.mem, h.arena, h2.arena, h.direct);
  }

  lemma SmallerArena(m: Memory, arena: set<Addr>, arena2: set<Addr>, direct: map<Addr, Region>)
    requires DirectsOk(m, arena, direct) && arena2 <= arena
    ensures DirectsOk(m, arena2, direct)
  {
    forall p | p in direct ensures DirectOk(m, arena2, p, direct[p]) {
      assert DirectOk(m, arena, p, direct[p]);
    }
  }

  // Unmapping a segment without blocks keeps the invariant.
  lemma ReleaseOk(h: Heap, h2: Heap, i: nat)
    requires CanRelease(h, i) && Released(h, h2, i) && Ok(h)
    ensures Ok(h2) && InnerKept(h, h2) && Undisturbed(h, h2, h.live)
  {
    hide Ok, CoreOk, SpaceOk, UsersOk, CanRelease, Released, Undisturbed;
    OkParts(h);
    ReleaseCore(h, h2, i);
    ReleaseSpace(h, h2, i);
    OkOf(h2);
  }
}
