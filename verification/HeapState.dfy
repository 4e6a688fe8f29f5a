// The state of a malloc space as a value: memory words, the ghost tiling, the
// designated victim and top, the contents of the bins, segments, directly
// mapped blocks and the blocks handed out; and the invariant over it.
module HeapState {
  import opened Tiling
  import SmallBins

  const TOP_FOOT_SIZE: nat := 72
  const SEGMENT_RECORD_SIZE: nat := 40
  const FENCEPOST: Word := Word(8, true, true)
  const TWO64: nat := 0x1_0000_0000_0000_0000

  // A segment: its bytes, where its record is kept, and whether it was mapped or came from outside.
  datatype Segment = Segment(base: Addr, size: nat, record: Addr, mmapped: bool, extern: bool)

  // The region of a directly mapped block: its first byte, and the size of the chunk in it.
  datatype Region = Region(start: Addr, size: nat)

  const MMAP_FOOT_PAD: nat := 32

  function RegionEnd(p: Addr, r: Region): Addr {
    p + r.size + MMAP_FOOT_PAD
  }

  datatype Heap = Heap(
    mem: Memory,
    tiles: Tiles, starts: set<Addr>, ends: set<Addr>,
    top: Addr, topsize: nat, dv: Addr, dvsize: nat,
    small: map<Addr, nat>, large: map<Addr, nat>,
    segs: seq<Segment>, arena: set<Addr>, direct: map<Addr, Region>,
    live: set<Addr>, inner: set<Addr>)

  // ---- Bins ----

  // A free chunk that belongs in a bin: not top, not dv, and not loose.
  predicate InBin(t: Tiles, top: Addr, dv: Addr, loose: set<Addr>, p: Addr) {
    p in t && !t[p].used && p != top && p != dv && p !in loose
  }

  ghost predicate BinHolds(t: Tiles, top: Addr, dv: Addr, b: map<Addr, nat>, loose: set<Addr>, small: bool) {
    && (forall p :: p in b <==> InBin(t, top, dv, loose, p) && SmallBins.IsSmall(t[p].size) == small)
    && (forall p :: p in b ==> b[p] == t[p].size)
  }

  // Each free chunk other than top, dv and the loose ones is in the bin of its size, and nothing else is in a bin.
  ghost predicate Binned(t: Tiles, top: Addr, dv: Addr, small: map<Addr, nat>, large: map<Addr, nat>,
      loose: set<Addr>) {
    BinHolds(t, top, dv, small, loose, true) && BinHolds(t, top, dv, large, loose, false)
  }

  // The designated victim is a free chunk of its cached size, or null.
  ghost predicate VictimOk(t: Tiles, top: Addr, dv: Addr, dvsize: nat) {
    if dv == 0 then dvsize == 0
    else dv in t && !t[dv].used && t[dv].size == dvsize && dvsize > 0 && dv != top
  }

  ghost predicate CoreOk(h: Heap, loose: set<Addr>) {
    && Tiled(h.tiles, h.starts, h.ends, h.top) && Tagged(h.mem, h.tiles, h.top)
    && h.tiles[h.top].size == h.topsize
    && VictimOk(h.tiles, h.top, h.dv, h.dvsize)
    && Binned(h.tiles, h.top, h.dv, h.small, h.large, loose)
  }

  // ---- Segments and direct blocks ----

  function Max(a: nat, b: nat): nat {
    if a < b then b else a
  }

  predicate Between(lo: Addr, x: Addr, hi: Addr) {
    lo <= x < hi
  }

  function Range(lo: Addr, hi: Addr): (r: set<Addr>)
    ensures forall x :: x in r <==> lo <= x < hi
  {
    set x {:trigger Between(lo, x, hi)} | lo <= x < hi && Between(lo, x, hi)
  }

  // Where the tiled part of a segment ends: the top foot, or the fenceposts after the segment record.
  function EndOf(h: Heap, i: nat): Addr
    requires i < |h.segs|
  {
    if i == 0 then h.top + h.topsize else h.segs[i].record + SEGMENT_RECORD_SIZE - TWO_WORDS
  }

  ghost predicate Fenced(m: Memory, lo: Addr, hi: Addr) {
    forall f: Addr {:trigger Head(m, f)} :: lo <= f && f + TWO_WORDS <= hi && Aligned(f) ==> Head(m, f) == FENCEPOST
  }

  ghost predicate SegmentOk(h: Heap, i: nat)
    requires i < |h.segs|
  {
    var s, e := h.segs[i], EndOf(h, i);
    && Aligned(s.base) && Aligned(s.size) && s.base in h.starts && e in h.ends && s.base < e
    && Range(s.base, s.base + s.size) <= h.arena
    && (forall p :: p in h.tiles && s.base <= p < s.base + s.size ==> p < e)
    && if i == 0 then
         e + TOP_FOOT_SIZE == s.base + s.size && Head(h.mem, e) == Word(TOP_FOOT_SIZE, false, false)
       else
         && s.record >= TWO_WORDS + s.base && s.record - TWO_WORDS in h.tiles && s.record - TWO_WORDS in h.inner
         && h.tiles[s.record - TWO_WORDS].size == SEGMENT_RECORD_SIZE
         && e + MIN_CHUNK_SIZE <= s.base + s.size && Fenced(h.mem, e, s.base + s.size)
  }

  ghost predicate SegmentsApart(segs: seq<Segment>) {
    forall i, j :: 0 <= i < j < |segs| ==>
      segs[i].base + segs[i].size <= segs[j].base || segs[j].base + segs[j].size <= segs[i].base
  }

  // Every chunk, and the two words at every end, lie in the bytes of the segments.
  ghost predicate InArena(t: Tiles, ends: set<Addr>, arena: set<Addr>) {
    && (forall p, x: Addr :: p in t && p <= x < Next(t, p) ==> x in arena)
    && (forall e, x: Addr :: e in ends && e <= x < e + TWO_WORDS ==> x in arena)
    && (forall x :: x in arena ==> 0 < x < TWO64)
  }

  // A directly mapped block: both bits of its head clear, its offset into the region in its prev_foot, and the fake
  // next chunk after it. Its region lies outside the segments.
  ghost predicate DirectOk(m: Memory, arena: set<Addr>, p: Addr, r: Region) {
    && Aligned(p) && Aligned(r.size) && r.size >= MIN_CHUNK_SIZE && Head(m, p) == Word(r.size, false, false)
    && 0 < r.start <= p && Foot(m, p) == p - r.start
    && (forall x: Addr :: r.start <= x < RegionEnd(p, r) ==> x !in arena && x < TWO64)
    && Head(m, p + r.size) == FENCEPOST && Head(m, p + r.size + 8) == Word(0, false, false)
  }

  ghost predicate DirectsOk(m: Memory, arena: set<Addr>, direct: map<Addr, Region>) {
    && (forall p {:trigger DirectOk(m, arena, p, direct[p])} :: p in direct ==> DirectOk(m, arena, p, direct[p]))
    && RegionsApart(direct)
  }

  ghost predicate RegionsApart(direct: map<Addr, Region>) {
    forall p, q :: p in direct && q in direct && p != q ==>
      RegionEnd(p, direct[p]) <= direct[q].start || RegionEnd(q, direct[q]) <= direct[p].start
  }

  ghost predicate SpaceOk(h: Heap) {
    && |h.segs| > 0 && (forall i {:trigger SegmentOk(h, i)} :: 0 <= i < |h.segs| ==> SegmentOk(h, i))
    && SegmentsApart(h.segs) && EndsKnown(h) && InArena(h.tiles, h.ends, h.arena)
    && DirectsOk(h.mem, h.arena, h.direct)
  }

  ghost predicate EndsKnown(h: Heap) {
    forall e :: e in h.ends ==> exists i {:trigger EndOf(h, i)} :: 0 <= i < |h.segs| && EndOf(h, i) == e
  }

  // The chunks in use are the blocks handed out, the chunk of the state itself, and the segment records.
  ghost predicate UsersOk(h: Heap) {
    && (forall p :: p in h.tiles ==> (h.tiles[p].used <==> p in h.live || p in h.inner))
    && (forall p :: p in h.live ==> p in h.tiles || p in h.direct)
    && (forall p :: p in h.inner ==> p in h.tiles && p !in h.live)
    && (forall p :: p in h.direct ==> p in h.live && p !in h.tiles)
  }

  ghost predicate Ok(h: Heap) {
    match h
    case Heap(_, _, _, _, _, _, _, _, _, _, _, _, _, _, _) => CoreOk(h, {}) && SpaceOk(h) && UsersOk(h)
  }

  // ---- Blocks handed out ----

  function BlockSize(h: Heap, p: Addr): nat
    requires p in h.live && (p in h.tiles || p in h.direct)
  {
    if p in h.tiles then h.tiles[p].size else h.direct[p].size
  }

  // The words of a block: up to the prev_foot of the next chunk, or up to the fake next chunk of a mapped block. (The
  // usable size the program reports for a mapped block, three words less than its chunk, ends short of this.)
  predicate OwnWord(h: Heap, p: Addr, a: Addr)
    requires p in h.live && (p in h.tiles || p in h.direct)
  {
    p + TWO_WORDS <= a && a < p + BlockSize(h, p) + if p in h.tiles then 8 else 0
  }

  // The blocks of s are still handed out, with the same size, or the same region of their own, and their owners find
  // every word as they left it.
  ghost predicate Undisturbed(h: Heap, h2: Heap, s: set<Addr>) {
    forall p :: p in s && p in h.live && (p in h.tiles || p in h.direct) ==>
      && p in h2.live && (p in h2.tiles <==> p in h.tiles) && (p in h2.direct <==> p in h.direct)
      && BlockSize(h2, p) == BlockSize(h, p) && (p in h.direct ==> h2.direct[p] == h.direct[p])
      && forall a: Addr :: OwnWord(h, p, a) ==> At(h2.mem, a) == At(h.mem, a)
  }

  // The chunks that the space keeps for itself stay as they are.
  ghost predicate InnerKept(h: Heap, h2: Heap) {
    forall q :: q in h.inner && q in h2.inner ==> q in h.tiles && q in h2.tiles && h2.tiles[q] == h.tiles[q]
  }

  // ---- What a change within one range keeps ----

  // h2 is h with other chunks in the range from lo to hi; the segments and direct blocks are the same.
  ghost predicate RangeChange(h: Heap, h2: Heap, lo: Addr, hi: Addr, w: set<Addr>) {
    && Change(h.mem, h2.mem, h.tiles, h2.tiles, h.starts, h.ends, h2.top, lo, hi, w)
    && h2.starts == h.starts && h2.ends == h.ends && h2.segs == h.segs && h2.arena == h.arena
    && h2.direct == h.direct && h2.inner == h.inner
    && h2.top + h2.topsize == h.top + h.topsize
    && (forall p :: p in h.inner ==> !(lo <= p < hi)) && (forall a :: a in w ==> Aligned(a))
    && (hi in h.ends ==> Head(h2.mem, hi) == Head(h.mem, hi))
  }

  lemma RangeInner(h: Heap, h2: Heap, lo: Addr, hi: Addr, w: set<Addr>)
    requires RangeChange(h, h2, lo, hi, w) && UsersOk(h)
    ensures InnerKept(h, h2)
  {
    hide Tiled, Tagged, TileOk, Inside, RangeWords;
  }

  // The bytes of a range made of whole chunks are bytes of segments.
  ghost predicate Owned(arena: set<Addr>, lo: Addr, hi: Addr) {
    forall x: Addr :: lo <= x < hi ==> x in arena
  }

  lemma WritesInArena(h: Heap, h2: Heap, lo: Addr, hi: Addr, w: set<Addr>)
    requires Tiled(h.tiles, h.starts, h.ends, h.top) && InArena(h.tiles, h.ends, h.arena)
    requires RangeChange(h, h2, lo, hi, w) && Owned(h.arena, lo, hi)
    ensures forall a :: a in w ==> a in h.arena
  {
    var t := h.tiles;
    assert TileOk(t, h.ends, h.top, lo) && TileOk(h2.tiles, h.ends, h2.top, lo);
    if hi in t {
      assert TileOk(t, h.ends, h.top, hi);
    }
    forall a | a in w ensures a in h.arena {
      if a < hi {
        assert lo <= a < hi;
      } else if hi in t && a == hi + 8 {
        SecondWord(t, h.ends, h.top, h.arena, hi);
      } else if hi in t {
        assert a < Next(t, hi);
      }
    }
  }

  lemma SecondWord(t: Tiles, ends: set<Addr>, top: Addr, arena: set<Addr>, p: Addr)
    requires p in t && TileOk(t, ends, top, p) && InArena(t, ends, arena) && top in t && Next(t, top) in ends
    ensures p + 8 in arena
  {
    if t[p].size < 16 {
      assert Next(t, p) == p + 8 && p + 8 in arena;
    }
  }

  // The words of a direct block that its invariant speaks of lie outside the segments.
  lemma DirectKept(m: Memory, m2: Memory, w: set<Addr>, arena: set<Addr>, p: Addr, r: Region)
    requires DirectOk(m, arena, p, r) && SameExcept(m, m2, w) && forall a :: a in w ==> a in arena
    ensures DirectOk(m2, arena, p, r)
  {
    assert p !in w && p + 8 !in w && p + r.size + 8 !in w && p + r.size + 16 !in w;
    assert At(m2, p) == At(m, p) && Head(m2, p) == Head(m, p);
    assert Head(m2, p + r.size) == Head(m, p + r.size) && Head(m2, p + r.size + 8) == Head(m, p + r.size + 8);
  }

  lemma DirectsKept(m: Memory, m2: Memory, w: set<Addr>, arena: set<Addr>, direct: map<Addr, Region>)
    requires DirectsOk(m, arena, direct) && SameExcept(m, m2, w) && forall a :: a in w ==> a in arena
    ensures DirectsOk(m2, arena, direct)
  {
    forall p | p in direct ensures DirectOk(m2, arena, p, direct[p]) {
      assert DirectOk(m, arena, p, direct[p]);
      hide DirectOk, SameExcept, RegionsApart;
      DirectKept(m, m2, w, arena, p, direct[p]);
    }
  }

  // A range inside the chunks of a segment does not reach its tail.
  lemma RangeInSegment(h: Heap, h2: Heap, lo: Addr, hi: Addr, w: set<Addr>, i: nat)
    requires Tiled(h.tiles, h.starts, h.ends, h.top) && RangeChange(h, h2, lo, hi, w)
    requires i < |h.segs| && SegmentOk(h, i)
    ensures h.segs[i].base <= lo < h.segs[i].base + h.segs[i].size ==> lo < hi <= EndOf(h, i)
    ensures lo < h.segs[i].base ==> hi < h.segs[i].base
  {
    var e := EndOf(h, i);
    if h.segs[i].base <= lo < h.segs[i].base + h.segs[i].size {
      assert lo < e && e in h.ends;
    }
  }

  lemma SegmentKept(h: Heap, h2: Heap, lo: Addr, hi: Addr, w: set<Addr>, i: nat)
    requires Tiled(h.tiles, h.starts, h.ends, h.top) && RangeChange(h, h2, lo, hi, w)
    requires i < |h.segs| && SegmentOk(h, i)
    ensures SegmentOk(h2, i)
  {
    hide Tiled, Tagged, Inside, TileOk, RangeWords, Fenced, Aligned;
    var s, e := h.segs[i], EndOf(h, i);
    RangeInSegment(h, h2, lo, hi, w, i);
    TailKept(h, h2, lo, hi, w, i);
    assert e == EndOf(h2, i);
    ChunksInSegment(h.tiles, h2.tiles, h.ends, h2.top, lo, hi, s, e);
  }

  lemma ChunksInSegment(t: Tiles, t2: Tiles, ends: set<Addr>, top2: Addr, lo: Addr, hi: Addr, s: Segment, e: Addr)
    requires Retiled(t, t2, ends, top2, lo, hi)
    requires s.base <= lo < s.base + s.size ==> lo < hi <= e
    requires lo < s.base ==> hi < s.base
    requires forall p :: p in t && s.base <= p < s.base + s.size ==> p < e
    ensures forall p :: p in t2 && s.base <= p < s.base + s.size ==> p < e
  {
  }

  lemma TailKept(h: Heap, h2: Heap, lo: Addr, hi: Addr, w: set<Addr>, i: nat)
    requires Tiled(h.tiles, h.starts, h.ends, h.top) && RangeChange(h, h2, lo, hi, w)
    requires i < |h.segs| && SegmentOk(h, i)
    requires h.segs[i].base <= lo < h.segs[i].base + h.segs[i].size ==> lo < hi <= EndOf(h, i)
    requires lo < h.segs[i].base ==> hi < h.segs[i].base
    ensures Head(h2.mem, EndOf(h, i)) == Head(h.mem, EndOf(h, i))
    ensures i > 0 ==> Fenced(h2.mem, EndOf(h, i), h.segs[i].base + h.segs[i].size)
  {
    var s, e := h.segs[i], EndOf(h, i);
    forall f: Addr | e <= f < s.base + s.size && Aligned(f) ensures Head(h2.mem, f) == Head(h.mem, f) {
      if f + 8 in w {
        assert lo + 8 <= f + 8 <= hi + 8;
        assert f == hi == e;
      }
    }
  }

  lemma ArenaKept(t: Tiles, t2: Tiles, ends: set<Addr>, top2: Addr, arena: set<Addr>, lo: Addr, hi: Addr)
    requires InArena(t, ends, arena) && Retiled(t, t2, ends, top2, lo, hi) && Owned(arena, lo, hi)
    ensures InArena(t2, ends, arena)
  {
    forall p, x: Addr | p in t2 && p <= x < Next(t2, p) ensures x in arena {
      if lo <= p < hi {
        assert TileOk(t2, ends, top2, p);
        assert lo <= x < hi;
      } else {
        assert p <= x < Next(t, p);
      }
    }
  }

  lemma EndsKept(h: Heap, h2: Heap)
    requires EndsKnown(h) && h2.segs == h.segs && h2.ends == h.ends && h2.top + h2.topsize == h.top + h.topsize
    ensures EndsKnown(h2)
  {
    forall e | e in h2.ends ensures exists i {:trigger EndOf(h2, i)} :: 0 <= i < |h2.segs| && EndOf(h2, i) == e {
      var i :| 0 <= i < |h.segs| && EndOf(h, i) == e;
      assert EndOf(h2, i) == e;
    }
  }

  lemma SpaceKept(h: Heap, h2: Heap, lo: Addr, hi: Addr, w: set<Addr>)
    requires Tiled(h.tiles, h.starts, h.ends, h.top) && SpaceOk(h)
    requires RangeChange(h, h2, lo, hi, w) && Owned(h.arena, lo, hi)
    ensures SpaceOk(h2)
  {
    hide Tiled, Tagged, Inside, SegmentOk, InArena, DirectsOk, SegmentsApart, Owned, EndsKnown;
    EndsKept(h, h2);
    WritesInArena(h, h2, lo, hi, w);
    DirectsKept(h.mem, h2.mem, w, h.arena, h.direct);
    ArenaKept(h.tiles, h2.tiles, h.ends, h2.top, h.arena, lo, hi);
    forall i | 0 <= i < |h2.segs| ensures SegmentOk(h2, i) {
      assert SegmentOk(h, i);
      SegmentKept(h, h2, lo, hi, w, i);
    }
  }

  // The range holds none of the blocks of s.
  ghost predicate Elsewhere(s: set<Addr>, lo: Addr, hi: Addr) {
    forall p :: p in s ==> !(lo <= p < hi)
  }

  // A change within a range writes no word of the owner of a block elsewhere.
  lemma RangeUndisturbed(h: Heap, h2: Heap, lo: Addr, hi: Addr, w: set<Addr>, s: set<Addr>)
    requires Tiled(h.tiles, h.starts, h.ends, h.top) && SpaceOk(h) && UsersOk(h)
    requires RangeChange(h, h2, lo, hi, w) && Owned(h.arena, lo, hi) && Elsewhere(s, lo, hi)
    requires forall p :: p in s && p in h.live ==> p in h2.live
    ensures Undisturbed(h, h2, s)
  {
    WritesInArena(h, h2, lo, hi, w);
    hide Tagged, SegmentOk, TileOk, Aligned;
    forall p | p in s && p in h.live
      ensures p in h2.live && (p in h2.tiles <==> p in h.tiles) && (p in h2.direct <==> p in h.direct)
      ensures BlockSize(h2, p) == BlockSize(h, p)
      ensures forall a: Addr :: OwnWord(h, p, a) ==> a !in w
    {
      if p in h.tiles {
        RangeUnowned(h.tiles, h.ends, lo, hi, w);
        OwnIsUsable(h, p, w);
      } else {
        DirectUnwritten(h, p, w);
      }
    }
  }

  lemma OwnIsUsable(h: Heap, p: Addr, w: set<Addr>)
    requires p in h.live && p in h.tiles && forall a :: a in w ==> !InUsable(h.tiles, p, a)
    ensures forall a: Addr :: OwnWord(h, p, a) ==> a !in w
  {
  }

  lemma DirectUnwritten(h: Heap, p: Addr, w: set<Addr>)
    requires p in h.live && p in h.direct && p !in h.tiles
    requires DirectOk(h.mem, h.arena, p, h.direct[p]) && forall a :: a in w ==> a in h.arena
    ensures forall a: Addr :: OwnWord(h, p, a) ==> a !in w
  {
  }

  // ---- Bins under the changes ----

  function PutSmall(small: map<Addr, nat>, p: Addr, s: nat): map<Addr, nat> {
    if SmallBins.IsSmall(s) then small[p := s] else small
  }

  function PutLarge(large: map<Addr, nat>, p: Addr, s: nat): map<Addr, nat> {
    if SmallBins.IsSmall(s) then large else large[p := s]
  }

  lemma BinsInserted(t: Tiles, top: Addr, dv: Addr, small: map<Addr, nat>, large: map<Addr, nat>,
      loose: set<Addr>, p: Addr)
    requires Binned(t, top, dv, small, large, loose) && p in loose && InBin(t, top, dv, {}, p)
    ensures p !in small && p !in large
    ensures Binned(t, top, dv, PutSmall(small, p, t[p].size), PutLarge(large, p, t[p].size), loose - {p})
  {
    BinInserted(t, top, dv, small, loose, p, true);
    BinInserted(t, top, dv, large, loose, p, false);
  }

  lemma BinInserted(t: Tiles, top: Addr, dv: Addr, b: map<Addr, nat>, loose: set<Addr>, p: Addr, small: bool)
    requires BinHolds(t, top, dv, b, loose, small) && p in loose && InBin(t, top, dv, {}, p)
    ensures p !in b
    ensures BinHolds(t, top, dv, if SmallBins.IsSmall(t[p].size) == small then b[p := t[p].size] else b,
        loose - {p}, small)
  {
    hide SmallBins.IsSmall;
  }

  // A chunk that belongs in no bin may be called loose or not.
  lemma BinsTight(t: Tiles, top: Addr, dv: Addr, small: map<Addr, nat>, large: map<Addr, nat>, loose: set<Addr>)
    requires Binned(t, top, dv, small, large, loose)
    requires forall p :: p in loose ==> !InBin(t, top, dv, {}, p)
    ensures Binned(t, top, dv, small, large, {})
  {
    hide SmallBins.IsSmall;
    assert forall p :: InBin(t, top, dv, loose, p) <==> InBin(t, top, dv, {}, p);
  }

  lemma BinTaken(t: Tiles, top: Addr, dv: Addr, b: map<Addr, nat>, p: Addr, small: bool)
    requires BinHolds(t, top, dv, b, {}, small) && p in t && 0 !in t
    ensures BinHolds(Taken(t, p), top, if p == dv then 0 else dv, b - {p}, {}, small)
  {
    hide SmallBins.IsSmall;
  }

  // After carving, what is loose is the rest unless it is the new top or victim, and the victim it replaces.
  lemma BinCarved(t: Tiles, top: Addr, dv: Addr, b: map<Addr, nat>, p: Addr, nb: nat, top2: Addr,
      dv2: Addr, small: bool)
    requires BinHolds(t, top, dv, b, {}, small) && p in t && !t[p].used && 0 < nb < t[p].size && p + nb !in t
    requires top2 == if p == top then p + nb else top
    requires dv2 == dv || dv2 == p + nb
    ensures BinHolds(Carved(t, p, nb), top2, dv2, b - {p}, {p + nb, dv} - {top2, dv2, p}, small)
  {
    hide SmallBins.IsSmall;
  }

  // ---- What the invariant says of chunks and blocks ----

  lemma ChunkFacts(h: Heap, p: Addr)
    requires Tiled(h.tiles, h.starts, h.ends, h.top) && InArena(h.tiles, h.ends, h.arena) && p in h.tiles
    ensures p > 0 && Aligned(p) && Aligned(h.tiles[p].size) && 8 <= h.tiles[p].size < TWO64
    ensures p != h.top ==> h.tiles[p].size >= MIN_CHUNK_SIZE
    ensures Owned(h.arena, p, Next(h.tiles, p)) && 0 !in h.tiles
    ensures Aligned(Next(h.tiles, p)) || Next(h.tiles, p) in h.ends
  {
    assert TileOk(h.tiles, h.ends, h.top, p);
    assert Next(h.tiles, p) - 1 in h.arena;
    assert 0 in h.tiles ==> TileOk(h.tiles, h.ends, h.top, 0);
  }

  lemma ArenaOf(h: Heap)
    requires SpaceOk(h)
    ensures InArena(h.tiles, h.ends, h.arena)
  {
  }

  // The parts of Ok, for proofs in which it is hidden.
  lemma OkParts(h: Heap)
    requires Ok(h)
    ensures CoreOk(h, {}) && SpaceOk(h) && UsersOk(h)
  {
  }

  lemma OkOf(h: Heap)
    requires CoreOk(h, {}) && SpaceOk(h) && UsersOk(h)
    ensures Ok(h)
  {
  }

  lemma CoreParts(h: Heap, loose: set<Addr>)
    requires CoreOk(h, loose)
    ensures Tiled(h.tiles, h.starts, h.ends, h.top) && Tagged(h.mem, h.tiles, h.top)
    ensures h.top in h.tiles && h.tiles[h.top].size == h.topsize
    ensures VictimOk(h.tiles, h.top, h.dv, h.dvsize)
    ensures Binned(h.tiles, h.top, h.dv, h.small, h.large, loose)
  {
  }

  lemma ChangeParts(h: Heap, h2: Heap, lo: Addr, hi: Addr, w: set<Addr>)
    requires RangeChange(h, h2, lo, hi, w)
    ensures Tiled(h2.tiles, h2.starts, h2.ends, h2.top) && Tagged(h2.mem, h2.tiles, h2.top)
  {
  }

  // No block handed out starts in a range of free chunks.
  lemma LiveElsewhere(h: Heap, lo: Addr, hi: Addr)
    requires UsersOk(h) && forall q :: q in h.tiles && lo <= q < hi ==> !h.tiles[q].used
    requires Owned(h.arena, lo, hi) && DirectsOk(h.mem, h.arena, h.direct)
    ensures Elsewhere(h.live, lo, hi)
  {
    DirectsOutside(h.mem, h.arena, h.direct);
  }

  lemma DirectsOutside(m: Memory, arena: set<Addr>, direct: map<Addr, Region>)
    requires DirectsOk(m, arena, direct)
    ensures forall p :: p in direct ==> p !in arena
  {
    forall p | p in direct ensures p !in arena {
      assert DirectOk(m, arena, p, direct[p]);
    }
  }

  lemma ChunksApart(h: Heap, p: Addr)
    requires Tiled(h.tiles, h.starts, h.ends, h.top) && p in h.tiles
    ensures forall q :: q in h.tiles ==> !(p < q < Next(h.tiles, p))
    ensures Next(h.tiles, p) > p && (p != h.top && !h.tiles[p].used ==> Next(h.tiles, p) !in h.ends)
  {
    assert TileOk(h.tiles, h.ends, h.top, p);
  }

  lemma DirectsOf(h: Heap)
    requires SpaceOk(h)
    ensures DirectsOk(h.mem, h.arena, h.direct)
  {
  }

  // Only the top chunk and segment records are last in a segment.
  lemma LastChunk(h: Heap, p: Addr)
    requires Tiled(h.tiles, h.starts, h.ends, h.top) && h.tiles[h.top].size == h.topsize && SpaceOk(h)
    requires p in h.tiles && Next(h.tiles, p) in h.ends
    ensures p == h.top || p in h.inner
  {
    var i :| 0 <= i < |h.segs| && EndOf(h, i) == Next(h.tiles, p);
    assert SegmentOk(h, i);
    var q := if i == 0 then h.top else h.segs[i].record - TWO_WORDS;
    assert q in h.tiles && Next(h.tiles, q) == Next(h.tiles, p);
    assert TileOk(h.tiles, h.ends, h.top, p) && TileOk(h.tiles, h.ends, h.top, q);
  }

  // The chunks around a block: what free reads from the tags.
  lemma Neighbours(h: Heap, p: Addr)
    requires Ok(h) && p in h.live && p in h.tiles
    ensures var n := Next(h.tiles, p); n in h.tiles && n > p && h.tiles[p].used && p != h.top && Head(h.mem, n).pinuse
    ensures Head(h.mem, p).size == h.tiles[p].size && Head(h.mem, p).cinuse
    ensures !Head(h.mem, p).pinuse ==> FreeBefore(h.mem, h.tiles, p) && Foot(h.mem, p) > 0
    ensures var n := Next(h.tiles, p);
        Head(h.mem, n).size == h.tiles[n].size && Head(h.mem, n).cinuse == h.tiles[n].used
  {
    hide SpaceOk, Binned, VictimOk;
    OkParts(h);
    var n := Next(h.tiles, p);
    assert TileOk(h.tiles, h.ends, h.top, p) && TagsOf(h.mem, h.tiles, h.top, p);
    if n in h.ends {
      LastChunk(h, p);
    } else {
      assert TagsOf(h.mem, h.tiles, h.top, n);
    }
  }
}
