// Chunks as a tiling of memory. Each segment is tiled by chunks up to the top
// chunk or the fenceposts; the boundary tags (the head word of each chunk, the
// prev_foot and pinuse of the next) describe the tiling redundantly.
module Tiling {

  type Addr = nat

  // A 64-bit word read as a head word: the two in-use bits, and the rest.
  datatype Word = Word(size: nat, cinuse: bool, pinuse: bool)

  // Memory by word; words never written read as zero.
  type Memory = map<Addr, Word>

  function At(m: Memory, a: Addr): Word {
    if a in m then m[a] else Word(0, false, false)
  }

  // The head word of the chunk at p, and the prev_foot word just below it.
  function Head(m: Memory, p: Addr): Word {
    At(m, p + 8)
  }

  function Foot(m: Memory, p: Addr): nat {
    At(m, p).size
  }

  const MIN_CHUNK_SIZE: nat := 32
  const TWO_WORDS: nat := 16

  datatype Tile = Tile(size: nat, used: bool)

  type Tiles = map<Addr, Tile>

  function Next(t: Tiles, p: Addr): Addr
    requires p in t
  {
    p + t[p].size
  }

  // A multiple of eight: chunk addresses and sizes.
  predicate Aligned(a: nat) {
    a % 8 == 0
  }

  // One chunk: it is followed by another, or by the end of its segment if it is the top chunk or in use. Only the
  // top chunk may be smaller than a chunk.
  ghost predicate TileOk(t: Tiles, ends: set<Addr>, top: Addr, p: Addr)
    requires p in t
  {
    && p > 0 && Aligned(p) && t[p].size > 0 && Aligned(t[p].size)
    && (p != top ==> t[p].size >= MIN_CHUNK_SIZE)
    && (Next(t, p) in t || (Next(t, p) in ends && (t[p].used || p == top)))
  }

  // Two chunks never overlap.
  ghost predicate Apart(t: Tiles) {
    forall p, q :: p in t && q in t && p < q ==> Next(t, p) <= q
  }

  // No chunk crosses the end of a tiled part, or starts within the two words kept there.
  ghost predicate Bounded(t: Tiles, ends: set<Addr>) {
    forall p, e :: p in t && e in ends ==> if p < e then Next(t, p) <= e else e + TWO_WORDS <= p
  }

  // The first chunk of a segment has none before it.
  ghost predicate Started(t: Tiles, starts: set<Addr>) {
    && (forall s :: s in starts ==> s in t)
    && (forall s, p :: s in starts && p in t ==> Next(t, p) != s)
  }

  ghost predicate Tiled(t: Tiles, starts: set<Addr>, ends: set<Addr>, top: Addr) {
    && (forall p {:trigger TileOk(t, ends, top, p)} :: p in t ==> TileOk(t, ends, top, p))
    && Apart(t) && Bounded(t, ends) && Started(t, starts)
    && top in t && !t[top].used && Next(t, top) in ends
  }

  // The chunk before p is free and its size is in p's prev_foot.
  ghost predicate FreeBefore(m: Memory, t: Tiles, p: Addr) {
    Foot(m, p) <= p &&
    var q := p - Foot(m, p);
    q in t && !t[q].used && Next(t, q) == p
  }

  // The boundary tags of one chunk. A free chunk has a chunk in use before it, so no two free chunks touch.
  ghost predicate TagsOf(m: Memory, t: Tiles, top: Addr, p: Addr)
    requires p in t
  {
    && Head(m, p).size == t[p].size && Head(m, p).cinuse == t[p].used
    && Head(m, Next(t, p)).pinuse == t[p].used
    && (!t[p].used ==> Head(m, p).pinuse)
    && (!t[p].used && p != top ==> Foot(m, Next(t, p)) == t[p].size)
    && (!Head(m, p).pinuse ==> FreeBefore(m, t, p))
  }

  ghost predicate Tagged(m: Memory, t: Tiles, top: Addr) {
    forall p {:trigger TagsOf(m, t, top, p)} :: p in t ==> TagsOf(m, t, top, p)
  }

  ghost predicate SameExcept(m: Memory, m': Memory, w: set<Addr>) {
    forall a: Addr :: a !in w ==> At(m', a) == At(m, a)
  }

  // The words that the owner of a chunk in use may write: up to and including the prev_foot of the next chunk.
  ghost predicate InUsable(t: Tiles, q: Addr, a: Addr)
    requires q in t
  {
    q + TWO_WORDS <= a < Next(t, q) + 8
  }

  // ---- Replacing the chunks of a range ----

  // t2 has the same chunks as t outside the range from lo to hi, and tiles the range itself.
  ghost predicate Retiled(t: Tiles, t2: Tiles, ends: set<Addr>, top2: Addr, lo: Addr, hi: Addr) {
    && lo in t && lo in t2 && lo < hi && (hi in t || hi in ends)
    && (forall p :: p < lo || hi <= p ==> (p in t <==> p in t2) && (p in t ==> t2[p] == t[p]))
    && (forall p {:trigger TileOk(t2, ends, top2, p)} :: p in t2 && lo <= p < hi ==>
        TileOk(t2, ends, top2, p) && Next(t2, p) <= hi)
    && (forall p, q :: p in t2 && q in t2 && lo <= p < q < hi ==> Next(t2, p) <= q)
  }

  ghost predicate Inside(starts: set<Addr>, ends: set<Addr>, lo: Addr, hi: Addr) {
    && (forall e :: e in ends ==> !(lo < e < hi))
    && (forall s :: s in starts ==> !(lo < s <= hi))
  }

  lemma OutsideTile(t: Tiles, t2: Tiles, ends: set<Addr>, top: Addr, top2: Addr, lo: Addr, hi: Addr, p: Addr)
    requires Apart(t) && Retiled(t, t2, ends, top2, lo, hi)
    requires p in t && (p < lo || hi <= p) && TileOk(t, ends, top, p) && (p == top ==> p == top2)
    ensures TileOk(t2, ends, top2, p)
  {
    hide Aligned;
  }

  lemma RetiledApart(t: Tiles, t2: Tiles, ends: set<Addr>, top2: Addr, lo: Addr, hi: Addr)
    requires Apart(t) && Bounded(t, ends) && Retiled(t, t2, ends, top2, lo, hi)
    ensures Apart(t2)
  {
    forall p, q | p in t2 && q in t2 && p < q ensures Next(t2, p) <= q {
      if lo <= p < hi {
        assert TileOk(t2, ends, top2, p);
      }
    }
  }

  lemma RetiledBounds(t: Tiles, t2: Tiles, starts: set<Addr>, ends: set<Addr>, top2: Addr, lo: Addr, hi: Addr)
    requires Bounded(t, ends) && Started(t, starts) && Retiled(t, t2, ends, top2, lo, hi)
        && Inside(starts, ends, lo, hi)
    ensures Bounded(t2, ends) && Started(t2, starts)
  {
    forall p | p in t2 && lo <= p < hi ensures Next(t2, p) <= hi && Next(t2, p) > p {
      assert TileOk(t2, ends, top2, p);
    }
  }

  lemma RetiledTiled(t: Tiles, t2: Tiles, starts: set<Addr>, ends: set<Addr>, top: Addr, top2: Addr, lo: Addr, hi: Addr)
    requires Tiled(t, starts, ends, top) && Retiled(t, t2, ends, top2, lo, hi) && Inside(starts, ends, lo, hi)
    requires (top2 == top && !(lo <= top < hi)) || (lo <= top < hi && lo <= top2 < hi && hi in ends)
    requires lo <= top2 < hi ==> top2 in t2 && !t2[top2].used && Next(t2, top2) == hi
    ensures Tiled(t2, starts, ends, top2)
  {
    hide TileOk, Apart, Bounded, Started, Inside;
    RetiledApart(t, t2, ends, top2, lo, hi);
    RetiledBounds(t, t2, starts, ends, top2, lo, hi);
    forall p | p in t2 ensures TileOk(t2, ends, top2, p) {
      if p < lo || hi <= p {
        assert TileOk(t, ends, top, p);
        OutsideTile(t, t2, ends, top, top2, lo, hi, p);
      } else {
        assert TileOk(t2, ends, top2, p);
      }
    }
  }

  // The words of a change to the range: nothing outside the heads of the range and of what follows it, whose own
  // size and use stay, and whose pinuse bit goes with the chunk before it.
  ghost predicate RangeWords(m: Memory, m2: Memory, w: set<Addr>, lo: Addr, hi: Addr) {
    && SameExcept(m, m2, w) && (forall a :: a in w ==> lo + 8 <= a <= hi + 8)
    && Head(m2, lo).pinuse == Head(m, lo).pinuse
    && Head(m2, hi) == Head(m, hi).(pinuse := Head(m2, hi).pinuse)
  }

  // A change of the chunks and words of one range that keeps the tiling and the tags.
  ghost predicate Change(m: Memory, m2: Memory, t: Tiles, t2: Tiles, starts: set<Addr>, ends: set<Addr>,
                         top2: Addr, lo: Addr, hi: Addr, w: set<Addr>)
  {
    && Retiled(t, t2, ends, top2, lo, hi) && RangeWords(m, m2, w, lo, hi) && Inside(starts, ends, lo, hi)
    && Tiled(t2, starts, ends, top2) && Tagged(m2, t2, top2)
  }

  lemma OutsideTags(m: Memory, m2: Memory, w: set<Addr>, t: Tiles, t2: Tiles, ends: set<Addr>, top: Addr, top2: Addr,
                    lo: Addr, hi: Addr, p: Addr)
    requires Apart(t) && Bounded(t, ends) && Retiled(t, t2, ends, top2, lo, hi) && RangeWords(m, m2, w, lo, hi)
    requires p in t && (p < lo || hi < p) && TileOk(t, ends, top, p) && (p == top <==> p == top2)
    requires hi in t ==> TileOk(t, ends, top, hi) && (hi == top ==> Next(t, top) in ends)
    requires TagsOf(m, t, top, p)
    ensures TagsOf(m2, t2, top2, p)
  {
    if hi < p {
      assert Aligned(p) && hi + 16 <= p;
    } else {
      assert Next(t, p) <= lo;
    }
    if !Head(m, p).pinuse {
      var q := p - Foot(m, p);
      assert q in t && Next(t, q) == p;
    }
  }

  // The tags of the chunk after the range: its use and size stay, and its pinuse bit must fit the last chunk inside.
  ghost predicate AfterFits(m2: Memory, t2: Tiles, hi: Addr) {
    hi in t2 ==>
      && (!t2[hi].used ==> Head(m2, hi).pinuse)
      && (!Head(m2, hi).pinuse ==> FreeBefore(m2, t2, hi))
  }

  lemma AfterTags(m: Memory, m2: Memory, w: set<Addr>, t: Tiles, t2: Tiles, ends: set<Addr>, top: Addr, top2: Addr,
                  lo: Addr, hi: Addr)
    requires Retiled(t, t2, ends, top2, lo, hi) && RangeWords(m, m2, w, lo, hi)
    requires hi in t && hi in t2 && TileOk(t, ends, top, hi) && TagsOf(m, t, top, hi) && (hi == top <==> hi == top2)
    requires AfterFits(m2, t2, hi) && (hi == top ==> Next(t, hi) >= hi + 8)
    ensures TagsOf(m2, t2, top2, hi)
  {
    assert t2[hi] == t[hi];
    assert Aligned(t[hi].size) && t[hi].size >= 8;
  }

  lemma RetiledTagged(m: Memory, m2: Memory, w: set<Addr>, t: Tiles, t2: Tiles, starts: set<Addr>, ends: set<Addr>,
                      top: Addr, top2: Addr, lo: Addr, hi: Addr)
    requires Tiled(t, starts, ends, top) && Tagged(m, t, top)
    requires Retiled(t, t2, ends, top2, lo, hi) && RangeWords(m, m2, w, lo, hi)
    requires (top2 == top && !(lo <= top < hi)) || (lo <= top < hi && lo <= top2 < hi && hi in ends)
    requires forall p {:trigger TagsOf(m2, t2, top2, p)} :: p in t2 && lo <= p < hi ==> TagsOf(m2, t2, top2, p)
    requires AfterFits(m2, t2, hi)
    ensures Tagged(m2, t2, top2)
  {
    assert hi in t ==> TileOk(t, ends, top, hi);
    forall p | p in t2 ensures TagsOf(m2, t2, top2, p) {
      RetiledTags(m, m2, w, t, t2, starts, ends, top, top2, lo, hi, p);
    }
  }

  lemma RetiledTags(m: Memory, m2: Memory, w: set<Addr>, t: Tiles, t2: Tiles, starts: set<Addr>, ends: set<Addr>,
                    top: Addr, top2: Addr, lo: Addr, hi: Addr, p: Addr)
    requires Tiled(t, starts, ends, top) && Tagged(m, t, top)
    requires Retiled(t, t2, ends, top2, lo, hi) && RangeWords(m, m2, w, lo, hi)
    requires (top2 == top && !(lo <= top < hi)) || (lo <= top < hi && lo <= top2 < hi && hi in ends)
    requires p in t2 && (lo <= p < hi ==> TagsOf(m2, t2, top2, p))
    requires AfterFits(m2, t2, hi)
    ensures TagsOf(m2, t2, top2, p)
  {
    if p < lo || hi <= p {
      assert p in t && TileOk(t, ends, top, p) && TagsOf(m, t, top, p);
      assert hi in t ==> TileOk(t, ends, top, hi);
      hide TileOk, TagsOf, RangeWords, Apart, AfterFits, Aligned;
      if p == hi {
        TopSize(t, ends, top, hi);
        AfterTags(m, m2, w, t, t2, ends, top, top2, lo, hi);
      } else {
        OutsideTags(m, m2, w, t, t2, ends, top, top2, lo, hi, p);
      }
    }
  }

  lemma TopSize(t: Tiles, ends: set<Addr>, top: Addr, p: Addr)
    requires p in t && TileOk(t, ends, top, p)
    ensures Next(t, p) >= p + 8
  {
  }

  // ---- The changes that malloc, free, realloc and memalign make ----

  // A run of chunks becomes one free chunk.
  function Merged(t: Tiles, lo: Addr, hi: Addr): Tiles {
    map p | p in t && !(lo < p < hi) :: if p == lo then Tile(if hi > lo then hi - lo else 0, false) else t[p]
  }

  // A free chunk, or the top chunk, goes into use up to nb bytes and the rest stays free.
  function Carved(t: Tiles, p: Addr, nb: nat): Tiles
    requires p in t && nb < t[p].size
  {
    t[p := Tile(nb, true)][p + nb := Tile(t[p].size - nb, false)]
  }

  // A free chunk goes into use whole.
  function Taken(t: Tiles, p: Addr): Tiles
    requires p in t
  {
    t[p := Tile(t[p].size, true)]
  }

  // A chunk in use is cut in two chunks in use.
  function Halved(t: Tiles, p: Addr, nb: nat): Tiles
    requires p in t && nb < t[p].size
  {
    t[p := Tile(nb, true)][p + nb := Tile(t[p].size - nb, true)]
  }

  ghost predicate MergeWrites(m: Memory, m2: Memory, lo: Addr, hi: Addr, toTop: bool)
    requires lo < hi
  {
    && Head(m2, lo) == Word(hi - lo, false, true)
    && Head(m2, hi) == Head(m, hi).(pinuse := false)
    && (!toTop ==> Foot(m2, hi) == hi - lo)
    && SameExcept(m, m2, {lo + 8, hi, hi + 8})
  }

  lemma MergeRetiled(t: Tiles, ends: set<Addr>, lo: Addr, hi: Addr, top2: Addr)
    requires lo in t && lo > 0 && Aligned(lo) && lo < hi && (hi in t || (hi in ends && top2 == lo))
    requires Aligned(hi) && hi - lo >= MIN_CHUNK_SIZE
    ensures Retiled(t, Merged(t, lo, hi), ends, top2, lo, hi)
  {
    AlignedSum(hi, lo);
  }

  lemma AlignedSum(a: nat, b: nat)
    ensures Aligned(a) && Aligned(b) ==> Aligned(a + b)
    ensures Aligned(a) && Aligned(b) && b <= a ==> Aligned(a - b)
  {
    if Aligned(a) && Aligned(b) {
      var x, y := a / 8, b / 8;
      assert a == 8 * x && b == 8 * y;
      assert a + b == 8 * (x + y) && a - b == 8 * (x - y);
    }
  }

  lemma MergeKeeps(m: Memory, m2: Memory, t: Tiles, starts: set<Addr>, ends: set<Addr>, top: Addr,
                   lo: Addr, hi: Addr, top2: Addr)
    requires Tiled(t, starts, ends, top) && Tagged(m, t, top) && Inside(starts, ends, lo, hi)
    requires lo in t && lo < hi && (top2 != lo ==> hi in t) && Aligned(hi) && hi - lo >= MIN_CHUNK_SIZE
    requires if top2 == lo then lo <= top < hi && hi in ends else top2 == top && !(lo <= top < hi)
    requires Head(m, lo).pinuse && (hi in t ==> t[hi].used)
    requires MergeWrites(m, m2, lo, hi, top2 == lo)
    ensures Change(m, m2, t, Merged(t, lo, hi), starts, ends, top2, lo, hi, {lo + 8, hi, hi + 8})
  {
    var t2, w := Merged(t, lo, hi), {lo + 8, hi, hi + 8};
    assert TileOk(t, ends, top, lo);
    MergeRetiled(t, ends, lo, hi, top2);
    RetiledTiled(t, t2, starts, ends, top, top2, lo, hi);
    assert TagsOf(m2, t2, top2, lo);
    assert AfterFits(m2, t2, hi) by {
      if hi in t2 {
        assert hi - Foot(m2, hi) == lo;
      }
    }
    RetiledTagged(m, m2, w, t, t2, starts, ends, top, top2, lo, hi);
  }

  ghost predicate CarveWrites(m: Memory, m2: Memory, p: Addr, nb: nat, size: nat, isTop: bool)
    requires nb < size
  {
    && Head(m2, p) == Word(nb, true, true) && Head(m2, p + nb) == Word(size - nb, false, true)
    && (!isTop ==> Foot(m2, p + size) == size - nb)
    && SameExcept(m, m2, {p + 8, p + nb + 8, p + size})
  }

  lemma CarveKeeps(m: Memory, m2: Memory, t: Tiles, starts: set<Addr>, ends: set<Addr>, top: Addr, p: Addr, nb: nat)
    requires Tiled(t, starts, ends, top) && Tagged(m, t, top)
    requires p in t && !t[p].used && MIN_CHUNK_SIZE <= nb < t[p].size && Aligned(nb)
    requires p != top ==> t[p].size - nb >= MIN_CHUNK_SIZE
    requires CarveWrites(m, m2, p, nb, t[p].size, p == top)
    ensures Change(m, m2, t, Carved(t, p, nb), starts, ends, if p == top then p + nb else top,
                   p, Next(t, p), {p + 8, p + nb + 8, p + t[p].size})
  {
    var t2, top2, lo, hi := Carved(t, p, nb), if p == top then p + nb else top, p, Next(t, p);
    var w := {p + 8, p + nb + 8, p + t[p].size};
    assert TileOk(t, ends, top, p);
    NoneInside(t, starts, ends, p);
    CarveRetiled(t, starts, ends, top, p, nb);
    CarveTags(m, m2, t, starts, ends, top, p, nb);
    hide Retiled, TagsOf, AfterFits, RangeWords, TileOk, Inside, CarveWrites, Apart, Bounded, Started, Aligned;
    RetiledTiled(t, t2, starts, ends, top, top2, lo, hi);
    RetiledTagged(m, m2, w, t, t2, starts, ends, top, top2, lo, hi);
  }

  lemma NoneInside(t: Tiles, starts: set<Addr>, ends: set<Addr>, p: Addr)
    requires p in t && Apart(t) && Bounded(t, ends) && Started(t, starts)
    ensures Inside(starts, ends, p, Next(t, p))
    ensures forall q :: q in t ==> !(p < q < Next(t, p))
  {
  }

  // Two chunks in place of one.
  lemma TwoRetiled(t: Tiles, t2: Tiles, ends: set<Addr>, top2: Addr, p: Addr, nb: nat, u: bool)
    requires p in t && p > 0 && Aligned(p) && Aligned(t[p].size) && MIN_CHUNK_SIZE <= nb < t[p].size && Aligned(nb)
    requires Next(t, p) in t || (Next(t, p) in ends && (u || p + nb == top2))
    requires forall q :: q in t ==> !(p < q < Next(t, p))
    requires p + nb != top2 ==> t[p].size - nb >= MIN_CHUNK_SIZE
    requires t2 == t[p := Tile(nb, true)][p + nb := Tile(t[p].size - nb, u)]
    ensures Retiled(t, t2, ends, top2, p, Next(t, p))
  {
    AlignedSum(p, nb);
    AlignedSum(t[p].size, nb);
    var r, hi := p + nb, Next(t, p);
    assert forall q :: q in t2 && p <= q < hi ==> q == p || q == r;
    assert Next(t2, p) == r && Next(t2, r) == hi;
    assert TileOk(t2, ends, top2, p) && TileOk(t2, ends, top2, r);
  }

  lemma CarveRetiled(t: Tiles, starts: set<Addr>, ends: set<Addr>, top: Addr, p: Addr, nb: nat)
    requires Tiled(t, starts, ends, top)
    requires p in t && MIN_CHUNK_SIZE <= nb < t[p].size && Aligned(nb)
    requires p != top ==> t[p].size - nb >= MIN_CHUNK_SIZE
    ensures Inside(starts, ends, p, Next(t, p))
    ensures !t[p].used ==> Retiled(t, Carved(t, p, nb), ends, if p == top then p + nb else top, p, Next(t, p))
    ensures t[p].used ==> Retiled(t, Halved(t, p, nb), ends, if p == top then p + nb else top, p, Next(t, p))
  {
    hide Retiled;
    assert TileOk(t, ends, top, p);
    NoneInside(t, starts, ends, p);
    var top2 := if p == top then p + nb else top;
    if t[p].used {
      TwoRetiled(t, Halved(t, p, nb), ends, top2, p, nb, true);
    } else {
      TwoRetiled(t, Carved(t, p, nb), ends, top2, p, nb, false);
    }
  }

  lemma CarveTags(m: Memory, m2: Memory, t: Tiles, starts: set<Addr>, ends: set<Addr>, top: Addr, p: Addr, nb: nat)
    requires Tiled(t, starts, ends, top) && Tagged(m, t, top)
    requires p in t && !t[p].used && MIN_CHUNK_SIZE <= nb < t[p].size && Aligned(nb)
    requires p != top ==> t[p].size - nb >= MIN_CHUNK_SIZE
    requires CarveWrites(m, m2, p, nb, t[p].size, p == top)
    ensures var t2, top2, hi := Carved(t, p, nb), if p == top then p + nb else top, Next(t, p);
      && TagsOf(m2, t2, top2, p) && TagsOf(m2, t2, top2, p + nb) && AfterFits(m2, t2, hi)
      && RangeWords(m, m2, {p + 8, p + nb + 8, p + t[p].size}, p, hi)
      && forall q :: q in t2 && p <= q < hi ==> q == p || q == p + nb
  {
    var t2, hi := Carved(t, p, nb), Next(t, p);
    assert TileOk(t, ends, top, p) && TagsOf(m, t, top, p);
    NoneInside(t, starts, ends, p);
    if hi in t {
      assert TagsOf(m, t, top, hi);
      if p != top {
        assert hi - Foot(m2, hi) == p + nb;
      }
    }
  }

  ghost predicate TakeWrites(m: Memory, m2: Memory, p: Addr, size: nat) {
    && Head(m2, p) == Word(size, true, true) && Head(m2, p + size) == Head(m, p + size).(pinuse := true)
    && SameExcept(m, m2, {p + 8, p + size + 8})
  }

  lemma TakeKeeps(m: Memory, m2: Memory, t: Tiles, starts: set<Addr>, ends: set<Addr>, top: Addr, p: Addr)
    requires Tiled(t, starts, ends, top) && Tagged(m, t, top)
    requires p in t && !t[p].used && p != top && TakeWrites(m, m2, p, t[p].size)
    ensures Change(m, m2, t, Taken(t, p), starts, ends, top, p, Next(t, p), {p + 8, p + t[p].size + 8})
  {
    var t2, hi := Taken(t, p), Next(t, p);
    var w := {p + 8, p + t[p].size + 8};
    assert TileOk(t, ends, top, p);
    NoneInside(t, starts, ends, p);
    TakeRetiled(t, ends, top, p);
    TakeTags(m, m2, t, starts, ends, top, p);
    hide Retiled, TagsOf, AfterFits, RangeWords, TileOk, Inside;
    RetiledTiled(t, t2, starts, ends, top, top, p, hi);
    RetiledTagged(m, m2, w, t, t2, starts, ends, top, top, p, hi);
  }

  lemma TakeRetiled(t: Tiles, ends: set<Addr>, top: Addr, p: Addr)
    requires p in t && TileOk(t, ends, top, p) && forall q :: q in t ==> !(p < q < Next(t, p))
    ensures Retiled(t, Taken(t, p), ends, top, p, Next(t, p))
  {
    assert TileOk(Taken(t, p), ends, top, p);
  }

  lemma TakeTags(m: Memory, m2: Memory, t: Tiles, starts: set<Addr>, ends: set<Addr>, top: Addr, p: Addr)
    requires Tiled(t, starts, ends, top) && Tagged(m, t, top)
    requires p in t && !t[p].used && p != top && TakeWrites(m, m2, p, t[p].size)
    ensures var t2, hi := Taken(t, p), Next(t, p);
      && TagsOf(m2, t2, top, p) && AfterFits(m2, t2, hi) && RangeWords(m, m2, {p + 8, p + t[p].size + 8}, p, hi)
      && forall q :: q in t2 && p <= q < hi ==> q == p
  {
    assert TileOk(t, ends, top, p) && TagsOf(m, t, top, p);
    NoneInside(t, starts, ends, p);
  }

  ghost predicate HalveWrites(m: Memory, m2: Memory, p: Addr, nb: nat, size: nat)
    requires nb < size
  {
    && Head(m2, p) == Word(nb, true, Head(m, p).pinuse) && Head(m2, p + nb) == Word(size - nb, true, true)
    && SameExcept(m, m2, {p + 8, p + nb + 8})
  }

  lemma HalveKeeps(m: Memory, m2: Memory, t: Tiles, starts: set<Addr>, ends: set<Addr>, top: Addr, p: Addr, nb: nat)
    requires Tiled(t, starts, ends, top) && Tagged(m, t, top)
    requires p in t && t[p].used && MIN_CHUNK_SIZE <= nb && nb + MIN_CHUNK_SIZE <= t[p].size && Aligned(nb)
    requires p != top && HalveWrites(m, m2, p, nb, t[p].size)
    ensures Change(m, m2, t, Halved(t, p, nb), starts, ends, top, p, Next(t, p), {p + 8, p + nb + 8})
  {
    var t2, hi := Halved(t, p, nb), Next(t, p);
    var w := {p + 8, p + nb + 8};
    NoneInside(t, starts, ends, p);
    CarveRetiled(t, starts, ends, top, p, nb);
    HalveTags(m, m2, t, starts, ends, top, p, nb);
    hide Retiled, TagsOf, AfterFits, RangeWords, TileOk, Inside;
    RetiledTiled(t, t2, starts, ends, top, top, p, hi);
    RetiledTagged(m, m2, w, t, t2, starts, ends, top, top, p, hi);
  }

  lemma HalveTags(m: Memory, m2: Memory, t: Tiles, starts: set<Addr>, ends: set<Addr>, top: Addr, p: Addr, nb: nat)
    requires Tiled(t, starts, ends, top) && Tagged(m, t, top)
    requires p in t && t[p].used && MIN_CHUNK_SIZE <= nb && nb + MIN_CHUNK_SIZE <= t[p].size && Aligned(nb)
    requires p != top && HalveWrites(m, m2, p, nb, t[p].size)
    ensures var t2, hi := Halved(t, p, nb), Next(t, p);
      && TagsOf(m2, t2, top, p) && TagsOf(m2, t2, top, p + nb) && AfterFits(m2, t2, hi)
      && RangeWords(m, m2, {p + 8, p + nb + 8}, p, hi)
      && forall q :: q in t2 && p <= q < hi ==> q == p || q == p + nb
  {
    var t2, hi := Halved(t, p, nb), Next(t, p);
    assert TileOk(t, ends, top, p) && TagsOf(m, t, top, p);
    NoneInside(t, starts, ends, p);
    if hi in t {
      assert TagsOf(m, t, top, hi) && TileOk(t, ends, top, hi);
    }
    if !Head(m, p).pinuse {
      var q := p - Foot(m, p);
      assert q in t && Next(t, q) == p && q < p;
    }
  }

  // A chunk in use grows into the top chunk after it.
  function Expanded(t: Tiles, p: Addr, top: Addr, nb: nat): Tiles
    requires p in t && top in t && nb < t[p].size + t[top].size
  {
    (t - {top})[p := Tile(nb, true)][p + nb := Tile(t[p].size + t[top].size - nb, false)]
  }

  ghost predicate ExpandWrites(m: Memory, m2: Memory, p: Addr, nb: nat, total: nat)
    requires nb < total
  {
    && Head(m2, p) == Word(nb, true, Head(m, p).pinuse) && Head(m2, p + nb) == Word(total - nb, false, true)
    && SameExcept(m, m2, {p + 8, p + nb + 8})
  }

  lemma ExpandKeeps(m: Memory, m2: Memory, t: Tiles, starts: set<Addr>, ends: set<Addr>, top: Addr, p: Addr, nb: nat)
    requires Tiled(t, starts, ends, top) && Tagged(m, t, top)
    requires p in t && t[p].used && Next(t, p) == top && t[p].size < nb < t[p].size + t[top].size && Aligned(nb)
    requires ExpandWrites(m, m2, p, nb, t[p].size + t[top].size)
    ensures Change(m, m2, t, Expanded(t, p, top, nb), starts, ends, p + nb, p, Next(t, top), {p + 8, p + nb + 8})
  {
    var t2, hi := Expanded(t, p, top, nb), Next(t, top);
    var w := {p + 8, p + nb + 8};
    hide Retiled, Tiled, Tagged, TagsOf, AfterFits, RangeWords, TileOk, Inside, ExpandWrites, Aligned;
    ExpandRetiled(t, starts, ends, top, p, nb);
    ExpandTags(m, m2, t, starts, ends, top, p, nb);
    ExpandInto(t, starts, ends, top, p, nb);
    RetiledTiled(t, t2, starts, ends, top, p + nb, p, hi);
    RetiledTagged(m, m2, w, t, t2, starts, ends, top, p + nb, p, hi);
  }

  lemma ExpandInto(t: Tiles, starts: set<Addr>, ends: set<Addr>, top: Addr, p: Addr, nb: nat)
    requires Tiled(t, starts, ends, top)
    requires p in t && t[p].used && Next(t, p) == top && t[p].size < nb < t[p].size + t[top].size
    ensures var t2, hi := Expanded(t, p, top, nb), Next(t, top);
      && p <= top < hi && hi in ends && p + nb in t2 && !t2[p + nb].used && Next(t2, p + nb) == hi && p < p + nb < hi
      && forall q :: q in t2 && p <= q < hi ==> q == p || q == p + nb
  {
    assert TileOk(t, ends, top, p) && TileOk(t, ends, top, top);
  }

  // Words of a range belong to no chunk in use that starts outside it.
  lemma RangeUnowned(t: Tiles, ends: set<Addr>, lo: Addr, hi: Addr, w: set<Addr>)
    requires Apart(t) && Bounded(t, ends) && lo in t && (hi in t || hi in ends)
    requires forall a :: a in w ==> lo + 8 <= a <= hi + 8
    ensures forall q, a :: q in t && a in w && !(lo <= q < hi) ==> !InUsable(t, q, a)
  {
  }

  lemma ExpandRetiled(t: Tiles, starts: set<Addr>, ends: set<Addr>, top: Addr, p: Addr, nb: nat)
    requires Tiled(t, starts, ends, top)
    requires p in t && t[p].used && Next(t, p) == top && t[p].size < nb < t[p].size + t[top].size && Aligned(nb)
    ensures Inside(starts, ends, p, Next(t, top))
    ensures Retiled(t, Expanded(t, p, top, nb), ends, p + nb, p, Next(t, top))
    ensures forall q :: q in t && p <= q < Next(t, top) ==> q == p || q == top
  {
    assert TileOk(t, ends, top, p) && TileOk(t, ends, top, top);
    NoneInside(t, starts, ends, p);
    NoneInside(t, starts, ends, top);
    ExpandTiles(t, ends, top, p, nb);
  }

  lemma ExpandTiles(t: Tiles, ends: set<Addr>, top: Addr, p: Addr, nb: nat)
    requires p in t && top in t && TileOk(t, ends, top, p) && TileOk(t, ends, top, top) && Next(t, top) in ends
    requires Next(t, p) == top && t[p].size < nb < t[p].size + t[top].size && Aligned(nb) && p != top
    requires forall q :: q in t && p <= q < Next(t, top) ==> q == p || q == top
    ensures Retiled(t, Expanded(t, p, top, nb), ends, p + nb, p, Next(t, top))
  {
    var t2, hi := Expanded(t, p, top, nb), Next(t, top);
    AlignedSum(p, nb);
    AlignedSum(t[p].size, t[top].size);
    AlignedSum(t[p].size + t[top].size, nb);
    assert forall q :: q in t2 && p <= q < hi ==> q == p || q == p + nb;
    assert Next(t2, p) == p + nb && Next(t2, p + nb) == hi;
    assert TileOk(t2, ends, p + nb, p) && TileOk(t2, ends, p + nb, p + nb);
  }

  lemma ExpandTags(m: Memory, m2: Memory, t: Tiles, starts: set<Addr>, ends: set<Addr>, top: Addr, p: Addr, nb: nat)
    requires Tiled(t, starts, ends, top) && Tagged(m, t, top)
    requires p in t && t[p].used && Next(t, p) == top && t[p].size < nb < t[p].size + t[top].size && Aligned(nb)
    requires ExpandWrites(m, m2, p, nb, t[p].size + t[top].size)
    ensures var t2, hi := Expanded(t, p, top, nb), Next(t, top);
      && TagsOf(m2, t2, p + nb, p) && TagsOf(m2, t2, p + nb, p + nb) && AfterFits(m2, t2, hi)
      && RangeWords(m, m2, {p + 8, p + nb + 8}, p, hi)
  {
    var t2, hi := Expanded(t, p, top, nb), Next(t, top);
    assert TileOk(t, ends, top, p) && TagsOf(m, t, top, p) && TagsOf(m, t, top, top) && TileOk(t, ends, top, top);
    if !Head(m, p).pinuse {
      var q := p - Foot(m, p);
      assert q in t && Next(t, q) == p && q < p;
    }
  }
}
