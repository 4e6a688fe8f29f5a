// The chunks partition the tiled part of every segment: from its first byte to
// the top foot or the fenceposts, each byte is in exactly one chunk.
module Coverage {
  import opened Tiling
  import opened HeapState
  import SmallBins

  // The part of a segment that is made of chunks.
  predicate InPart(h: Heap, i: nat, x: Addr) {
    i < |h.segs| && h.segs[i].base <= x < EndOf(h, i)
  }

  lemma PartOf(h: Heap, i: nat)
    requires Ok(h) && i < |h.segs|
    ensures h.segs[i].base in h.tiles && h.segs[i].base in h.starts && EndOf(h, i) in h.ends && EndOf(h, i) !in h.tiles
    ensures h.segs[i].base < EndOf(h, i) < h.segs[i].base + h.segs[i].size
  {
    hide Tagged, Binned, VictimOk, EndsKnown, InArena, DirectsOk;
    assert SegmentOk(h, i);
  }

  lemma PartsApart(h: Heap, i: nat, j: nat, x: Addr)
    requires Ok(h) && InPart(h, i, x) && InPart(h, j, x)
    ensures i == j
  {
    PartOf(h, i);
    PartOf(h, j);
    hide SegmentOk, Tagged, Tiled, Binned, VictimOk, EndsKnown, InArena, DirectsOk;
  }

  // A chunk that starts before the end of a part and reaches up to it lies in the part.
  lemma StartsInside(h: Heap, p: Addr, i: nat)
    requires Ok(h) && p in h.tiles && i < |h.segs| && h.segs[i].base < Next(h.tiles, p) <= EndOf(h, i)
    ensures InPart(h, i, p)
  {
    PartOf(h, i);
    hide SpaceOk, UsersOk, Tagged, Binned, VictimOk;
    assert TileOk(h.tiles, h.ends, h.top, p);
  }

  // Every chunk lies in the part of one segment.
  lemma {:induction false} EachInSegment(h: Heap, p: Addr) returns (i: nat)
    requires Ok(h) && p in h.tiles
    ensures InPart(h, i, p) && Next(h.tiles, p) <= EndOf(h, i)
    ensures Next(h.tiles, p) !in h.tiles ==> Next(h.tiles, p) == EndOf(h, i)
    decreases TWO64 - p
  {
    var n := NextOf(h, p);
    if n in h.tiles {
      i := EachInSegment(h, n);
      PartOf(h, i);
      FirstHasNoneBefore(h, i, p);
    } else {
      i := EndFor(h, n);
      PartOf(h, i);
      BaseNotInside(h, i, p);
    }
    StartsInside(h, p, i);
  }

  lemma NextOf(h: Heap, p: Addr) returns (n: Addr)
    requires Ok(h) && p in h.tiles
    ensures n == Next(h.tiles, p) && n > p && p < TWO64 && (n !in h.tiles ==> n in h.ends)
  {
    hide SegmentOk, UsersOk, Tagged, Binned, VictimOk, EndsKnown, DirectsOk;
    n := Next(h.tiles, p);
    assert TileOk(h.tiles, h.ends, h.top, p);
    assert p <= p < n;
    assert p in h.arena;
  }

  lemma EndFor(h: Heap, e: Addr) returns (i: nat)
    requires Ok(h) && e in h.ends
    ensures i < |h.segs| && EndOf(h, i) == e
  {
    hide SegmentOk, UsersOk, CoreOk, DirectsOk, InArena;
    i :| 0 <= i < |h.segs| && EndOf(h, i) == e;
  }

  lemma FirstHasNoneBefore(h: Heap, i: nat, p: Addr)
    requires Ok(h) && i < |h.segs| && h.segs[i].base in h.starts && p in h.tiles
    ensures Next(h.tiles, p) != h.segs[i].base
  {
    hide SegmentOk, UsersOk, Tagged, Binned, VictimOk, EndsKnown, DirectsOk;
  }

  lemma BaseNotInside(h: Heap, i: nat, p: Addr)
    requires Ok(h) && i < |h.segs| && h.segs[i].base in h.tiles && p in h.tiles
    ensures !(p < h.segs[i].base < Next(h.tiles, p))
  {
    hide SegmentOk, UsersOk, Tagged, Binned, VictimOk, EndsKnown, DirectsOk;
  }

  // Walking from chunk to chunk, one comes to the chunk that has the byte x.
  lemma {:induction false} Walk(h: Heap, i: nat, p: Addr, x: Addr) returns (q: Addr)
    requires Ok(h) && p in h.tiles && InPart(h, i, p) && p <= x < EndOf(h, i)
    ensures q in h.tiles && q <= x < Next(h.tiles, q) && InPart(h, i, q)
    decreases x - p
  {
    var n := NextOf(h, p);
    if x < n {
      q := p;
    } else {
      var j := EachInSegment(h, p);
      PartsApart(h, i, j, p);
      q := Walk(h, i, n, x);
    }
  }

  // Each byte of the part of a segment is in one chunk, and in no other.
  lemma Covered(h: Heap, i: nat, x: Addr) returns (q: Addr)
    requires Ok(h) && InPart(h, i, x)
    ensures q in h.tiles && q <= x < Next(h.tiles, q)
    ensures forall p :: p in h.tiles && p <= x < Next(h.tiles, p) ==> p == q
  {
    PartOf(h, i);
    q := Walk(h, i, h.segs[i].base, x);
    OnlyOne(h, q, x);
  }

  lemma OnlyOne(h: Heap, q: Addr, x: Addr)
    requires Ok(h) && q in h.tiles && q <= x < Next(h.tiles, q)
    ensures forall p :: p in h.tiles && p <= x < Next(h.tiles, p) ==> p == q
  {
    hide SpaceOk, UsersOk, Tagged, Binned, VictimOk;
  }

  // No two free chunks are next to each other.
  lemma NoFreeNeighbours(h: Heap, p: Addr)
    requires Ok(h) && p in h.tiles && !h.tiles[p].used && Next(h.tiles, p) in h.tiles
    ensures h.tiles[Next(h.tiles, p)].used
  {
    hide SpaceOk, UsersOk, Tiled, Binned, VictimOk;
    assert TagsOf(h.mem, h.tiles, h.top, p) && TagsOf(h.mem, h.tiles, h.top, Next(h.tiles, p));
  }

  // A free chunk is the top chunk, the victim, or in exactly the bin of its size; a chunk in use is none of these.
  lemma OnePlace(h: Heap, p: Addr)
    requires Ok(h) && p in h.tiles
    ensures h.tiles[p].used ==> p != h.top && p != h.dv && p !in h.small && p !in h.large
    ensures !h.tiles[p].used ==>
      || (p == h.top && p != h.dv && p !in h.small && p !in h.large)
      || (p == h.dv && p != h.top && p !in h.small && p !in h.large)
      || (p != h.top && p != h.dv && p in h.small && p !in h.large && SmallBins.IsSmall(h.tiles[p].size)
          && h.small[p] == h.tiles[p].size)
      || (p != h.top && p != h.dv && p in h.large && p !in h.small && !SmallBins.IsSmall(h.tiles[p].size)
          && h.large[p] == h.tiles[p].size)
  {
    hide SpaceOk, UsersOk, Tagged, SmallBins.IsSmall;
    assert TileOk(h.tiles, h.ends, h.top, p);
  }

  // The words after the head in which a chunk in a bin keeps its links: fd and bk, and in a tree also the children, the
  // parent and the index. They lie in the chunk, and no block handed out has any of them.
  function LinkWords(small: bool): nat {
    if small then TWO_WORDS else 6 * 8
  }

  lemma LinksInside(h: Heap, p: Addr, a: Addr)
    requires Ok(h) && (p in h.small || p in h.large)
    requires p + TWO_WORDS <= a < p + TWO_WORDS + LinkWords(p in h.small)
    ensures p in h.tiles && a < Next(h.tiles, p)
    ensures forall q :: q in h.live && (q in h.tiles || q in h.direct) ==> !OwnWord(h, q, a)
  {
    hide SegmentOk, Tagged, EndsKnown, VictimOk;
    assert TileOk(h.tiles, h.ends, h.top, p);
    assert a in h.arena by {
      assert p <= a < Next(h.tiles, p);
    }
    forall q | q in h.live && (q in h.tiles || q in h.direct) ensures !OwnWord(h, q, a) {
      if q in h.tiles {
        assert q != p;
      } else {
        DirectElsewhere(h, q, a);
      }
    }
  }

  lemma DirectElsewhere(h: Heap, q: Addr, a: Addr)
    requires Ok(h) && q in h.live && q in h.direct && q !in h.tiles && a in h.arena
    ensures !OwnWord(h, q, a)
  {
    hide SegmentOk, CoreOk, EndsKnown, InArena;
    assert DirectOk(h.mem, h.arena, q, h.direct[q]);
  }
}
