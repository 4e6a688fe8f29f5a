// An mspace: the state of the allocator and its operations, over the bins and
// the memory words. Every operation keeps the invariant, changes the blocks
// handed out by what it says, and disturbs no other block.
module Mspace {
  import opened Tiling
  import opened HeapState
  import opened HeapBlocks
  import opened HeapSegments
  import opened HeapDirect
  import opened Requests
  import opened Footprint
  import opened Outcomes
  import opened Bytes
  import Alignment
  import BinMap
  import S = SmallBins
  import T = TreeBins
  import TreeSearch
  import TreeIndex

  class Mspace {
    const os: Os
    const small: S.SmallBins
    const tree: T.TreeBins
    const granularity: nat
    const page: nat
    const mmapThreshold: nat
    const trimThreshold: nat
    const home: Addr
    // USE_MMAP_BIT
    const useMmap: bool

    var mem: Memory
    var dv: Addr
    var dvsize: nat
    var top: Addr
    var topsize: nat
    var segs: seq<Segment>
    var leastAddr: Addr
    var trimCheck: nat
    var releaseChecks: nat
    var footprint: nat
    var maxFootprint: nat

    // The bytes that the system had refused to take back before the space was made.
    ghost const keptBefore: nat

    function Terms(): Settings {
      Settings(granularity, page, mmapThreshold, useMmap)
    }

    // All of the state, with the chunks, segments and blocks that the words stand for.
    ghost var h: Heap

    ghost predicate Tied()
      reads this, small, tree
    {
      && mem == h.mem && dv == h.dv && dvsize == h.dvsize && top == h.top && topsize == h.topsize && segs == h.segs
      && small.Valid() && tree.Valid() && small.Contents() == h.small && tree.Contents() == h.large
      && ParamsOk(granularity, page)
    }

    ghost function Accounts(): Books
      reads this, os
    {
      Books(footprint, maxFootprint, leastAddr, releaseChecks, os.mapped, home, granularity, page,
            os.keptBytes - keptBefore)
    }

    ghost predicate Valid()
      reads this, small, tree, os
    {
      Tied() && Ok(h) && BooksOk(h, Accounts())
    }

    // init_user_mstate, over memory that may hold anything.
    constructor (os: Os, initial: Memory, tbase: Addr, tsize: nat, mmapped: bool,
                 granularity: nat, page: nat, mmapThreshold: nat, trimThreshold: nat, useMmap: bool)
      requires tbase > 0 && Aligned(tbase) && Aligned(tsize) && tsize > MSTATE_SIZE + TOP_FOOT_SIZE
          && tbase + tsize <= TWO64
      requires Range(tbase, tbase + tsize) <= os.mapped && ParamsOk(granularity, page)
      requires mmapped ==> Units(tsize, granularity)
      ensures Valid() && h.live == {} && fresh(small) && fresh(tree) && this.os == os
      ensures keptBefore == os.keptBytes && footprint == maxFootprint == TotalBytes(h) == tsize
      ensures h == FirstHeap(InitialWords(initial, tbase, tsize), tbase, tsize, mmapped)
      ensures Terms() == Settings(granularity, page, mmapThreshold, useMmap)
          && Tally() == Counts(tsize, trimThreshold, MAX_RELEASE_CHECK_RATE, os.refused)
    {
      hide Ok, BooksOk, S.Ok, T.Ok, S.Sizes, T.Chunks, InitialWords, Range, Units, ParamsOk;
      this.os, this.granularity, this.page := os, granularity, page;
      this.mmapThreshold, this.trimThreshold, home := mmapThreshold, trimThreshold, tbase;
      small := new S.SmallBins();
      tree := new T.TreeBins();
      var mn, size := tbase + MSTATE_SIZE, tsize - MSTATE_SIZE - TOP_FOOT_SIZE;
      mem := InitialWords(initial, tbase, tsize);
      dv, dvsize, top, topsize := 0, 0, mn, size;
      segs := [Segment(tbase, tsize, 0, mmapped, !mmapped)];
      leastAddr, trimCheck, releaseChecks := tbase, trimThreshold, MAX_RELEASE_CHECK_RATE;
      footprint, maxFootprint, keptBefore := tsize, tsize, os.keptBytes;
      this.useMmap := useMmap;
      h := FirstHeap(InitialWords(initial, tbase, tsize), tbase, tsize, mmapped);
      new;
      FirstOk(initial, tbase, tsize, mmapped);
      FirstBooks(InitialWords(initial, tbase, tsize), tbase, tsize, mmapped, os.mapped, granularity, page);
    }

    // A request that the victim can hold: the rest is the new victim, unless it is too little.
    method FromVictim(nb: nat) returns (r: Addr)
      requires Valid() && RequestOk(nb) && nb <= dvsize
      modifies this`mem, this`dv, this`dvsize, this`h
      ensures r == old(dv) + TWO_WORDS && Malloced(old(h), h, r, nb) && Cut(old(h), h, r, nb, ToVictim)
      ensures Valid()
    {
      hide Ok, BooksOk, S.Ok, T.Ok, Malloced, S.Sizes, T.Chunks, SetSizeOfFree, SetSizeOfInuse, SetInuseAndPinuse;
      hide Carved, Taken;
      VictimFacts(h);
      var rsize := dvsize - nb;
      var p := dv;
      if rsize >= MIN_CHUNK_SIZE {
        var q := p + nb;
        dv := q;
        dvsize := rsize;
        mem := SetSizeOfFree(mem, q, rsize);
        mem := SetSizeOfInuse(mem, p, nb);
        SplitDone(h, mem, p, nb, ToVictim, Accounts());
        h := CarvedHeap(h, mem, p, nb, ToVictim);
      } else {
        var dvs := dvsize;
        dvsize := 0;
        dv := 0;
        mem := SetInuseAndPinuse(mem, p, dvs);
        TakeDone(h, mem, p, nb, Accounts());
        h := TakenHeap(h, mem, p);
      }
      r := p + TWO_WORDS;
    }

    // A request that top can hold: top gives up its first bytes.
    method FromTop(nb: nat) returns (r: Addr)
      requires Valid() && RequestOk(nb) && nb < topsize
      modifies this`mem, this`top, this`topsize, this`h
      ensures Valid() && r == old(top) + TWO_WORDS && Malloced(old(h), h, r, nb) && Cut(old(h), h, r, nb, ToTop)
    {
      hide Ok, BooksOk, S.Ok, T.Ok, Malloced, S.Sizes, T.Chunks, SetHead, SetSizeOfInuse, CarveWrites;
      TopFacts(h);
      topsize := topsize - nb;
      var rsize := topsize;
      var p := top;
      top := p + nb;
      SplitTopWords(mem, p, nb, rsize + nb);
      mem := SetHead(mem, top, Word(rsize, false, true));
      mem := SetSizeOfInuse(mem, p, nb);
      CarveDone(h, mem, p, nb, ToTop, Accounts());
      h := CarvedHeap(h, mem, p, nb, ToTop);
      r := p + TWO_WORDS;
    }

    // The state with what the words, fields and bins hold at this moment.
    ghost function Written(): Heap
      reads this, small, tree
    {
      h.(mem := mem, top := top, topsize := topsize, dv := dv, dvsize := dvsize, segs := segs,
         small := small.Contents(), large := tree.Contents())
    }

    // The bins are without p, which was unlinked for use.
    ghost predicate TiedBut(p: Addr)
      reads this, small, tree
    {
      && mem == h.mem && dv == h.dv && dvsize == h.dvsize && top == h.top && topsize == h.topsize && segs == h.segs
      && small.Valid() && tree.Valid() && small.Contents() == h.small - {p} && tree.Contents() == h.large - {p}
      && ParamsOk(granularity, page)
    }

    // set_inuse_and_pinuse of a chunk from a bin
    method TakeChunk(p: Addr, size: nat, nb: nat)
      requires TiedBut(p) && Ok(h) && BooksOk(h, Accounts()) && nb <= size < nb + MIN_CHUNK_SIZE
      requires p in h.tiles && !h.tiles[p].used && p != h.top && p != h.dv && h.tiles[p].size == size
      modifies this`mem, this`h
      ensures Valid() && Malloced(old(h), h, p + TWO_WORDS, nb) && h == TakenHeap(old(h), h.mem, p)
    {
      hide Ok, BooksOk, S.Ok, T.Ok, Malloced, S.Sizes, T.Chunks, SetInuseAndPinuse, Taken;
      mem := SetInuseAndPinuse(mem, p, size);
      TakeDone(h, mem, p, nb, Accounts());
      h := TakenHeap(h, mem, p);
    }

    // replace_dv: the old victim, which is small, goes to its bin.
    method ReplaceDv(p: Addr, s: nat)
      requires small.Valid() && (dvsize != 0 ==> dv !in small.Contents() && S.IsSmall(dvsize) && dvsize % 8 == 0)
      modifies this`dv, this`dvsize, small
      ensures dv == p && dvsize == s && small.Valid()
      ensures small.Contents() ==
              if old(dvsize) == 0 then old(small.Contents()) else old(small.Contents())[old(dv) := old(dvsize)]
    {
      hide S.Ok, S.Sizes;
      var dvs := dvsize;
      if dvs != 0 {
        small.Insert(dv, dvs);
      }
      dvsize := s;
      dv := p;
    }

    // A chunk from a bin is split, and the rest is the new victim.
    method SplitToVictim(p: Addr, nb: nat, rsize: nat)
      requires TiedBut(p) && Ok(h) && BooksOk(h, Accounts()) && RequestOk(nb) && rsize >= MIN_CHUNK_SIZE
      requires p in h.tiles && !h.tiles[p].used && p != h.top && p != h.dv && h.tiles[p].size == nb + rsize
      requires S.IsSmall(dvsize)
      modifies this`mem, this`dv, this`dvsize, this`h, small
      ensures Malloced(old(h), h, p + TWO_WORDS, nb) && h == CarvedHeap(old(h), h.mem, p, nb, ToVictim)
      ensures Valid()
    {
      hide Ok, BooksOk, S.Ok, T.Ok, Malloced, S.Sizes, T.Chunks, SetSizeOfInuse, SetSizeOfFree, Carved;
      VictimUnbinned(h);
      mem := SetSizeOfInuse(mem, p, nb);
      var q := p + nb;
      mem := SetSizeOfFree(mem, q, rsize);
      ReplaceDv(q, rsize);
      SplitDone(h, mem, p, nb, ToVictim, Accounts());
      h := CarvedHeap(h, mem, p, nb, ToVictim);
    }

    // A chunk of a small bin that leaves no rest.
    method FromSmallBin(i: nat, nb: nat) returns (r: Addr)
      requires Valid() && RequestOk(nb) && i < 32 && BinMap.Marked(small.smallmap, i)
          && nb <= S.IndexSize(i) < nb + MIN_CHUNK_SIZE
      modifies this`mem, this`h, small
      ensures Valid() && Malloced(old(h), h, r, nb) && Cut(old(h), h, r, nb, ToVictim)
      ensures r - TWO_WORDS in old(h).small && old(h).small[r - TWO_WORDS] == S.IndexSize(i)
    {
      hide Ok, BooksOk, S.Ok, T.Ok, Malloced, S.Sizes, T.Chunks, TakenHeap;
      var p := small.UnlinkFirst(i);
      SmallChunk(h, p);
      TakeChunk(p, S.IndexSize(i), nb);
      r := p + TWO_WORDS;
    }

    // A chunk of the next small bin in use; the rest, if large enough, is the new victim.
    method SplitSmallBin(i: nat, nb: nat) returns (r: Addr)
      requires Valid() && RequestOk(nb) && i < 32 && BinMap.Marked(small.smallmap, i) && nb < S.IndexSize(i)
          && dvsize < nb
      modifies this`mem, this`dv, this`dvsize, this`h, small
      ensures Valid() && Malloced(old(h), h, r, nb) && Cut(old(h), h, r, nb, ToVictim)
      ensures r - TWO_WORDS in old(h).small && old(h).small[r - TWO_WORDS] == S.IndexSize(i)
    {
      hide Ok, BooksOk, S.Ok, T.Ok, Malloced, S.Sizes, T.Chunks, TakenHeap, CarvedHeap;
      var p := small.UnlinkFirst(i);
      SmallChunk(h, p);
      var rsize := S.IndexSize(i) - nb;
      if rsize < MIN_CHUNK_SIZE {
        TakeChunk(p, S.IndexSize(i), nb);
      } else {
        SplitToVictim(p, nb, rsize);
      }
      r := p + TWO_WORDS;
    }

    // tmalloc_small: the smallest chunk of the trees is split, and the rest is the new victim.
    method TmallocSmall(nb: nat) returns (r: Addr)
      requires Valid() && RequestOk(nb) && nb < TreeIndex.MIN_LARGE_SIZE && tree.treemap != 0 && dvsize < nb
      modifies this`mem, this`dv, this`dvsize, this`h, small, tree
      ensures Valid() && Malloced(old(h), h, r, nb) && Cut(old(h), h, r, nb, ToVictim)
      ensures LeastFit(old(h).large, r - TWO_WORDS, nb)
      ensures forall q :: q in old(h).large ==> old(h).large[r - TWO_WORDS] <= old(h).large[q]
    {
      hide Ok, BooksOk, S.Ok, T.Ok, Malloced, S.Sizes, T.Chunks, TakenHeap, CarvedHeap;
      var v, rsize, steps := TreeSearch.FindSmallest(tree, nb);
      LargeChunk(h, v);
      tree.Unlink(v);
      if rsize < MIN_CHUNK_SIZE {
        TakeChunk(v, rsize + nb, nb);
      } else {
        SplitToVictim(v, nb, rsize);
      }
      r := v + TWO_WORDS;
    }

    // insert_chunk, unlink_chunk
    method InsertChunk(p: Addr, s: nat)
      requires small.Valid() && tree.Valid() && p > 0 && p !in small.Contents() && p !in tree.Contents()
      requires s % 8 == 0 && s < TWO64
      modifies small, tree
      ensures small.Valid() && tree.Valid()
      ensures small.Contents() == PutSmall(old(small.Contents()), p, s)
      ensures tree.Contents() == PutLarge(old(tree.Contents()), p, s)
    {
      hide S.Ok, T.Ok, S.Sizes, T.Chunks;
      if S.IsSmall(s) {
        small.Insert(p, s);
      } else {
        var _ := tree.Insert(p, s);
      }
    }

    method UnlinkChunk(p: Addr, s: nat)
      requires small.Valid() && tree.Valid() && (if S.IsSmall(s) then p !in tree.Contents() else p !in small.Contents())
      requires if S.IsSmall(s) then p in small.Contents() && small.Contents()[p] == s else p in tree.Contents()
      modifies small, tree
      ensures small.Valid() && tree.Valid()
      ensures small.Contents() == old(small.Contents()) - {p} && tree.Contents() == old(tree.Contents()) - {p}
    {
      hide S.Ok, T.Ok, S.Sizes, T.Chunks;
      if S.IsSmall(s) {
        NoKey(tree.Contents(), p);
        small.Unlink(p, s);
      } else {
        NoKey(small.Contents(), p);
        tree.Unlink(p);
      }
    }

    // A chunk from a bin is split, and the rest goes to a bin.
    method SplitToBin(p: Addr, nb: nat, rsize: nat)
      requires TiedBut(p) && Ok(h) && BooksOk(h, Accounts()) && RequestOk(nb) && MIN_CHUNK_SIZE <= rsize < TWO64
      requires p in h.tiles && !h.tiles[p].used && p != h.top && p != h.dv && h.tiles[p].size == nb + rsize
      modifies this`mem, this`h, small, tree
      ensures Malloced(old(h), h, p + TWO_WORDS, nb) && h == CarvedHeap(old(h), h.mem, p, nb, ToBin)
      ensures Valid()
    {
      hide Ok, BooksOk, S.Ok, T.Ok, Malloced, S.Sizes, T.Chunks, SetSizeOfInuse, SetSizeOfFree, CarvedHeap, PutSmall,
        PutLarge, ParamsOk;
      RestFacts(h, p, nb);
      AlignedRest(h, p, nb);
      mem := SetSizeOfInuse(mem, p, nb);
      mem := SetSizeOfFree(mem, p + nb, rsize);
      InsertChunk(p + nb, rsize);
      SplitDone(h, mem, p, nb, ToBin, Accounts());
      CarveToBinFields(h, mem, p, nb);
      h := CarvedHeap(h, mem, p, nb, ToBin);
    }

    // tmalloc_large: an exact best fit of the trees, unless the victim fits at least as well.
    method TmallocLarge(nb: nat) returns (r: Addr)
      requires Valid() && RequestOk(nb) && nb >= TreeIndex.MIN_LARGE_SIZE
      modifies this`mem, this`h, small, tree
      ensures Valid() && Malloced(old(h), h, r, nb)
      ensures r == 0 ==> h == old(h) && forall q :: q in h.large && nb <= h.large[q] ==> nb <= dvsize <= h.large[q]
      ensures r != 0 ==> Cut(old(h), h, r, nb, ToBin)
      ensures r != 0 ==>
                var v, large := r - TWO_WORDS, old(h).large;
                LeastFit(large, v, nb) && (nb <= old(dvsize) ==> large[v] < old(dvsize))
    {
      hide Ok, BooksOk, S.Ok, T.Ok, Malloced, S.Sizes, T.Chunks, TakenHeap, CarvedHeap;
      var v, rsize, steps := TreeSearch.FindBestFit(tree, nb);
      VictimBelow(h);
      if v != 0 {
        LargeChunk(h, v);
        VictimFitsBetter(dvsize, nb, rsize);
      }
      // Otherwise the victim serves the request at least as well, and null leaves it to the caller.
      if v != 0 && rsize < TreeSearch.Minus(dvsize, nb) {
        tree.Unlink(v);
        if rsize < MIN_CHUNK_SIZE {
          TakeChunk(v, rsize + nb, nb);
        } else {
          SplitToBin(v, nb, rsize);
        }
        r := v + TWO_WORDS;
      } else {
        r := 0;
        NothingMalloced(h, nb);
      }
    }

    // The accounts of memory gained.
    method Gain(n: nat)
      modifies this`footprint, this`maxFootprint
      ensures footprint == old(footprint) + n && maxFootprint == Max(old(maxFootprint), footprint)
    {
      footprint := footprint + n;
      if footprint > maxFootprint {
        maxFootprint := footprint;
      }
    }

    // The chunk of a freshly mapped region.
    method PlaceDirect(mm: Addr, mmsize: nat, nb: nat) returns (r: Addr)
      requires Valid() && Aligned(nb) && nb >= MIN_CHUNK_SIZE
          && mmsize >= MALLOC_ALIGNMENT + MMAP_FOOT_PAD + nb + MMAP_CHUNK_OVERHEAD
      requires Fresh(h, mm, mmsize) && mm > 0 && Range(mm, mm + mmsize) <= os.mapped && Aligned(mmsize)
      requires RegionWhole(mm + MALLOC_ALIGNMENT, DirectRegion(mm, mmsize), page)
      modifies this
      ensures Valid() && r >= TWO_WORDS && Malloced(old(h), h, r, nb)
      ensures r - TWO_WORDS in h.direct && h.direct[r - TWO_WORDS] == DirectRegion(mm, mmsize)
      ensures footprint == old(footprint) + mmsize
    {
      hide Ok, BooksOk, S.Ok, T.Ok, Malloced, S.Sizes, T.Chunks, MappedWords, Range, Aligned, Fresh;
      ghost var b := Accounts();
      LeastPositive(h, b);
      var offset := MALLOC_ALIGNMENT;
      var psize := mmsize - offset - MMAP_FOOT_PAD;
      var p := mm + offset;
      mem := MappedWords(mem, mm, p, psize);
      if leastAddr == 0 || mm < leastAddr {
        leastAddr := mm;
      }
      Gain(mmsize);
      DirectAligned(mmsize);
      MapDone(h, mem, mm, p, psize, nb, b, Accounts());
      h := MappedHeap(h, mem, mm, p, psize);
      r := p + TWO_WORDS;
    }

    // mmap_alloc
    method MmapAlloc(nb: nat) returns (r: Addr)
      requires Valid() && (RequestOk(nb) || nb == MAX_SIZE_T)
      modifies this, os
      ensures Valid() && Malloced(old(h), h, r, nb) && (r == 0 ==> h == old(h)) && (nb == MAX_SIZE_T ==> r == 0)
      ensures os.keptBytes == old(os.keptBytes)
      ensures r == 0 || MappedAs(h, r, AlignUp(nb + 63, page))
      ensures footprint == old(footprint) + if r == 0 then 0 else AlignUp(nb + 63, page)
      ensures if r == 0 && nb + 63 + page <= TWO64 then os.refused > old(os.refused) else os.refused >= old(os.refused)
    {
      hide Ok, BooksOk, S.Ok, T.Ok, Malloced, S.Sizes, T.Chunks, AlignUp, Plus, Range, Units, Aligned, Fresh, ParamsOk;
      r := 0;
      NothingMalloced(h, nb);
      PageFacts(granularity, page);
      PaddedSize(nb, 63, page);
      PaddedExactly(nb, 63, page);
      var mmsize := AlignUp(Plus(nb, 63), page);
      if mmsize > nb {
        ghost var b := Accounts();
        var ok, mm := os.Map(mmsize, page);
        MoreMapped(h, b, os.mapped);
        if ok {
          MapFacts(h, b, nb, mm, mmsize, page);
          NoWrap(nb, 63, page);
          r := PlaceDirect(mm, mmsize, nb);
        }
      }
    }

    // ---- sys_alloc ----

    predicate Holds(k: nat, a: Addr)
      requires k < |segs|
      reads this
    {
      InSegment(segs[k], a)
    }

    // segment_holding
    method SegmentHolding(a: Addr) returns (k: nat)
      ensures k <= |segs| && (k < |segs| ==> Holds(k, a))
      ensures forall i: nat :: i < k ==> !Holds(i, a)
      ensures |segs| > 0 && Holds(0, a) ==> k == 0
    {
      k := 0;
      while k < |segs| && !Holds(k, a)
        invariant k <= |segs| && forall i: nat :: i < k ==> !Holds(i, a)
      {
        k := k + 1;
      }
    }

    // init_top
    method InitTop(p0: Addr, psize0: nat)
      requires AlignOffset(p0 + TWO_WORDS) <= psize0
      modifies this`mem, this`top, this`topsize, this`trimCheck
      ensures Aligned(top) && p0 <= top < p0 + 8 && top + topsize == p0 + psize0 && (Aligned(p0) ==> top == p0)
      ensures mem == AppendedWords(old(mem), top, topsize) && trimCheck == trimThreshold
    {
      var offset := AlignOffset(p0 + TWO_WORDS);
      OffsetAligns(p0);
      var p := p0 + offset;
      var psize := psize0 - offset;
      top := p;
      topsize := psize;
      mem := SetHead(mem, p, Word(psize, false, true));
      mem := SetHead(mem, p + psize, Word(TOP_FOOT_SIZE, false, false));
      trimCheck := trimThreshold;
    }

    // New memory right after the segment of top extends both.
    method Append(tsize: nat, ghost b: Books)
      requires Tied() && Ok(h) && BooksOk(h, b) && 0 < tsize && Units(tsize, granularity)
          && b.granularity == granularity > 0
      requires |segs| > 0 && segs[0].base <= top && segs[0].base + segs[0].size == TopEnd(h) && segs[0].mmapped
      requires Fresh(h, TopEnd(h), tsize) && Gained(b, Accounts(), tsize, TopEnd(h))
      modifies this`segs, this`mem, this`top, this`topsize, this`trimCheck, this`h
      ensures Valid() && Undisturbed(old(h), h, old(h).live) && h.live == old(h).live && topsize == old(topsize) + tsize
      ensures h.direct == old(h).direct && segs == old(segs)[0 := old(segs)[0].(size := old(segs)[0].size + tsize)]
    {
      hide Ok, BooksOk, S.Ok, T.Ok, Undisturbed, S.Sizes, T.Chunks, AppendedWords, Units, Fresh, Gained;
      TopFacts(h);
      segs := segs[0 := segs[0].(size := segs[0].size + tsize)];
      OffsetAligns(top);
      InitTop(top, topsize + tsize);
      AppendDone(h, mem, tsize, b, Accounts());
      h := AppendedHeap(h, mem, tsize);
    }

    // The trailing fenceposts: heads of FENCEPOST_HEAD from tnext to the end of the old segment.
    method InsertFences(tnext: Addr, oldEnd: Addr) returns (nfences: nat)
      requires Aligned(tnext) && Aligned(oldEnd) && tnext + TWO_WORDS <= oldEnd
      modifies this`mem
      ensures Fenced(mem, tnext, oldEnd) && SameExcept(old(mem), mem, Range(tnext + 8, oldEnd))
      ensures nfences * 8 + tnext + 8 == oldEnd
    {
      var p := tnext;
      nfences := 0;
      while true
        invariant tnext <= p && Aligned(p) && p + TWO_WORDS <= oldEnd && p == tnext + 8 * nfences
        invariant forall f: Addr {:trigger Head(mem, f)} :: tnext <= f < p && Aligned(f) ==> Head(mem, f) == FENCEPOST
        invariant SameExcept(old(mem), mem, Range(tnext + 8, oldEnd))
        decreases oldEnd - p
      {
        var nextp := p + 8;
        ghost var before := mem;
        mem := SetHead(mem, p, FENCEPOST);
        forall f: Addr | tnext <= f <= p && Aligned(f) ensures Head(mem, f) == FENCEPOST {
          assert f != p ==> Head(before, f) == FENCEPOST;
        }
        nfences := nfences + 1;
        if nextp + 8 < oldEnd {
          p := nextp;
        } else {
          break;
        }
      }
    }

    // The new top, the record of the old segment at csp, and the fenceposts after it.
    method PlaceRecord(tbase: Addr, tsize: nat, csp: Addr, oldEnd: Addr)
      requires |segs| > 0 && tsize > TOP_FOOT_SIZE && Placed(top, oldEnd, csp, tbase, tsize - TOP_FOOT_SIZE)
          && Aligned(oldEnd)
      requires csp + SEGMENT_RECORD_SIZE + 4 * 8 <= oldEnd
      modifies this`mem, this`top, this`topsize, this`trimCheck, this`segs
      ensures top == tbase && topsize == tsize - TOP_FOOT_SIZE
      ensures segs == [Segment(tbase, tsize, 0, true, false)]
                      + [old(segs)[0].(record := csp + TWO_WORDS)] + old(segs)[1..]
      ensures AddWrites(old(mem), if csp == old(top) then mem else SetFree(mem, old(top), csp - old(top), csp),
                        old(top), csp, oldEnd, tbase, topsize)
    {
      hide AppendedWords, SetSizeOfInuse, Fenced, SameExcept, AddWrites, Aligned;
      AddedWordsAligned(top, oldEnd, csp, tbase, tsize - TOP_FOOT_SIZE);
      var tnext := csp + SEGMENT_RECORD_SIZE;
      OffsetAligns(tbase);
      InitTop(tbase, tsize - TOP_FOOT_SIZE);
      mem := SetSizeOfInuse(mem, csp, SEGMENT_RECORD_SIZE);
      segs := [Segment(tbase, tsize, 0, true, false)] + [segs[0].(record := csp + TWO_WORDS)] + segs[1..];
      var nfences := InsertFences(tnext, oldEnd);
      assert nfences >= 2;
      AddedWordsOk(old(mem), mem, old(top), csp, oldEnd, tbase, topsize);
    }

    // Where the record of the segment of top goes, computed back from the end of that segment.
    method RecordSpot() returns (csp: Addr, oldEnd: Addr)
      requires Tied() && Ok(h)
      ensures csp == RecordChunk(h) && oldEnd == TopEnd(h)
    {
      hide Ok, S.Ok, T.Ok, S.Sizes, T.Chunks, AlignOffset;
      TopFacts(h);
      TopIsLast(h);
      var oldTop := top;
      assert Holds(0, oldTop);
      var sp := SegmentHolding(oldTop);
      oldEnd := segs[sp].base + segs[sp].size;
      RecordPlace(h, oldEnd);
      var rawsp := oldEnd - (SEGMENT_RECORD_SIZE + 32 + 7);
      var asp := rawsp + AlignOffset(rawsp + TWO_WORDS);
      csp := if asp < oldTop + MIN_CHUNK_SIZE then oldTop else asp;
    }

    // add_segment: old top gives up its end to the record of its segment and to fenceposts.
    method AddSegment(tbase: Addr, tsize: nat, ghost b: Books)
      requires Tied() && Ok(h) && BooksOk(h, b) && Units(tsize, granularity) && b.granularity == granularity
      requires tsize > TOP_FOOT_SIZE && Fresh(h, tbase, tsize) && Gained(b, Accounts(), tsize, tbase)
      modifies this`mem, this`top, this`topsize, this`trimCheck, this`segs, this`h, small, tree
      ensures Valid() && Undisturbed(old(h), h, old(h).live) && h.live == old(h).live
          && topsize == tsize - TOP_FOOT_SIZE && h.direct == old(h).direct
      ensures AddedFirst(old(h), segs, tbase, tsize)
    {
      hide Ok, BooksOk, S.Ok, T.Ok, Undisturbed, S.Sizes, T.Chunks, Units, Fresh, Gained, Placed, AddWrites, SetFree,
        AddedTiles, AddedEnds, PutSmall, PutLarge;
      TopFacts(h);
      TopIsLast(h);
      AddFacts(h, tbase, tsize);
      var oldTop := top;
      var csp, oldEnd := RecordSpot();
      PlaceRecord(tbase, tsize, csp, oldEnd);
      if csp != oldTop {
        var psize := csp - oldTop;
        mem := SetFree(mem, oldTop, psize, csp);
        InsertChunk(oldTop, psize);
      }
      AddDone(h, mem, tbase, tsize, b, Accounts());
      h := AddedHeap(h, mem, tbase, tsize, true);
    }

    // The rest of the new memory, at q, joins the first chunk of the segment, or stands alone before it.
    method PrependRest(q: Addr, qsize0: nat, oldfirst0: Addr, ghost hi: Addr, ghost kind: Freed)
      requires small.Valid() && tree.Valid() && small.Contents() == h.small && tree.Contents() == h.large
      requires dv == h.dv && dvsize == h.dvsize && top == h.top && topsize == h.topsize
      requires oldfirst0 in h.tiles && Known(h, mem, oldfirst0) && RestOf(h, oldfirst0, hi, kind)
          && oldfirst0 == q + qsize0
      requires q > 0 && q !in h.small && q !in h.large && qsize0 >= MIN_CHUNK_SIZE && hi <= TWO64
      requires Aligned(qsize0) && Aligned(qsize0 + h.tiles[oldfirst0].size)
      modifies this`mem, this`top, this`topsize, this`dv, this`dvsize, small, tree
      ensures small.Valid() && tree.Valid() && hi > q + 16
      ensures mem == match kind
                     case IntoTop => SetHead(old(mem), q, Word(hi - q, false, true))
                     case IntoVictim => SetSizeOfFree(old(mem), q, hi - q)
                     case IntoBin => SetFree(old(mem), q, hi - q, hi)
      ensures top == (if kind == IntoTop then q else h.top)
          && topsize == (if kind == IntoTop then hi - q else h.topsize)
      ensures dv == (if kind == IntoVictim then q else h.dv)
          && dvsize == (if kind == IntoVictim then hi - q else h.dvsize)
      ensures small.Contents() == if kind == IntoBin then PutSmall(h.small - {oldfirst0}, q, hi - q) else h.small
      ensures tree.Contents() == if kind == IntoBin then PutLarge(h.large - {oldfirst0}, q, hi - q) else h.large
    {
      hide S.Ok, T.Ok, S.Sizes, T.Chunks, SetFree, SetHead, SetSizeOfFree, PutSmall, PutLarge, S.IsSmall;
      var oldfirst, qsize := oldfirst0, qsize0;
      assert oldfirst > q && Head(mem, oldfirst).pinuse && qsize >= MIN_CHUNK_SIZE;
      if oldfirst == top {
        topsize := topsize + qsize;
        top := q;
        mem := SetHead(mem, q, Word(topsize, false, true));
      } else if oldfirst == dv {
        dvsize := dvsize + qsize;
        dv := q;
        mem := SetSizeOfFree(mem, q, dvsize);
      } else {
        if !IsInuse(mem, oldfirst) {
          var nsize := Head(mem, oldfirst).size;
          UnlinkChunk(oldfirst, nsize);
          oldfirst := oldfirst + nsize;
          qsize := qsize + nsize;
        } else {
          NoKey(h.small, oldfirst);
          NoKey(h.large, oldfirst);
        }
        mem := SetFree(mem, q, qsize, oldfirst);
        InsertChunk(q, qsize);
      }
    }

    // The words and fields that prepend_alloc writes.
    method PrependChunks(k: nat, tbase: Addr, tsize: nat, nb: nat, ghost hi: Addr, ghost kind: Freed)
      requires Tied() && Ok(h) && k < |segs| && segs[k].base == tbase + tsize && Aligned(tsize) && tbase > 0
      requires nb + MIN_CHUNK_SIZE <= tsize && RequestOk(nb) && Fresh(h, tbase, tsize)
      requires segs[k].base in h.tiles ==> RestOf(h, segs[k].base, hi, kind)
      modifies this`mem, this`top, this`topsize, this`dv, this`dvsize, this`segs, small, tree
      ensures small.Valid() && tree.Valid() && hi >= tbase + tsize && RestOf(h, tbase + tsize, hi, kind)
      ensures segs == old(segs)[k := old(segs)[k].(base := tbase, size := old(segs)[k].size + tsize)]
      ensures PrependWritten(h, Written(), k, tsize, nb, hi, kind)
    {
      hide Ok, S.Ok, T.Ok, S.Sizes, T.Chunks, Fresh, SetFree, SetHead, SetSizeOfFree, SetSizeOfInuse, PutSmall,
        PutLarge, Known, RequestOk, Aligned, RestOf;
      var p, oldfirst := tbase, segs[k].base;
      PrependReady(h, k, tsize, nb, hi, kind);
      segs := segs[k := segs[k].(base := tbase, size := segs[k].size + tsize)];
      var psize := oldfirst - p;
      var q := p + nb;
      var qsize := psize - nb;
      mem := SetSizeOfInuse(mem, p, nb);
      PrependRest(q, qsize, oldfirst, hi, kind);
    }

    // prepend_alloc: the new memory before a segment gives the block, and the rest joins the first chunk of the
    // segment.
    method PrependAlloc(k: nat, tbase: Addr, tsize: nat, nb: nat, ghost b: Books) returns (r: Addr)
      requires Tied() && Ok(h) && BooksOk(h, b) && Units(tsize, granularity) && b.granularity == granularity > 0
      requires k < |segs| && segs[k].base == tbase + tsize && segs[k].mmapped && Aligned(tsize) && tbase > 0
      requires nb + MIN_CHUNK_SIZE <= tsize && RequestOk(nb) && Fresh(h, tbase, tsize)
          && Gained(b, Accounts(), tsize, tbase)
      modifies this`mem, this`top, this`topsize, this`dv, this`dvsize, this`segs, this`h, small, tree
      ensures Valid() && r != 0 && Malloced(old(h), h, r, nb) && h.direct == old(h).direct
      ensures segs == old(segs)[k := old(segs)[k].(base := tbase, size := old(segs)[k].size + tsize)]
    {
      hide Ok, BooksOk, S.Ok, T.Ok, Malloced, S.Sizes, T.Chunks, Units, Fresh, Gained, SetFree, SetHead, SetSizeOfFree,
        SetSizeOfInuse, PutSmall, PutLarge, PrependResult, CanHalve, WholeHeap, RestOf, RequestOk, Aligned,
        PrependWritten;
      ghost var base := segs[k].base;
      ghost var kind := if base == top then IntoTop else if base == dv then IntoVictim else IntoBin;
      ghost var hi := if base in h.tiles && !h.tiles[base].used then Next(h.tiles, base) else base;
      RestIs(h, base, hi, kind);
      PrependChunks(k, tbase, tsize, nb, hi, kind);
      RestPlace(h, base, hi, kind);
      PrependAll(h, Written(), k, tsize, nb, hi, kind, b, Accounts());
      h := PrependResult(h, mem, k, tsize, nb, hi, kind);
      r := tbase + TWO_WORDS;
    }

    // The segments that new memory could extend: one that ends at its start, or one that starts at its end.
    method SegmentEndingAt(a: Addr) returns (k: nat)
      ensures k <= |segs| && (k < |segs| ==> a == segs[k].base + segs[k].size)
      ensures forall i :: 0 <= i < k ==> a != segs[i].base + segs[i].size
    {
      k := 0;
      while k < |segs| && a != segs[k].base + segs[k].size
        invariant k <= |segs| && forall i :: 0 <= i < k ==> a != segs[i].base + segs[i].size
      {
        k := k + 1;
      }
    }

    method SegmentStartingAt(a: Addr) returns (k: nat)
      ensures k <= |segs| && (k < |segs| ==> segs[k].base == a) && forall i :: 0 <= i < k ==> segs[i].base != a
    {
      k := 0;
      while k < |segs| && segs[k].base != a
        invariant k <= |segs| && forall i :: 0 <= i < k ==> segs[i].base != a
      {
        k := k + 1;
      }
    }

    // New memory extends the segment of top.
    method AppendNew(tbase: Addr, tsize: nat, nb: nat, ghost b: Books) returns (r: Addr)
      requires Tied() && Ok(h) && BooksOk(h, b) && Units(tsize, granularity) && b.granularity == granularity > 0
      requires nb + SYS_ALLOC_PADDING <= tsize && RequestOk(nb) && Fresh(h, tbase, tsize)
          && Gained(b, Accounts(), tsize, tbase)
      requires |segs| > 0 && segs[0].base <= top && segs[0].base + segs[0].size == TopEnd(h) == tbase && segs[0].mmapped
      modifies this`mem, this`top, this`topsize, this`trimCheck, this`segs, this`h
      ensures Valid() && r != 0 && Malloced(old(h), h, r, nb) && h.direct == old(h).direct
      ensures segs == old(segs)[0 := old(segs)[0].(size := old(segs)[0].size + tsize)]
    {
      hide Ok, BooksOk, S.Ok, T.Ok, Malloced, Undisturbed, S.Sizes, T.Chunks, Units, Fresh, Gained, RequestOk;
      Append(tsize, b);
      ghost var h2 := h;
      r := FromTop(nb);
      MallocedThen(old(h), h2, h, r, nb);
    }

    // New memory becomes a segment of its own, with the new top.
    method AddNew(tbase: Addr, tsize: nat, nb: nat, ghost b: Books) returns (r: Addr)
      requires Tied() && Ok(h) && BooksOk(h, b) && Units(tsize, granularity) && b.granularity == granularity > 0
      requires nb + SYS_ALLOC_PADDING <= tsize && RequestOk(nb) && Fresh(h, tbase, tsize)
          && Gained(b, Accounts(), tsize, tbase)
      modifies this`mem, this`top, this`topsize, this`trimCheck, this`segs, this`h, small, tree
      ensures Valid() && r != 0 && Malloced(old(h), h, r, nb) && h.direct == old(h).direct
      ensures AddedFirst(old(h), segs, tbase, tsize)
    {
      hide Ok, BooksOk, S.Ok, T.Ok, Malloced, Undisturbed, S.Sizes, T.Chunks, Units, Fresh, Gained, RequestOk,
        AddedFirst;
      AddSegment(tbase, tsize, b);
      ghost var h2 := h;
      r := FromTop(nb);
      MallocedThen(old(h), h2, h, r, nb);
    }

    // New memory that does not extend the segment of top.
    method UseElsewhere(tbase: Addr, tsize: nat, nb: nat, ghost b: Books) returns (r: Addr)
      requires Tied() && Ok(h) && BooksOk(h, b) && Units(tsize, granularity) && b.granularity == granularity > 0
      requires nb + SYS_ALLOC_PADDING <= tsize && RequestOk(nb) && Fresh(h, tbase, tsize)
          && Gained(b, Accounts(), tsize, tbase)
      requires tbase > 0 && Aligned(tsize) && |segs| > 0
      requires !(Extendable(segs[0]) && segs[0].base + segs[0].size == tbase)
      modifies this`mem, this`top, this`topsize, this`dv, this`dvsize, this`trimCheck, this`segs, this`h, small, tree
      ensures Valid() && r != 0 && Malloced(old(h), h, r, nb) && h.direct == old(h).direct
      ensures JoinedBy(old(h), segs, tbase, tsize)
    {
      hide Ok, BooksOk, S.Ok, T.Ok, Malloced, S.Sizes, T.Chunks, Units, Fresh, Gained, RequestOk, Range, Aligned,
        AddedFirst, JoinedBy;
      var sp := SegmentStartingAt(tbase + tsize);
      if sp < |segs| && !segs[sp].extern && segs[sp].mmapped {
        r := PrependAlloc(sp, tbase, tsize, nb, b);
      } else {
        r := AddNew(tbase, tsize, nb, b);
      }
      JoinsOther(old(h), segs, sp, tbase, tsize);
    }

    // sys_alloc once it has new memory: it joins a segment that it touches, or is one of its own.
    method UseNew(tbase: Addr, tsize: nat, nb: nat) returns (r: Addr)
      requires Valid() && RequestOk(nb) && nb + SYS_ALLOC_PADDING <= tsize && Units(tsize, granularity)
          && granularity > 0
      requires tbase > 0 && Aligned(tsize) && Fresh(h, tbase, tsize) && Range(tbase, tbase + tsize) <= os.mapped
      modifies this, small, tree
      ensures Valid() && r != 0 && Malloced(old(h), h, r, nb) && h.direct == old(h).direct
      ensures JoinedBy(old(h), segs, tbase, tsize) && footprint == old(footprint) + tsize
    {
      hide Ok, BooksOk, S.Ok, T.Ok, Malloced, S.Sizes, T.Chunks, Units, Fresh, Gained, RequestOk, Range, Aligned,
        AddedFirst, JoinedBy;
      ghost var b := Accounts();
      LeastBelowTop(h, b);
      TopIsLast(h);
      Gain(tsize);
      var sp := SegmentEndingAt(tbase);
      if sp < |segs| && !segs[sp].extern && segs[sp].mmapped && Holds(sp, top) {
        assert sp == 0;
        GainedBy(b, Accounts(), tsize, tbase);
        r := AppendNew(tbase, tsize, nb, b);
        JoinsTop(old(h), segs, tbase, tsize);
      } else {
        if tbase < leastAddr {
          leastAddr := tbase;
        }
        GainedBy(b, Accounts(), tsize, tbase);
        r := UseElsewhere(tbase, tsize, nb, b);
      }
    }

    // sys_alloc
    method SysAlloc(nb: nat) returns (r: Addr)
      requires Valid() && (RequestOk(nb) || nb == MAX_SIZE_T)
      modifies this, small, tree, os
      ensures Valid() && Malloced(old(h), h, r, nb) && (r == 0 ==> h == old(h)) && (nb == MAX_SIZE_T ==> r == 0)
      ensures r == 0 && nb + SYS_ALLOC_PADDING + granularity <= TWO64 ==> os.refused > old(os.refused)
      ensures os.refused >= old(os.refused) && os.keptBytes == old(os.keptBytes)
      ensures DirectAs(h, r, nb, useMmap && nb >= mmapThreshold, page, os.refused > old(os.refused))
      ensures footprint == old(footprint) + if r == 0 then 0 else NewBytes(h, r, nb, granularity, page)
    {
      hide Ok, BooksOk, S.Ok, T.Ok, Malloced, S.Sizes, T.Chunks, AlignUp, Plus, Range, Units, Aligned, Fresh, ParamsOk;
      TopFacts(h);
      PageFacts(granularity, page);
      if useMmap && nb >= mmapThreshold && topsize != 0 {
        r := MmapAlloc(nb);
        if r != 0 {
          return;
        }
      }
      r := 0;
      NothingMalloced(h, nb);
      PaddedSize(nb, SYS_ALLOC_PADDING, granularity);
      PaddedExactly(nb, SYS_ALLOC_PADDING, granularity);
      var rsize := AlignUp(Plus(nb, SYS_ALLOC_PADDING), granularity);
      if rsize > nb {
        ghost var b := Accounts();
        var ok, mp := os.Map(rsize, page);
        MoreMapped(h, b, os.mapped);
        if ok {
          SysFacts(h, b, nb, mp, rsize, granularity, page);
          NoWrap(nb, SYS_ALLOC_PADDING, granularity);
          ghost var h0 := h;
          r := UseNew(mp, rsize, nb);
          NotDirect(h0, h, r, nb);
        }
      }
    }

    // ---- mspace_malloc ----

    // The small bins, or the trees when the victim is too small; null when neither has a chunk to use.
    method SmallRequest(nb: nat) returns (r: Addr)
      requires Valid() && RequestOk(nb) && nb <= 248 && S.SmallIndex(nb) < 32 && S.IndexSize(S.SmallIndex(nb)) == nb
          && S.IsSmall(nb)
      modifies this`mem, this`dv, this`dvsize, this`h, small, tree
      ensures Valid() && Malloced(old(h), h, r, nb) && FromBins(old(h), h, r, nb)
    {
      hide Ok, BooksOk, S.Ok, T.Ok, Malloced, S.Sizes, T.Chunks, RequestOk, S.IndexSize, S.SmallIndex, BinMap.NextTwo,
        Cut, FromBins, LeastFit, S.IsSmall,
        BinMap.Step, BinMap.ShiftRight, BinMap.ShiftBack, BinMap.And, BinMap.LeftBits, BinMap.LeftMap,
        BinMap.FirstIndex, BinMap.Marked, BinMap.Bit;
      r := 0;
      NothingMalloced(h, nb);
      var idx := S.SmallIndex(nb);
      var smallbits := BinMap.ShiftRight(small.smallmap, idx);
      BinMap.NextTwoBins(small.smallmap, idx);
      StepIsBit(smallbits);
      ghost var b := small.View();
      if BinMap.NextTwo(smallbits) {
        var i := idx + BinMap.Step(smallbits);
        BinSizes(idx, nb, i);
        r := FromSmallBin(i, nb);
        NearServed(old(h), h, b, idx, i, r, nb);
        return;
      }
      NoneNear(h, b, idx, nb);
      if nb > dvsize {
        if smallbits != 0 {
          BinMap.LeftOfShifted(small.smallmap, idx);
          BinMap.LaterBins(small.smallmap, idx);
          BinMap.NextLeft(small.smallmap, idx);
          var leftbits := BinMap.And(BinMap.ShiftBack(smallbits, idx), BinMap.LeftBits(BinMap.Bit(idx)));
          var i := BinMap.FirstIndex(leftbits);
          BinSizes(idx, nb, i);
          r := SplitSmallBin(i, nb);
          LaterServed(old(h), h, b, idx, i, r, nb);
        } else {
          BinMap.NoBinFrom(small.smallmap, idx);
          S.NoneFrom(b, idx);
          if tree.treemap != 0 {
            r := TmallocSmall(nb);
            TreeServed(old(h), h, r, nb);
          } else {
            T.NoneMarked(tree.View());
            NoneBinned(h, nb);
          }
        }
      }
    }

    // The victim, the top chunk, or new memory.
    method FromReserve(nb: nat) returns (r: Addr)
      requires Valid() && (RequestOk(nb) || nb == MAX_SIZE_T)
      modifies this, small, tree, os
      ensures Valid() && Malloced(old(h), h, r, nb) && (r == 0 ==> h == old(h))
      ensures nb == MAX_SIZE_T ==> r == 0
      ensures nb <= old(dvsize) || nb < old(topsize) ==>
          r != 0 && os.mapped == old(os.mapped) && os.refused == old(os.refused)
      ensures r == 0 && nb + SYS_ALLOC_PADDING + granularity <= TWO64 ==> os.refused > old(os.refused)
      ensures os.refused >= old(os.refused) && os.keptBytes == old(os.keptBytes)
      ensures FromRest(old(h), h, r, nb)
      ensures footprint == old(footprint) + if r == 0 || nb <= old(dvsize) || nb < old(topsize) then 0
                                            else NewBytes(h, r, nb, granularity, page)
      ensures nb > old(dvsize) && nb >= old(topsize) ==>
          DirectAs(h, r, nb, useMmap && nb >= mmapThreshold, page, os.refused > old(os.refused))
    {
      hide Ok, BooksOk, S.Ok, T.Ok, Malloced, S.Sizes, T.Chunks, RequestOk, ParamsOk, Cut, DirectAs;
      TooBig(h, nb);
      if nb <= dvsize {
        r := FromVictim(nb);
      } else if nb < topsize {
        r := FromTop(nb);
      } else {
        r := SysAlloc(nb);
      }
    }

    // mspace_malloc
    method Malloc(bytes: nat) returns (r: Addr)
      requires Valid() && bytes < TWO64
      modifies this, small, tree, os
      ensures Valid() && Undisturbed(old(h), h, old(h).live)
      ensures if r == 0 then h == old(h) else Given(old(h), h, r, bytes)
      ensures AsMalloc(old(h), bytes, granularity, r, os.refused > old(os.refused))
      ensures bytes < MAX_REQUEST && HasRoom(old(h), RequestToSize(bytes)) ==> os.mapped == old(os.mapped)
      ensures os.refused >= old(os.refused) && os.keptBytes == old(os.keptBytes)
      ensures Chosen(old(h), h, bytes, r, Terms(), os.refused > old(os.refused))
      ensures var nb := RequestToSize(bytes);
        footprint == old(footprint) + if r == 0 || SourceOf(old(h), nb) != System then 0
                                      else NewBytes(h, r, nb, granularity, page)
    {
      hide Ok, BooksOk, S.Ok, T.Ok, Malloced, S.Sizes, T.Chunks, RequestOk, ParamsOk, Given, RequestToSize,
        S.SmallIndex, S.IndexSize, Undisturbed, PadRequest, FromBins, FromRest, Cut, DirectAs, ServedFrom, LeastFit,
        S.IsSmall, SourceOf, HasRoom;
      r := 0;
      var nb := bytes;
      RequestSize(bytes);
      if bytes <= MAX_SMALL_REQUEST {
        SmallRequestFacts(bytes);
        nb := RequestToSize(bytes);
        r := SmallRequest(nb);
      } else if bytes >= MAX_REQUEST {
        nb := MAX_SIZE_T;
      } else {
        LargeRequestFacts(bytes);
        nb := PadRequest(bytes);
        if tree.treemap != 0 {
          r := TmallocLarge(nb);
        } else {
          T.NoneMarked(tree.View());
        }
        LargeServed(old(h), h, r, nb);
      }
      ghost var binned, h1 := r, h;
      if r == 0 {
        if bytes < MAX_REQUEST {
          BinsLeave(old(h), h, nb);
        }
        r := FromReserve(nb);
      }
      if bytes < MAX_REQUEST {
        if binned != 0 {
          BinsServe(old(h), h, r, nb);
        }
        RestServed(old(h), h1, h, binned, r, nb);
      }
      MallocOutcome(old(h), h, r, bytes, nb);
    }

    // ---- mspace_free ----

    // The run to be freed begins earlier: the free chunk before p leaves its bin, unless it is the victim.
    method JoinBack(p: Addr) returns (lo: Addr)
      requires Tied() && Ok(h) && p in h.live && p in h.tiles && !Head(mem, p).pinuse && LeastOk(h, leastAddr)
      modifies small, tree
      ensures Joined(h, p, lo, Next(h.tiles, p)) && TiedBut(lo) && lo < p && lo == p - Foot(mem, p)
          && lo in h.tiles && !h.tiles[lo].used
    {
      hide Ok, S.Ok, T.Ok, S.Sizes, T.Chunks, Joined;
      FreeFacts(h, p);
      var prevsize := Foot(mem, p);
      lo := p - prevsize;
      JoinedLo(h, p, lo, Next(h.tiles, p));
      TilesReachable(h, leastAddr, lo);
      assert lo >= leastAddr;
      if lo != dv {
        UnlinkChunk(lo, prevsize);
      } else {
        NoKey(h.small, lo);
        NoKey(h.large, lo);
      }
    }

    // Into top.
    method JoinTop(p: Addr, lo: Addr, psize: nat, next: Addr)
      requires TiedBut(lo) && Ok(h) && BooksOk(h, Accounts()) && Joined(h, p, lo, next) && Known(h, mem, next)
      requires psize == next - lo && next == top
      modifies this`mem, this`top, this`topsize, this`dv, this`dvsize, this`h
      ensures FreedBlock(old(h), h, p) && topsize == old(topsize) + psize && FreedAs(old(h), h, p, lo)
      ensures Valid()
    {
      hide Ok, BooksOk, S.Ok, T.Ok, S.Sizes, T.Chunks, SetHead, FreedBlock, FreedHeap, Joined, Known, ParamsOk;
      JoinedLo(h, p, lo, next);
      JoinTopDone(h, p, lo, next, Accounts());
      JoinTopFields(h, SetHead(h.mem, lo, Word(next + h.topsize - lo, false, true)), p, lo, next);
      topsize := topsize + psize;
      var tsize := topsize;
      top := lo;
      mem := SetHead(mem, lo, Word(tsize, false, true));
      if lo == dv {
        dv := 0;
        dvsize := 0;
      }
      h := FreedHeap(h, mem, p, lo, lo + tsize, IntoTop);
    }

    // Into the victim that follows.
    method JoinVictim(p: Addr, lo: Addr, psize: nat, next: Addr)
      requires TiedBut(lo) && Ok(h) && BooksOk(h, Accounts()) && Joined(h, p, lo, next) && Known(h, mem, next)
      requires psize == next - lo && next == dv && next != top
      modifies this`mem, this`dv, this`dvsize, this`h
      ensures Valid() && FreedBlock(old(h), h, p) && FreedAs(old(h), h, p, lo)
    {
      hide Ok, BooksOk, S.Ok, T.Ok, S.Sizes, T.Chunks, SetSizeOfFree, FreedBlock, Merged, FreedSmall, FreedLarge;
      JoinFreeDone(h, p, lo, next, Accounts());
      FreedBins(h, p, lo, next, next + h.dvsize, IntoVictim);
      NoKey(h.small - {lo}, next);
      NoKey(h.large - {lo}, next);
      dvsize := dvsize + psize;
      var dsize := dvsize;
      dv := lo;
      mem := SetSizeOfFree(mem, lo, dsize);
      h := FreedHeap(h, mem, p, lo, lo + dsize, IntoVictim);
    }

    // The victim before the block grows over it; the chunk after is in use.
    method VictimGrows(p: Addr, lo: Addr, psize: nat, next: Addr)
      requires TiedBut(lo) && Ok(h) && BooksOk(h, Accounts()) && Joined(h, p, lo, next) && Known(h, mem, next)
      requires psize == next - lo && lo == dv && h.tiles[next].used
      modifies this`mem, this`dvsize, this`h
      ensures Valid() && FreedBlock(old(h), h, p) && FreedAs(old(h), h, p, lo)
    {
      hide Ok, BooksOk, S.Ok, T.Ok, S.Sizes, T.Chunks, SetFree, FreedBlock, Merged, FreedSmall, FreedLarge;
      JoinUsedDone(h, p, lo, next, Accounts());
      FreedBins(h, p, lo, next, next, IntoVictim);
      NoKey(h.small - {lo}, next);
      NoKey(h.large - {lo}, next);
      dvsize := psize;
      mem := SetFree(mem, lo, psize, next);
      h := FreedHeap(h, mem, p, lo, next, IntoVictim);
    }

    // The victim before the block grows over it and over the free chunk after.
    method VictimGrowsOver(p: Addr, lo: Addr, psize0: nat, next: Addr)
      requires TiedBut(lo) && Ok(h) && BooksOk(h, Accounts()) && Joined(h, p, lo, next) && Known(h, mem, next)
      requires psize0 == next - lo && lo == dv && !h.tiles[next].used && next != top && next != dv
      modifies this`mem, this`dvsize, this`h, small, tree
      ensures FreedBlock(old(h), h, p) && FreedAs(old(h), h, p, lo)
      ensures Valid()
    {
      hide Ok, BooksOk, S.Ok, T.Ok, S.Sizes, T.Chunks, SetSizeOfFree, FreedBlock, Merged, FreedSmall, FreedLarge,
        S.IsSmall;
      var nsize := Head(mem, next).size;
      JoinFreeDone(h, p, lo, next, Accounts());
      FreedBins(h, p, lo, next, next + nsize, IntoVictim);
      var psize := psize0 + nsize;
      UnlinkChunk(next, nsize);
      mem := SetSizeOfFree(mem, lo, psize);
      dvsize := psize;
      h := FreedHeap(h, mem, p, lo, lo + psize, IntoVictim);
    }

    // The run goes to a bin; the chunk after is in use.
    method BinBefore(p: Addr, lo: Addr, psize: nat, next: Addr)
      requires TiedBut(lo) && Ok(h) && BooksOk(h, Accounts()) && Joined(h, p, lo, next) && Known(h, mem, next)
      requires psize == next - lo && lo != dv && h.tiles[next].used
      modifies this`mem, this`h, small, tree
      ensures Valid() && FreedBlock(old(h), h, p) && FreedAs(old(h), h, p, lo)
    {
      hide Ok, BooksOk, S.Ok, T.Ok, S.Sizes, T.Chunks, SetFree, FreedBlock, Merged, FreedSmall, FreedLarge, PutSmall,
        PutLarge, S.IsSmall;
      JoinUsedDone(h, p, lo, next, Accounts());
      FreedBins(h, p, lo, next, next, IntoBin);
      NoKey(h.small - {lo}, next);
      NoKey(h.large - {lo}, next);
      mem := SetFree(mem, lo, psize, next);
      InsertChunk(lo, psize);
      h := FreedHeap(h, mem, p, lo, next, IntoBin);
    }

    // The run goes to a bin with the free chunk after it, which leaves its own.
    method BinOver(p: Addr, lo: Addr, psize0: nat, next: Addr) returns (psize: nat)
      requires TiedBut(lo) && Ok(h) && BooksOk(h, Accounts()) && Joined(h, p, lo, next) && Known(h, mem, next)
      requires psize0 == next - lo && lo != dv && !h.tiles[next].used && next != top && next != dv
          && Next(h.tiles, next) <= TWO64
      modifies this`mem, this`h, small, tree
      ensures FreedBlock(old(h), h, p) && FreedAs(old(h), h, p, lo)
      ensures Valid() && psize == RunEnd(old(h), next) - lo
    {
      hide Ok, BooksOk, S.Ok, T.Ok, S.Sizes, T.Chunks, SetSizeOfFree, FreedBlock, Merged, FreedSmall, FreedLarge,
        PutSmall, PutLarge, S.IsSmall, Aligned;
      var nsize := Head(mem, next).size;
      JoinFreeDone(h, p, lo, next, Accounts());
      FreedBins(h, p, lo, next, next + nsize, IntoBin);
      RunAligned(psize0, nsize);
      psize := psize0 + nsize;
      UnlinkChunk(next, nsize);
      mem := SetSizeOfFree(mem, lo, psize);
      InsertChunk(lo, psize);
      h := FreedHeap(h, mem, p, lo, lo + psize, IntoBin);
    }

    // ---- release_unused_segments, sys_trim ----

    // The free chunk p is not the victim and in no bin.
    ghost predicate Detached(p: Addr)
      reads this, small, tree
    {
      && mem == h.mem && top == h.top && topsize == h.topsize && segs == h.segs
      && dv == (if p == h.dv then 0 else h.dv) && dvsize == (if p == h.dv then 0 else h.dvsize)
      && small.Valid() && tree.Valid() && small.Contents() == h.small && tree.Contents() == h.large - {p}
      && ParamsOk(granularity, page)
    }

    method Detach(p: Addr)
      requires Tied() && p in h.tiles && !S.IsSmall(h.tiles[p].size) && !h.tiles[p].used && p != top && Known(h, mem, p)
      modifies this`dv, this`dvsize, tree
      ensures Detached(p) && p !in h.small
    {
      hide S.Ok, T.Ok, S.Sizes, T.Chunks, Known, S.IsSmall, ParamsOk;
      KnownParts(h, mem, p);
      if p == dv {
        NoKey(h.large, p);
        dv := 0;
        dvsize := 0;
      } else {
        tree.Unlink(p);
      }
    }

    // The segment was unmapped: its record is taken out of the list.
    method DropSegment(i: nat, ghost b: Books)
      requires 0 < i < |segs| && Detached(segs[i].base) && CanRelease(h, i) && RecordIn(h, i)
          && segs[i].size <= footprint
      requires Ok(h) && BooksOk(h, b) && segs[i].base !in h.small
      requires Accounts() == b.(mapped := b.mapped - Range(segs[i].base, segs[i].base + segs[i].size))
      modifies this`segs, this`footprint, this`h
      ensures Valid() && SameBlocks(old(h), h)
      ensures segs == old(segs)[..i] + old(segs)[i + 1..] && footprint == old(footprint) - old(segs)[i].size
    {
      hide Ok, BooksOk, S.Ok, T.Ok, S.Sizes, T.Chunks, CanRelease, SameBlocks, Range, Undisturbed, ParamsOk, RecordIn;
      var p, size := segs[i].base, segs[i].size;
      NoKey(h.small, p);
      footprint := footprint - size;
      segs := segs[..i] + segs[i + 1..];
      ReturnedBy(b, Accounts(), p, size);
      ReleaseDone(h, i, b, Accounts());
      h := ReleasedHeap(h, i);
    }

    // The system keeps the segment: its chunk goes back to a tree.
    method PutBack(p: Addr, psize: nat)
      requires Detached(p) && Ok(h) && BooksOk(h, Accounts()) && p in h.tiles && !h.tiles[p].used && p != top
          && p !in h.small
      requires psize == h.tiles[p].size && TreeIndex.MIN_LARGE_SIZE <= psize < TWO64 && !S.IsSmall(psize) && p > 0
      modifies this`h, tree
      ensures Valid() && SameBlocks(old(h), h)
    {
      hide Ok, BooksOk, S.Ok, T.Ok, S.Sizes, T.Chunks, SameBlocks, S.IsSmall, Undisturbed, ParamsOk;
      var _ := tree.Insert(p, psize);
      BackOutDone(h, p, Accounts());
      h := BackedOut(h, p);
    }

    // One turn of release_unused_segments, on a segment whose only block-sized chunk is free: unmap it, or back out.
    method ReleaseSegment(i: nat) returns (gone: bool)
      requires Valid() && 0 < i < |segs| && CanRelease(h, i) && segs[i].mmapped
      modifies this`dv, this`dvsize, this`segs, this`footprint, this`h, tree, os
      ensures Valid() && SameBlocks(old(h), h)
      ensures if gone then segs == old(segs)[..i] + old(segs)[i + 1..]
          && footprint == old(footprint) - old(segs)[i].size
              else segs == old(segs) && footprint == old(footprint) && os.refused > old(os.refused)
      ensures (gone ==> os.refused == old(os.refused)) && os.keptBytes == old(os.keptBytes)
    {
      hide Ok, BooksOk, S.Ok, T.Ok, S.Sizes, T.Chunks, CanRelease, Known, SameBlocks, Range, S.IsSmall, Undisturbed,
        ParamsOk, RecordIn;
      ghost var b := Accounts();
      PageFacts(granularity, page);
      ReleaseReady(h, b, i);
      var p := segs[i].base;
      var psize := Head(mem, p).size;
      Detach(p);
      gone := os.Unmap(p, segs[i].size, false);
      if gone {
        DropSegment(i, b);
      } else {
        PutBack(p, psize);
      }
    }

    // release_unused_segments: each mapped segment after the first, once. Unless the system refuses, no segment stays
    // that could go.
    method ReleaseUnused() returns (released: nat)
      requires Valid()
      modifies this, small, tree, os
      ensures Valid() && SameBlocks(old(h), h) && footprint + released == old(footprint)
      ensures top == old(top) && topsize == old(topsize) && mem == old(mem) && trimCheck == old(trimCheck)
      ensures os.refused >= old(os.refused) && os.keptBytes == old(os.keptBytes)
      ensures os.refused == old(os.refused) ==> NoneReleasable(h)
      ensures releaseChecks == if |old(segs)| - 1 > MAX_RELEASE_CHECK_RATE then |old(segs)| - 1
                               else MAX_RELEASE_CHECK_RATE
    {
      hide Ok, BooksOk, S.Ok, T.Ok, S.Sizes, T.Chunks, CanRelease, SameBlocks, Known, IsInuse, ParamsOk;
      released := 0;
      TopIsLast(h);
      var nsegs := 0;
      var sp := 1;
      NoChange(h);
      while sp < |segs|
        invariant Valid() && SameBlocks(old(h), h) && footprint + released == old(footprint) && sp >= 1
        invariant top == old(top) && topsize == old(topsize) && mem == old(mem) && trimCheck == old(trimCheck)
        invariant os.refused >= old(os.refused) && os.keptBytes == old(os.keptBytes)
        invariant os.refused == old(os.refused) ==> forall j :: 0 < j < sp && j < |segs| ==> !Releasable(mem, segs[j])
        invariant nsegs + |segs| - sp == |old(segs)| - 1 && sp <= |segs|
        decreases |segs| - sp
      {
        nsegs := nsegs + 1;
        ghost var before := h;
        var base, size := segs[sp].base, segs[sp].size;
        var gone := false;
        if segs[sp].mmapped && !segs[sp].extern {
          ReleaseFacts(h, sp);
          if !IsInuse(mem, base) && base + Head(mem, base).size + TOP_FOOT_SIZE >= base + size {
            gone := ReleaseSegment(sp);
            SameBlocksThen(old(h), before, h);
            if gone {
              released := released + size;
            }
          }
        }
        if !gone {
          sp := sp + 1;
        }
      }
      ghost var b := Accounts();
      releaseChecks := if nsegs > MAX_RELEASE_CHECK_RATE then nsegs else MAX_RELEASE_CHECK_RATE;
      ChecksRenewed(h, b, releaseChecks);
    }

    // has_segment_link
    method HasSegmentLink(k: nat) returns (linked: bool)
      requires k < |segs|
      ensures linked <==> exists i :: 0 <= i < |segs| && Holds(k, RecordAddress(segs, home, i))
    {
      var i := 0;
      linked := false;
      while i < |segs|
        invariant i <= |segs| && (linked <==> exists j :: 0 <= j < i && Holds(k, RecordAddress(segs, home, j)))
      {
        if Holds(k, RecordAddress(segs, home, i)) {
          linked := true;
        }
        i := i + 1;
      }
    }

    // The segment of top cannot shrink.
    ghost predicate Pinned()
      reads this
    {
      CannotShrink(segs, home)
    }

    // The end of top goes back to the system.
    method TrimTop(extra: nat, ghost b: Books)
      requires Tied() && Ok(h) && BooksOk(h, b) && extra < topsize && Units(extra, granularity) && Aligned(extra)
      requires |segs| > 0 && segs[0].base <= top && segs[0].base + segs[0].size == TopEnd(h) && segs[0].mmapped
          && extra <= footprint
      requires Accounts() == b.(mapped := b.mapped - Range(TopEnd(h) - extra, TopEnd(h)))
      modifies this`segs, this`footprint, this`mem, this`top, this`topsize, this`trimCheck, this`h
      ensures Valid() && SameBlocks(old(h), h) && footprint == old(footprint) - extra && topsize == old(topsize) - extra
      ensures trimCheck == trimThreshold
    {
      hide Ok, BooksOk, S.Ok, T.Ok, S.Sizes, T.Chunks, SameBlocks, AppendedWords, Units, Range, Aligned, ParamsOk;
      TopFacts(h);
      PageFacts(granularity, page);
      segs := segs[0 := segs[0].(size := segs[0].size - extra)];
      footprint := footprint - extra;
      OffsetAligns(top);
      InitTop(top, topsize - extra);
      ReturnedBy(b, Accounts(), TopEnd(h) - extra, extra);
      TrimDone(h, mem, extra, b, Accounts());
      h := TrimmedHeap(h, mem, extra);
    }

    // The shrinking half of sys_trim; released is what was given back.
    method ShrinkTop(pad: nat) returns (released: nat)
      requires Valid() && TOP_FOOT_SIZE <= pad < topsize
      modifies this, os
      ensures Valid() && SameBlocks(old(h), h) && footprint + released == old(footprint)
          && topsize + released == old(topsize)
      ensures topsize > pad && os.refused >= old(os.refused) && os.keptBytes == old(os.keptBytes)
      ensures trimCheck == if released > 0 then trimThreshold else old(trimCheck)
      ensures os.refused == old(os.refused) && !old(Pinned()) ==> topsize <= pad + granularity
    {
      hide Ok, BooksOk, S.Ok, T.Ok, S.Sizes, T.Chunks, SameBlocks, Units, Range, Aligned, ParamsOk, TrimExtra, Times;
      released := 0;
      NoChange(h);
      PageFacts(granularity, page);
      TrimFacts(h, Accounts(), pad);
      var extra := TrimExtra(topsize, pad, granularity);
      assert Holds(0, top);
      var sp := SegmentHolding(top);
      SegmentKind(h, Accounts(), sp);
      if !segs[sp].extern && segs[sp].mmapped && segs[sp].size >= extra {
        var linked := HasSegmentLink(sp);
        if !linked {
          ghost var b := Accounts();
          var newsize := segs[sp].size - extra;
          var ok := os.Unmap(segs[sp].base + newsize, extra, false);
          if ok {
            released := extra;
            if released != 0 {
              TrimTop(extra, b);
            } else {
              NothingUnmapped(h, b, TopEnd(h), os.mapped);
            }
          }
        }
      }
    }

    // sys_trim, mspace_trim
    method SysTrim(pad0: nat) returns (done: bool)
      requires Valid()
      modifies this, small, tree, os
      ensures Valid() && SameBlocks(old(h), h) && footprint <= old(footprint) && (done <==> footprint < old(footprint))
      ensures os.refused >= old(os.refused) && os.keptBytes == old(os.keptBytes)
      ensures pad0 >= MAX_REQUEST ==> h == old(h) && !done
      ensures old(topsize) > pad0 + TOP_FOOT_SIZE && pad0 < MAX_REQUEST ==> topsize > pad0 + TOP_FOOT_SIZE
      ensures pad0 < MAX_REQUEST && os.refused == old(os.refused) ==>
                && (!old(Pinned()) ==> topsize <= pad0 + TOP_FOOT_SIZE + granularity)
                && NoneReleasable(h)
      ensures pad0 < MAX_REQUEST && !done && topsize > old(trimCheck) ==> trimCheck == MAX_SIZE_T
      ensures !done ==> topsize == old(topsize)
    {
      hide Ok, BooksOk, S.Ok, T.Ok, S.Sizes, T.Chunks, SameBlocks, ParamsOk;
      var released := 0;
      NoChange(h);
      if pad0 < MAX_REQUEST {
        var pad := pad0 + TOP_FOOT_SIZE;
        if topsize > pad {
          released := ShrinkTop(pad);
        }
        ghost var before := h;
        var unused := ReleaseUnused();
        SameBlocksThen(old(h), before, h);
        released := released + unused;
        // Nothing could be given back: free shall not try this again by itself.
        if released == 0 && topsize > trimCheck {
          trimCheck := MAX_SIZE_T;
        }
      }
      done := released != 0;
    }

    // Free a directly mapped block: unmap its region. If the system refuses, the region stays counted.
    method FreeDirect(p: Addr)
      requires Valid() && p in h.live && p in h.direct
      modifies this`footprint, this`h, os
      ensures FreedBlock(old(h), h, p) && os.refused >= old(os.refused)
      ensures RegionGone(old(h), p, footprint - old(footprint), os.keptBytes - old(os.keptBytes),
                         os.refused == old(os.refused))
      ensures Valid()
    {
      hide Ok, BooksOk, S.Ok, T.Ok, S.Sizes, T.Chunks, FreedBlock, Range, ParamsOk, UnmappedHeap, RegionReturned,
        RegionGone;
      ghost var b := Accounts();
      DirectFacts(h, b, p);
      var prevsize := Foot(mem, p);
      var mm := p - prevsize;
      var psize := Head(mem, p).size + prevsize + MMAP_FOOT_PAD;
      var ok := os.Unmap(mm, psize, true);
      if ok {
        footprint := footprint - psize;
      }
      GivenBack(h, p, b, Accounts(), ok);
      UnmapDone(h, p, b, Accounts());
      UnmappedFields(h, p);
      h := UnmappedHeap(h, p);
    }

    // The run may take in the chunk after it, and goes to top, to the victim or to a bin.
    method JoinForward(p: Addr, lo: Addr, psize: nat, next: Addr)
      requires TiedBut(lo) && Ok(h) && BooksOk(h, Accounts()) && Joined(h, p, lo, next) && Known(h, mem, next)
      requires psize == next - lo && Next(h.tiles, next) <= TWO64 && (lo == dv ==> !h.tiles[next].used)
      modifies this, small, tree, os
      ensures Valid() && FreedBlock(old(h), h, p) && os.keptBytes == old(os.keptBytes)
      ensures FreeEnds(old(h), old(Tally()), h, Tally(), p, lo, old(Pinned()), granularity)
    {
      hide Ok, BooksOk, S.Ok, T.Ok, S.Sizes, T.Chunks, FreedBlock, ParamsOk, S.IsSmall, Joined, SameBlocks, FreedHeap;
      var size := psize;
      JoinedLo(h, p, lo, next);
      if !Head(mem, next).cinuse {
        if next == top {
          JoinTop(p, lo, psize, next);
          if topsize > trimCheck {
            ghost var h2 := h;
            var _ := SysTrim(0);
            FreedThen(old(h), h2, h, p);
          }
          return;
        } else if next == dv {
          JoinVictim(p, lo, psize, next);
          return;
        } else if lo == dv {
          VictimGrowsOver(p, lo, psize, next);
          return;
        } else {
          size := BinOver(p, lo, psize, next);
        }
      } else {
        BinBefore(p, lo, psize, next);
      }
      if !S.IsSmall(size) {
        CountRelease(old(h), p);
      }
    }

    ghost function Tally(): Counts
      reads this, os
    {
      Counts(footprint, trimCheck, releaseChecks, os.refused)
    }

    // A large chunk freed counts towards a scan for segments to release.
    method CountRelease(ghost h0: Heap, ghost p: Addr)
      requires Valid() && FreedBlock(h0, h, p) && Ok(h0)
      modifies this, small, tree, os
      ensures Valid() && FreedBlock(h0, h, p) && os.keptBytes == old(os.keptBytes)
      ensures if old(releaseChecks) == 1 then Scanned(old(Tally()), h, Tally())
        else h == old(h) && old(releaseChecks) > 0 && Tally() == old(Tally()).(releaseChecks := old(releaseChecks) - 1)
    {
      hide Ok, BooksOk, S.Ok, T.Ok, S.Sizes, T.Chunks, FreedBlock, ParamsOk, SameBlocks;
      ghost var b, h2 := Accounts(), h;
      LeastPositive(h, b);
      if releaseChecks == 1 {
        var _ := ReleaseUnused();
        FreedThen(h0, h2, h, p);
      } else {
        releaseChecks := releaseChecks - 1;
        ChecksRenewed(h, b, releaseChecks);
      }
    }

    // mspace_free
    method Free(mem0: Addr)
      requires Valid() && (mem0 != 0 ==> mem0 >= TWO_WORDS && mem0 - TWO_WORDS in h.live)
      modifies this, small, tree, os
      ensures Valid() && if mem0 == 0 then h == old(h) else FreedBlock(old(h), h, mem0 - TWO_WORDS)
      ensures mem0 != 0 && mem0 - TWO_WORDS in old(h).direct ==>
                RegionGone(old(h), mem0 - TWO_WORDS, footprint - old(footprint), os.keptBytes - old(os.keptBytes),
                           os.refused == old(os.refused))
      ensures mem0 == 0 || mem0 - TWO_WORDS !in old(h).direct ==> os.keptBytes == old(os.keptBytes)
      ensures mem0 != 0 && mem0 - TWO_WORDS in old(h).tiles ==>
          Freeing(old(h), old(Tally()), h, Tally(), mem0 - TWO_WORDS, old(Pinned()), granularity)
    {
      hide Freeing, Ok, BooksOk, S.Ok, T.Ok, S.Sizes, T.Chunks, FreedBlock, ParamsOk, Joined, Known, IsInuse;
      if mem0 != 0 {
        var p := mem0 - TWO_WORDS;
        BlockFacts(h, Accounts(), p);
        assert p >= leastAddr && IsInuse(mem, p);
        var psize := Head(mem, p).size;
        var next := p + psize;
        if !Head(mem, p).pinuse && IsMmapped(mem, p) {
          FreeDirect(p);
        } else {
          FreeChunk(p, psize, next);
        }
      }
    }

    // Free a chunk of a segment.
    method FreeChunk(p: Addr, psize: nat, next: Addr)
      requires Valid() && p in h.live && p in h.tiles && psize == h.tiles[p].size && next == p + psize
      modifies this, small, tree, os
      ensures Valid() && FreedBlock(old(h), h, p) && os.keptBytes == old(os.keptBytes)
      ensures Freeing(old(h), old(Tally()), h, Tally(), p, old(Pinned()), granularity)
    {
      hide Ok, BooksOk, S.Ok, T.Ok, S.Sizes, T.Chunks, FreedBlock, ParamsOk, Joined, IsInuse, S.IsSmall;
      FreeFacts(h, p);
      LeastOf(h, Accounts());
      assert p < next && Head(mem, next).pinuse;
      if !Head(mem, p).pinuse {
        var lo := JoinBack(p);
        if lo == dv && Head(mem, next).cinuse {
          VictimGrows(p, lo, next - lo, next);
          assert FreeEnds(old(h), old(Tally()), h, Tally(), p, lo, old(Pinned()), granularity);
        } else {
          JoinForward(p, lo, next - lo, next);
        }
      } else {
        JoinedSelf(h, p, next);
        NoKey(h.small, p);
        NoKey(h.large, p);
        JoinForward(p, p, psize, next);
      }
    }

    // ---- mspace_realloc ----

    // memcpy between two blocks
    method CopyBytes(dst: Addr, src: Addr, n: nat)
      requires Aligned(dst) && SourceApart(src, dst, n)
      modifies this`mem
      ensures SameContents(old(mem), src, mem, dst, n) && SameExcept(old(mem), mem, Range(dst, dst + n))
    {
      hide Byte, Value, WordAt, SetByte, Aligned;
      var i := 0;
      while i < n
        invariant i <= n && SameExcept(old(mem), mem, Range(dst, dst + n))
        invariant SameContents(old(mem), src, mem, dst, i)
      {
        assert SourceWord(src, i) !in Range(dst, dst + n);
        var b := ByteAt(mem, src + i);
        ByteBound(Value(At(mem, WordAt(src + i))), (src + i) % 8);
        ghost var before := mem;
        mem := SetByte(mem, dst + i, b);
        CopyStep(old(mem), before, mem, dst, src, n, i, b);
        i := i + 1;
      }
    }

    // The client writes words of its block.
    method Store(p: Addr, a: Addr, w: Word)
      requires Valid() && p in h.live && (p in h.tiles || p in h.direct) && OwnWord(h, p, a)
      modifies this`mem, this`h
      ensures Valid() && h == old(h).(mem := old(mem)[a := w]) && Undisturbed(old(h), h, old(h).live - {p})
    {
      hide Ok, BooksOk, S.Ok, T.Ok, S.Sizes, T.Chunks, Undisturbed, ParamsOk;
      mem := mem[a := w];
      StoreDone(h, mem, p, {a}, Accounts());
      h := h.(mem := mem);
    }

    // The bytes of one block go to a new one, as many as both have.
    method CopyOver(p: Addr, oc: nat, r: Addr, bytes: nat, ghost h0: Heap)
      requires CanCopy(h0, h, p, oc, r, bytes) && Ok(h0)
      requires Valid()
      modifies this`mem, this`h
      ensures Copied(old(h), h, p, oc, r, bytes)
      ensures Valid()
    {
      hide Ok, BooksOk, S.Ok, T.Ok, S.Sizes, T.Chunks, Undisturbed, ParamsOk, Given, SameContents, Range, Aligned;
      MovedFacts(h0, h, p, r, bytes);
      var n := if oc < bytes then oc else bytes;
      CopyFacts(h, p, r - TWO_WORDS, n);
      CopyBytes(r, p + TWO_WORDS, n);
      StoreDone(h, mem, r - TWO_WORDS, Range(r, r + n), Accounts());
      h := h.(mem := mem);
    }

    // A block that can neither stay nor grow moves to a new one.
    method MoveBlock(p: Addr, bytes: nat) returns (r: Addr)
      requires Valid() && p in h.live && bytes < TWO64
      modifies this, small, tree, os
      ensures Valid() && if r == 0 then h == old(h) else Realloced(old(h), h, p + TWO_WORDS, r, bytes)
      ensures r != p + TWO_WORDS && KeptFor(old(h), p, r, os.keptBytes - old(os.keptBytes))
      ensures r != 0 ==> Enough(h, r, bytes)
      ensures AsMalloc(old(h), bytes, granularity, r, os.refused > old(os.refused))
    {
      hide Ok, BooksOk, S.Ok, T.Ok, S.Sizes, T.Chunks, Undisturbed, ParamsOk, Given, Realloced, FreedBlock,
        SameContents, IsInuse, IsMmapped, AsMalloc, Enough;
      ReallocFacts(h, Accounts(), p);
      var oldsize := Head(mem, p).size;
      var overhead := if IsMmapped(mem, p) then MMAP_CHUNK_OVERHEAD else CHUNK_OVERHEAD;
      ghost var h0 := h;
      r := Malloc(bytes);
      if r != 0 {
        ghost var h1, refused := h, os.refused > old(os.refused);
        MovedFacts(h0, h1, p, r, bytes);
        CopyOver(p, oldsize - overhead, r, bytes, h0);
        ghost var h2 := h;
        SameRegion(h0, h1, h2, p, r - TWO_WORDS);
        Free(p + TWO_WORDS);
        MoveOutcome(h0, h1, h2, h, p, r, bytes);
        AsMallocThen(h0, bytes, granularity, r, refused, r, os.refused > old(os.refused));
      }
    }

    // A block gives up what it has beyond nb bytes, as a block of its own.
    method Halve(p: Addr, oldsize: nat, nb: nat)
      requires Valid() && p in h.live && p in h.tiles && oldsize == h.tiles[p].size
      requires Aligned(nb) && nb >= MIN_CHUNK_SIZE && oldsize >= nb + MIN_CHUNK_SIZE
      modifies this`mem, this`h
      ensures CanHalve(old(h), p, nb) && h == HalvedHeap(old(h), mem, p, nb) && p + nb !in old(h).live
      ensures h.live == old(h).live + {p + nb} && Undisturbed(old(h), h, old(h).live - {p})
      ensures SameWords(old(h).mem, mem, p + TWO_WORDS, p + nb + 8)
      ensures p in h.tiles && h.tiles[p].size == nb && p + nb in h.tiles && p + nb !in h.direct
      ensures Valid()
    {
      hide Ok, BooksOk, S.Ok, T.Ok, S.Sizes, T.Chunks, Undisturbed, ParamsOk, SetInuse, SetInuseAndPinuse, SameWords,
        HalveWrites;
      ReallocFacts(h, Accounts(), p);
      var rsize := oldsize - nb;
      CutWords(mem, p, nb, oldsize);
      mem := SetInuse(mem, p, nb);
      mem := SetInuseAndPinuse(mem, p + nb, rsize);
      HalveDone(h, mem, p, nb, Accounts());
      h := HalvedHeap(h, mem, p, nb);
      ChunkNotDirect(h, p + nb);
    }

    // A block that has what is asked for stays, and gives up what it has beyond a chunk to spare.
    method ShrinkBlock(p: Addr, oldsize: nat, nb: nat, bytes: nat)
      requires Valid() && p in h.live && p in h.tiles && oldsize == h.tiles[p].size >= nb == RequestToSize(bytes)
      modifies this, small, tree, os
      ensures Valid() && Realloced(old(h), h, p + TWO_WORDS, p + TWO_WORDS, bytes) && os.keptBytes == old(os.keptBytes)
      ensures p in h.tiles && h.tiles[p].size == ResizedTo(oldsize, nb)
    {
      hide Ok, BooksOk, S.Ok, T.Ok, S.Sizes, T.Chunks, Undisturbed, ParamsOk, Realloced, FreedBlock, SameWords,
        CanHalve, HalvedHeap;
      RequestSize(bytes);
      var rsize := oldsize - nb;
      if rsize >= MIN_CHUNK_SIZE {
        ghost var h1 := h;
        var remainder := p + nb;
        Halve(p, oldsize, nb);
        ghost var h2 := h;
        Free(remainder + TWO_WORDS);
        ShrinkOutcome(h1, h2, h, p, nb, bytes);
        StillThere(h2, h, p, remainder);
      } else {
        KeepOutcome(h, p, bytes);
      }
    }

    // A block just before top takes what it lacks from there.
    method ExpandBlock(p: Addr, oldsize: nat, nb: nat, bytes: nat)
      requires Valid() && p in h.live && p in h.tiles && oldsize == h.tiles[p].size < nb == RequestToSize(bytes)
      requires p + oldsize == top && oldsize + topsize > nb
      modifies this
      ensures Realloced(old(h), h, p + TWO_WORDS, p + TWO_WORDS, bytes) && p in h.tiles && h.tiles[p].size == nb
      ensures Valid()
    {
      hide Ok, BooksOk, S.Ok, T.Ok, S.Sizes, T.Chunks, Undisturbed, ParamsOk, Realloced, SetInuse, SetHead, SameWords,
        ExpandWrites, ExpandedHeap, RequestToSize;
      RequestSize(bytes);
      ReallocFacts(h, Accounts(), p);
      ghost var h1 := h;
      var newsize := oldsize + topsize;
      var newtopsize := newsize - nb;
      var newtop := p + nb;
      GrowWords(mem, p, nb, newsize);
      mem := SetInuse(mem, p, nb);
      mem := SetHead(mem, newtop, Word(newtopsize, false, true));
      top := newtop;
      topsize := newtopsize;
      ExpandDone(h, mem, p, nb, Accounts());
      ExpandFields(h, mem, p, nb);
      h := ExpandedHeap(h, mem, p, nb);
      ExpandOutcome(h1, h, p, nb, bytes);
    }

    // mmap_resize where mapped regions cannot be remapped: the chunk stays, or null sends realloc to a new block.
    method MmapResize(p: Addr, nb: nat) returns (newp: Addr)
      ensures newp == if !S.IsSmall(nb) && nb + 8 <= Head(mem, p).size <= nb + 2 * granularity then p else 0
    {
      var oldsize := Head(mem, p).size;
      newp := 0;
      if S.IsSmall(nb) {
        return;
      }
      if oldsize >= nb + 8 && oldsize - nb <= 2 * granularity {
        newp := p;
      }
    }

    // A mapped block: kept, or moved.
    method ReallocMapped(p: Addr, nb: nat, bytes: nat) returns (r: Addr)
      requires Valid() && p in h.live && p in h.direct && bytes < MAX_REQUEST && nb == RequestToSize(bytes)
      modifies this, small, tree, os
      ensures Valid() && if r == 0 then h == old(h) else Realloced(old(h), h, p + TWO_WORDS, r, bytes)
      ensures if StaysMapped(old(h), p, nb, granularity) then r == p + TWO_WORDS && h == old(h) else r != p + TWO_WORDS
      ensures r != 0 ==> (Enough(h, r, bytes) <==> !KeptShort(old(h), p, nb))
      ensures AsMalloc(old(h), bytes, granularity, r, os.refused > old(os.refused))
      ensures KeptFor(old(h), p, r, os.keptBytes - old(os.keptBytes))
    {
      hide Ok, BooksOk, S.Ok, T.Ok, S.Sizes, T.Chunks, Undisturbed, ParamsOk, Realloced, RequestToSize, IsInuse,
        IsMmapped, AsMalloc, Enough;
      ReallocFacts(h, Accounts(), p);
      LeastPositive(h, Accounts());
      PageFacts(granularity, page);
      var newp := MmapResize(p, nb);
      if newp != 0 {
        MappedKept(h, p, bytes);
        KeepOutcome(h, p, bytes);
        KeptShortExactly(h, p, bytes, granularity);
        r := p + TWO_WORDS;
        Served(h, bytes, granularity, r, false);
      } else {
        NotShort(h, p, nb, granularity);
        r := MoveBlock(p, bytes);
      }
    }

    // mspace_realloc
    method Realloc(oldmem: Addr, bytes: nat) returns (r: Addr)
      requires Valid() && bytes < TWO64 && (oldmem != 0 ==> oldmem >= TWO_WORDS && oldmem - TWO_WORDS in h.live)
      modifies this, small, tree, os
      ensures Valid() && (r == 0 ==> h == old(h))
      ensures oldmem == 0 && r != 0 ==> Given(old(h), h, r, bytes) && Undisturbed(old(h), h, old(h).live)
      ensures oldmem != 0 && r != 0 ==> Realloced(old(h), h, oldmem, r, bytes)
      ensures oldmem != 0 && bytes < MAX_REQUEST && oldmem - TWO_WORDS in old(h).tiles ==>
                var p, nb := oldmem - TWO_WORDS, RequestToSize(bytes);
                if InPlace(old(h), p, nb)
                then r == oldmem && p in h.tiles && h.tiles[p].size == ResizedTo(old(h).tiles[p].size, nb)
                else r != oldmem
      ensures oldmem != 0 && bytes < MAX_REQUEST && oldmem - TWO_WORDS in old(h).direct ==>
          if StaysMapped(old(h), oldmem - TWO_WORDS, RequestToSize(bytes), granularity) then r == oldmem && h == old(h)
          else r != oldmem
      ensures r != 0 ==>
                if oldmem != 0 && KeptShort(old(h), oldmem - TWO_WORDS, RequestToSize(bytes)) then !Enough(h, r, bytes)
                else Enough(h, r, bytes)
      ensures AsMalloc(old(h), bytes, granularity, r, os.refused > old(os.refused))
      ensures if oldmem == 0 then os.keptBytes == old(os.keptBytes)
        else KeptFor(old(h), oldmem - TWO_WORDS, r, os.keptBytes - old(os.keptBytes))
    {
      hide Ok, BooksOk, S.Ok, T.Ok, S.Sizes, T.Chunks, Undisturbed, ParamsOk, Realloced, Given, RequestToSize, IsInuse,
        IsMmapped, AsMalloc, Enough;
      if oldmem == 0 {
        r := Malloc(bytes);
        if r != 0 {
          GivenEnough(old(h), h, r, bytes);
        }
        return;
      }
      if bytes >= MAX_REQUEST {
        TooLarge(h, bytes, granularity, false);
        return 0;
      }
      var oldp := oldmem - TWO_WORDS;
      ReallocFacts(h, Accounts(), oldp);
      LeastPositive(h, Accounts());
      PageFacts(granularity, page);
      var oldsize := Head(mem, oldp).size;
      var next := oldp + oldsize;
      assert oldp >= leastAddr && IsInuse(mem, oldp) && oldp < next && Head(mem, next).pinuse;
      RequestSize(bytes);
      var nb := RequestToSize(bytes);
      if IsMmapped(mem, oldp) {
        r := ReallocMapped(oldp, nb, bytes);
      } else if oldsize >= nb {
        ShrinkBlock(oldp, oldsize, nb, bytes);
        r := oldmem;
        ChunkEnough(old(h), h, oldmem, r, bytes);
        Served(old(h), bytes, granularity, r, os.refused > old(os.refused));
      } else if next == top && oldsize + topsize > nb {
        ExpandBlock(oldp, oldsize, nb, bytes);
        r := oldmem;
        ChunkEnough(old(h), h, oldmem, r, bytes);
        Served(old(h), bytes, granularity, r, os.refused > old(os.refused));
      } else {
        r := MoveBlock(oldp, bytes);
      }
    }

    // mspace_usable_size
    method UsableSizeOf(mem0: Addr) returns (n: nat)
      requires Valid() && (mem0 != 0 ==> mem0 >= TWO_WORDS && mem0 - TWO_WORDS in h.live)
      ensures mem0 == 0 ==> n == 0
      ensures mem0 != 0 ==> (mem0 - TWO_WORDS in h.tiles || mem0 - TWO_WORDS in h.direct) && n == UsableSize(h, mem0)
    {
      hide Ok, BooksOk, S.Ok, T.Ok, S.Sizes, T.Chunks, ParamsOk, IsInuse, IsMmapped;
      n := 0;
      if mem0 != 0 {
        var p := mem0 - TWO_WORDS;
        ReallocFacts(h, Accounts(), p);
        if IsInuse(mem, p) {
          n := Head(mem, p).size - if IsMmapped(mem, p) then MMAP_CHUNK_OVERHEAD else CHUNK_OVERHEAD;
        }
      }
    }

    // ---- mspace_memalign ----

    // A mapped block starts later in its region.
    method ShiftBlock(p: Addr, pos: Addr, ghost h0: Heap)
      requires p + MIN_CHUNK_SIZE <= pos && pos + MIN_CHUNK_SIZE <= p + SizeAt(h, p) && Aligned(pos - p)
      requires p in h.direct && !S.IsSmall(p + SizeAt(h, p) - pos)
      requires Placing(h0, h, p, {}) && Ok(h0) && Valid()
      modifies this`mem, this`h
      ensures Placing(h0, h, pos, {}) && pos + SizeAt(h, pos) == p + SizeAt(old(h), p) && pos in h.direct
      ensures Valid()
    {
      hide Ok, BooksOk, S.Ok, T.Ok, S.Sizes, T.Chunks, Undisturbed, ParamsOk, Placing, SetHead, SetFoot, Aligned,
        IsInuse, IsMmapped;
      PlacingPlace(h0, h, p, {});
      ReallocFacts(h, Accounts(), p);
      var leadsize := pos - p;
      var newsize := Head(mem, p).size - leadsize;
      ghost var h1 := h;
      mem := SetFoot(mem, pos, Foot(mem, p) + leadsize);
      mem := SetHead(mem, pos, Word(newsize, false, false));
      ShiftDone(h, mem, p, leadsize, Accounts());
      h := ShiftedHeap(h, mem, p, leadsize);
      PlacingThen(h0, h1, h, p, pos, {}, {});
      assert {} + {} == Extra(0);
    }

    // The words before the aligned place become a block of their own, to be freed.
    method SplitLeader(p: Addr, pos: Addr, ghost h0: Heap)
      requires p + MIN_CHUNK_SIZE <= pos && pos + MIN_CHUNK_SIZE <= p + SizeAt(h, p) && Aligned(pos - p) && p in h.tiles
      requires Placing(h0, h, p, {}) && Ok(h0) && Valid()
      modifies this`mem, this`h
      ensures Placing(h0, h, pos, {p}) && pos + SizeAt(h, pos) == p + SizeAt(old(h), p) && pos in h.tiles
          && p + SizeAt(h, p) == pos
      ensures Valid()
    {
      hide Ok, BooksOk, S.Ok, T.Ok, S.Sizes, T.Chunks, Undisturbed, ParamsOk, Placing, SetInuse, HalveWrites,
        SameWords, Aligned, IsInuse, IsMmapped;
      PlacingPlace(h0, h, p, {});
      ReallocFacts(h, Accounts(), p);
      var leadsize := pos - p;
      var newsize := Head(mem, p).size - leadsize;
      ghost var h1 := h;
      CutWords(mem, p, leadsize, leadsize + newsize);
      mem := SetInuse(mem, pos, newsize);
      mem := SetInuse(mem, p, leadsize);
      HalveDone(h, mem, p, leadsize, Accounts());
      h := HalvedHeap(h, mem, p, leadsize);
      PlacingThen(h0, h1, h, p, pos, {}, {p});
      assert {} + {p} == {p};
    }

    // The block at p gives back what lies before pos.
    method CutLeader(p: Addr, pos: Addr, ghost h0: Heap) returns (leader: Addr)
      requires p + MIN_CHUNK_SIZE <= pos && pos + MIN_CHUNK_SIZE <= p + SizeAt(h, p) && Aligned(pos - p)
      requires p in h.direct ==> !S.IsSmall(p + SizeAt(h, p) - pos)
      requires Placing(h0, h, p, {}) && Ok(h0) && Valid()
      modifies this`mem, this`h
      ensures Placing(h0, h, pos, Extra(leader)) && pos + SizeAt(h, pos) == p + SizeAt(old(h), p)
      ensures pos in h.direct <==> p in old(h).direct
      ensures leader == if p in old(h).direct then 0 else p + TWO_WORDS
      ensures leader != 0 ==> p + SizeAt(h, p) == pos
      ensures Valid()
    {
      hide Ok, BooksOk, S.Ok, T.Ok, S.Sizes, T.Chunks, ParamsOk, Placing, Aligned, IsInuse, IsMmapped;
      PlacingPlace(h0, h, p, {});
      ReallocFacts(h, Accounts(), p);
      if IsMmapped(mem, p) {
        ShiftBlock(p, pos, h0);
        leader := 0;
      } else {
        SplitLeader(p, pos, h0);
        leader := p + TWO_WORDS;
        PlacingPlace(h0, h, pos, {p});
        BlockBelow(h, pos);
      }
    }

    // What a block in a segment has beyond the request and a chunk to spare becomes a block to be freed.
    method CutTrailer(p: Addr, nb: nat, ghost h0: Heap, ghost extra: set<Addr>) returns (trailer: Addr)
      requires RequestOk(nb) && nb <= SizeAt(h, p) && Placing(h0, h, p, extra) && Ok(h0) && Valid()
      modifies this`mem, this`h
      ensures Placing(h0, h, p, extra + Extra(trailer)) && (p in h.tiles <==> p in old(h).tiles)
      ensures p in h.tiles ==> nb <= SizeAt(h, p) <= nb + MIN_CHUNK_SIZE
      ensures (p !in h.tiles ==> trailer == 0) && (trailer == 0 ==> SizeAt(h, p) == SizeAt(old(h), p))
      ensures trailer != 0 ==>
          trailer == p + nb + TWO_WORDS && SizeAt(h, p) == nb && nb + SizeAt(h, p + nb) == SizeAt(old(h), p)
      ensures trailer != 0 ==> extra + Extra(trailer) - extra == Extra(trailer)
      ensures Valid()
    {
      hide Ok, BooksOk, S.Ok, T.Ok, S.Sizes, T.Chunks, Undisturbed, ParamsOk, Placing, SetInuse, IsMmapped, IsInuse,
        HalveWrites, SameWords;
      PlacingPlace(h0, h, p, extra);
      ReallocFacts(h, Accounts(), p);
      ghost var h1 := h;
      trailer := 0;
      assert extra + Extra(0) == extra;
      if !IsMmapped(mem, p) {
        var size := Head(mem, p).size;
        if size > nb + MIN_CHUNK_SIZE {
          var remainder := p + nb;
          CutWords(mem, p, nb, size);
          mem := SetInuse(mem, p, nb);
          mem := SetInuse(mem, remainder, size - nb);
          HalveDone(h, mem, p, nb, Accounts());
          h := HalvedHeap(h, mem, p, nb);
          trailer := remainder + TWO_WORDS;
          PlacingThen(h0, h1, h, p, p, extra, {p + nb});
          assert {p + nb} == Extra(trailer);
        }
      }
    }

    // Free a leader or trailer, if there is one.
    method FreeExtra(mem0: Addr, p: Addr, ghost h0: Heap, ghost extra: set<Addr>)
      requires Placing(h0, h, p, extra) && (mem0 != 0 ==>
          mem0 >= TWO_WORDS && mem0 - TWO_WORDS in extra) && Ok(h0) && Valid()
      modifies this, small, tree, os
      ensures Placing(h0, h, p, extra - Extra(mem0)) && SizeAt(h, p) == SizeAt(old(h), p)
          && (p in h.tiles <==> p in old(h).tiles) && os.keptBytes == old(os.keptBytes)
      ensures Valid()
    {
      hide Ok, BooksOk, S.Ok, T.Ok, S.Sizes, T.Chunks, ParamsOk, FreedBlock, Placing;
      assert extra - Extra(0) == extra;
      if mem0 != 0 {
        PlacingPlace(h0, h, p, extra);
        ghost var h1 := h;
        ExtraChunk(h0, h, p, extra, mem0 - TWO_WORDS);
        Free(mem0);
        PlacingFreed(h0, h1, h, p, extra, mem0 - TWO_WORDS);
      }
    }

    // The place that memalign picks in what malloc gave: aligned, and far enough in for the leader to be a chunk.
    method MoveUp(mem0: Addr, a: nat, nb: nat, ghost k: nat, ghost h0: Heap) returns (p: Addr, leader: Addr)
      requires Ok(h0) && mem0 >= TWO_WORDS && Aligned(mem0) && a >= 32 && mem0 % a != 0
          && Placing(h0, h, mem0 - TWO_WORDS, {}) && nb >= MIN_CHUNK_SIZE
      requires a == TreeIndex.Pow2(k) && 5 <= k <= 63 && Roomy(h, mem0 - TWO_WORDS, nb + a + MIN_CHUNK_SIZE)
      requires Valid()
      modifies this`mem, this`h
      ensures (p + TWO_WORDS) % a == 0 && Placing(h0, h, p, Extra(leader)) && (leader == 0 || leader >= TWO_WORDS)
      ensures nb <= SizeAt(h, p) && (p in h.direct ==> nb + MMAP_CHUNK_OVERHEAD <= SizeAt(h, p))
      ensures leader != 0 ==>
          leader + SizeAt(h, leader - TWO_WORDS) == p + TWO_WORDS
          && SizeAt(h, leader - TWO_WORDS) >= MIN_CHUNK_SIZE
      ensures Valid()
    {
      hide Ok, BooksOk, S.Ok, T.Ok, S.Sizes, T.Chunks, ParamsOk, Placing, TreeIndex.Pow2, Alignment.BitAnd, Extra,
        SizeAt;
      var p0 := mem0 - TWO_WORDS;
      Alignment.AlignedSpot(mem0, k, p0);
      var br := Alignment.BitAnd(mem0 + a - 1, TWO64 - a) - TWO_WORDS;
      var pos := if br - p0 >= MIN_CHUNK_SIZE then br else br + a;
      if p0 in h.direct {
        PageFacts(granularity, page);
        ShiftedLarge(h, Accounts(), p0, k, pos);
      }
      leader := CutLeader(p0, pos, h0);
      p := pos;
    }

    // Give back the leader and what is left at the end.
    method CutDown(p: Addr, leader: Addr, nb: nat, ghost h0: Heap)
      requires Ok(h0) && Placing(h0, h, p, Extra(leader)) && RequestOk(nb) && nb <= SizeAt(h, p) && (leader == 0
          || leader >= TWO_WORDS)
      requires Valid()
      modifies this, small, tree, os
      ensures Placing(h0, h, p, {}) && (p in h.tiles <==> p in old(h).tiles)
          && (p in h.tiles ==> nb <= SizeAt(h, p) <= nb + MIN_CHUNK_SIZE) && os.keptBytes == old(os.keptBytes)
      ensures p !in h.tiles ==> SizeAt(h, p) == SizeAt(old(h), p)
      ensures Valid()
    {
      hide Ok, BooksOk, S.Ok, T.Ok, S.Sizes, T.Chunks, ParamsOk, Placing, SizeAt;
      var trailer := CutTrailer(p, nb, h0, Extra(leader));
      FreeExtra(leader, p, h0, Extra(leader) + Extra(trailer));
      FreeExtra(trailer, p, h0, Extra(trailer));
      assert Extra(trailer) - Extra(trailer) == {};
    }

    // mspace_memalign, with what malloc gave: move to an aligned spot, and give back the rest.
    method AlignBlock(mem0: Addr, a: nat, nb: nat, ghost k: nat, ghost h0: Heap) returns (r: Addr)
      requires Ok(h0) && mem0 >= TWO_WORDS && Aligned(mem0) && Placing(h0, h, mem0 - TWO_WORDS, {}) && RequestOk(nb)
      requires a == TreeIndex.Pow2(k) && 5 <= k <= 63 && a >= 32 && Roomy(h, mem0 - TWO_WORDS, nb + a + MIN_CHUNK_SIZE)
      requires Valid()
      modifies this, small, tree, os
      ensures r >= TWO_WORDS && r % a == 0 && Placing(h0, h, r - TWO_WORDS, {}) && os.keptBytes == old(os.keptBytes)
      ensures var p, size := r - TWO_WORDS, SizeAt(h, r - TWO_WORDS);
        && (p in h.tiles ==> nb <= size <= nb + MIN_CHUNK_SIZE) && (p !in h.tiles ==> size >= nb + MMAP_CHUNK_OVERHEAD)
      ensures Valid()
    {
      hide Ok, BooksOk, S.Ok, T.Ok, S.Sizes, T.Chunks, ParamsOk, Placing, TreeIndex.Pow2, Extra, SizeAt;
      var p := mem0 - TWO_WORDS;
      var leader := 0;
      NoExtra();
      if mem0 % a != 0 {
        p, leader := MoveUp(mem0, a, nb, k, h0);
      }
      PlacingPlace(h0, h, p, Extra(leader));
      CutDown(p, leader, nb, h0);
      r := p + TWO_WORDS;
    }

    // mspace_memalign
    method Memalign(alignment: nat, bytes: nat) returns (r: Addr)
      requires Valid() && alignment <= HALF && bytes < TWO64
      modifies this, small, tree, os
      ensures Valid() && Undisturbed(old(h), h, old(h).live) && (r == 0 ==> h == old(h))
      ensures alignment <= MALLOC_ALIGNMENT && r != 0 ==> Given(old(h), h, r, bytes)
      ensures alignment > MALLOC_ALIGNMENT && r != 0 ==> AlignedGiven(old(h), h, r, alignment, bytes)
      ensures os.keptBytes == old(os.keptBytes)
      ensures alignment <= MALLOC_ALIGNMENT ==>
          && AsMalloc(old(h), bytes, granularity, r, os.refused > old(os.refused))
          && Chosen(old(h), h, bytes, r, Terms(), os.refused > old(os.refused))
      ensures forall k: nat {:trigger Alignment.Rounded(alignment, k)} ::
          alignment > MALLOC_ALIGNMENT && Alignment.Rounded(alignment, k) ==>
            AsMalloc(old(h), PaddedRequest(bytes, k), granularity, r, os.refused > old(os.refused))
    {
      hide Ok, BooksOk, S.Ok, T.Ok, S.Sizes, T.Chunks, Undisturbed, ParamsOk, Given, AlignedGiven, Placing,
        Alignment.Rounded, RequestToSize, TreeIndex.Pow2, AsMalloc, Chosen;
      if alignment <= MALLOC_ALIGNMENT {
        r := Malloc(bytes);
        return;
      }
      ghost var k;
      var a;
      a, k := Alignment.RoundAlignment(alignment);
      r := 0;
      ghost var h0, req := h, PaddedRequest(bytes, k);
      SameUndisturbed(h);
      RequestSize(bytes);
      if bytes < MAX_REQUEST - a {
        var nb := RequestToSize(bytes);
        var mem0 := Malloc(nb + a + MIN_CHUNK_SIZE - CHUNK_OVERHEAD);
        if mem0 != 0 {
          ghost var refused := os.refused > old(os.refused);
          PlacingFirst(h0, h, mem0, nb + a + MIN_CHUNK_SIZE - CHUNK_OVERHEAD);
          r := AlignBlock(mem0, a, nb, k, h0);
          AlignedOutcome(h0, h, r - TWO_WORDS, alignment, k, bytes);
          AsMallocThen(h0, req, granularity, mem0, refused, r, os.refused > old(os.refused));
        }
      } else {
        TooLarge(h0, req, granularity, false);
      }
      forall k2: nat | Alignment.Rounded(alignment, k2) ensures PaddedRequest(bytes, k2) == req {
        Alignment.RoundedOnce(alignment, k, k2);
      }
    }
  }
}
