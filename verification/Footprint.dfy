// Memory from the system: mapping and unmapping, and the accounts that a
// space keeps of it.
module Footprint {
  import opened Tiling
  import opened HeapState
  import opened HeapSegments
  import opened HeapDirect
  import opened Requests

  // The system: mmap gives fresh memory or fails, munmap takes mapped memory back or fails.
  class Os {
    var mapped: set<Addr>

    // How often it refused.
    ghost var refused: nat

    // The bytes of the regions of directly mapped blocks that it refused to take back.
    ghost var keptBytes: nat

    constructor ()
      ensures mapped == {} && refused == keptBytes == 0
    {
      mapped := {};
      refused, keptBytes := 0, 0;
    }

    // CALL_MMAP: whole pages that nothing else has, or failure.
    method Map(size: nat, page: nat) returns (ok: bool, base: Addr)
      requires page >= 8 && Units(page, 8)
      modifies this`mapped, this`refused
      ensures !ok ==> mapped == old(mapped) && refused > old(refused)
      ensures ok ==>
                && refused == old(refused) && base > 0 && Units(base, page) && base + size <= TWO64
                && Range(base, base + size) !! old(mapped) && mapped == old(mapped) + Range(base, base + size)
    {
      var n: nat := *;
      var willing: bool := *;
      base := Times(n, page);
      UnitsOf(n, page);
      ok := willing && base > 0 && base + size <= TWO64 && Range(base, base + size) !! mapped;
      if ok {
        mapped := mapped + Range(base, base + size);
      } else {
        refused := refused + 1;
      }
    }

    // CALL_MUNMAP, of memory that the caller has mapped; direct says that it is the region of a directly mapped block.
    method Unmap(base: Addr, size: nat, ghost direct: bool) returns (ok: bool)
      requires Range(base, base + size) <= mapped && (direct ==> size > 0)
      modifies this
      ensures mapped == if ok then old(mapped) - Range(base, base + size) else old(mapped)
      ensures refused == old(refused) + if ok then 0 else 1
      ensures keptBytes == old(keptBytes) + if !ok && direct then size else 0
    {
      ok := *;
      if ok {
        mapped := mapped - Range(base, base + size);
      } else {
        refused := refused + 1;
        if direct {
          keptBytes := keptBytes + size;
        }
      }
    }
  }

  // ---- The footprint: the bytes of the segments and of the regions of directly mapped blocks ----

  ghost function SegmentBytes(segs: seq<Segment>): nat {
    if segs == [] then 0 else segs[0].size + SegmentBytes(segs[1..])
  }

  function RegionLength(p: Addr, r: Region): int {
    RegionEnd(p, r) - r.start
  }

  ghost function DirectBytes(direct: map<Addr, Region>): int
    decreases |direct|
  {
    if direct == map[] then 0
    else
      var p :| p in direct;
      RegionLength(p, direct[p]) + DirectBytes(direct - {p})
  }

  ghost function TotalBytes(h: Heap): int {
    SegmentBytes(h.segs) + DirectBytes(h.direct)
  }

  lemma {:induction false} SegmentBytesAt(segs: seq<Segment>, i: nat)
    requires i < |segs|
    ensures SegmentBytes(segs) == SegmentBytes(segs[..i]) + segs[i].size + SegmentBytes(segs[i + 1..])
  {
    if i == 0 {
      assert segs[..0] == [];
    } else {
      SegmentBytesAt(segs[1..], i - 1);
      assert segs[..i][1..] == segs[1..][..i - 1] && segs[1..][i..] == segs[i + 1..];
    }
  }

  lemma {:induction false} SegmentBytesSum(a: seq<Segment>, b: seq<Segment>)
    ensures SegmentBytes(a + b) == SegmentBytes(a) + SegmentBytes(b)
  {
    if a == [] {
      assert a + b == b;
    } else {
      SegmentBytesSum(a[1..], b);
      assert (a + b)[1..] == a[1..] + b;
    }
  }

  // Changing the size of one segment, removing one, and putting one first.
  lemma SegmentResized(segs: seq<Segment>, i: nat, s: Segment)
    requires i < |segs|
    ensures SegmentBytes(segs[i := s]) == SegmentBytes(segs) - segs[i].size + s.size
  {
    SegmentBytesAt(segs, i);
    SegmentBytesAt(segs[i := s], i);
    assert segs[i := s][..i] == segs[..i] && segs[i := s][i + 1..] == segs[i + 1..];
  }

  lemma SegmentRemoved(segs: seq<Segment>, i: nat)
    requires i < |segs|
    ensures SegmentBytes(segs[..i] + segs[i + 1..]) == SegmentBytes(segs) - segs[i].size
  {
    SegmentBytesAt(segs, i);
    SegmentBytesSum(segs[..i], segs[i + 1..]);
  }

  lemma {:induction false} DirectBytesAt(direct: map<Addr, Region>, p: Addr)
    requires p in direct
    ensures DirectBytes(direct) == RegionLength(p, direct[p]) + DirectBytes(direct - {p})
    decreases |direct|
  {
    var q :| q in direct && DirectBytes(direct) == RegionLength(q, direct[q]) + DirectBytes(direct - {q});
    if q != p {
      DirectBytesAt(direct - {q}, p);
      DirectBytesAt(direct - {p}, q);
      assert direct - {q} - {p} == direct - {p} - {q};
    }
  }

  lemma DirectAdded(direct: map<Addr, Region>, p: Addr, r: Region)
    requires p !in direct
    ensures DirectBytes(direct[p := r]) == DirectBytes(direct) + RegionLength(p, r)
  {
    DirectBytesAt(direct[p := r], p);
    assert direct[p := r] - {p} == direct;
  }

  lemma SegmentPushed(segs: seq<Segment>, first: Segment, second: Segment)
    requires |segs| > 0 && second.size == segs[0].size
    ensures SegmentBytes([first] + [second] + segs[1..]) == first.size + SegmentBytes(segs)
  {
    var rest := segs[1..];
    assert [first] + [second] + rest == [first] + ([second] + rest);
    assert ([first] + ([second] + rest))[1..] == [second] + rest && ([second] + rest)[1..] == rest;
  }
}
