// Requests and chunk sizes, and the macros that write the words of a chunk.
module Requests {
  import opened Tiling
  import opened HeapState

  const CHUNK_OVERHEAD: nat := 8
  const MMAP_CHUNK_OVERHEAD: nat := 24
  const MIN_REQUEST: nat := 23
  const MAX_SMALL_REQUEST: nat := 240
  const MAX_REQUEST: nat := TWO64 - 128
  const MAX_SIZE_T: nat := TWO64 - 1
  const MALLOC_ALIGNMENT: nat := 8
  const SYS_ALLOC_PADDING: nat := TOP_FOOT_SIZE + MALLOC_ALIGNMENT

  // pad_request, request2size
  function PadRequest(req: nat): nat {
    (req + 15) / 8 * 8
  }

  function RequestToSize(req: nat): nat {
    if req < MIN_REQUEST then MIN_CHUNK_SIZE else PadRequest(req)
  }

  // A chunk size that holds a request: aligned, no smaller than a chunk, and with the fewest bytes to spare.
  ghost predicate SizeFor(req: nat, nb: nat) {
    && Aligned(nb) && MIN_CHUNK_SIZE <= nb && req + CHUNK_OVERHEAD <= nb
    && forall n :: Aligned(n) && MIN_CHUNK_SIZE <= n && req + CHUNK_OVERHEAD <= n ==> nb <= n
  }

  lemma RequestSize(req: nat)
    ensures SizeFor(req, RequestToSize(req))
    ensures RequestToSize(req) <= Max(MIN_CHUNK_SIZE, req + 15)
    ensures req <= MAX_SMALL_REQUEST ==> RequestToSize(req) <= 248
    ensures req > MAX_SMALL_REQUEST ==> RequestToSize(req) == PadRequest(req) >= 256
    ensures req < MAX_REQUEST ==> RequestToSize(req) < TWO64 - 112
  {
    forall n | Aligned(n) && MIN_CHUNK_SIZE <= n && req + CHUNK_OVERHEAD <= n ensures RequestToSize(req) <= n {
      assert n / 8 * 8 == n;
    }
  }

  // 64-bit addition and the rounding of granularity_align, mmap_align_size
  function Plus(a: nat, b: nat): nat {
    (a + b) % TWO64
  }

  function Times(k: nat, unit: nat): nat {
    k * unit
  }

  function AlignUp(s: nat, unit: nat): nat
    requires unit > 0
  {
    Times(Plus(s, unit - 1) / unit, unit)
  }

  ghost predicate Units(n: nat, unit: nat) {
    exists k: nat :: n == Times(k, unit)
  }

  const HALF: nat := 0x8000_0000_0000_0000

  // The check that a padded and rounded request is larger than the request catches every wrap-around.
  lemma PaddedSize(nb: nat, pad: nat, unit: nat)
    requires 0 < unit && nb < TWO64 && pad + unit <= HALF
    ensures var size := AlignUp(Plus(nb, pad), unit);
      Units(size, unit) && size < TWO64 && (size > nb ==> nb + pad <= size < nb + pad + unit)
  {
    hide Times, Units;
    var s := Plus(nb, pad);
    var x := Plus(s, unit - 1);
    RoundDown(x, unit);
    UnitsOf(x / unit, unit);
    Wrapped(nb, pad);
    Wrapped(s, unit - 1);
  }

  // A request that far from the end of the address space does not wrap.
  lemma PaddedExactly(nb: nat, pad: nat, unit: nat)
    requires 0 < unit && pad > 0
    ensures nb + pad + unit <= TWO64 ==> AlignUp(Plus(nb, pad), unit) > nb
  {
    hide Times;
    RoundDown(nb + pad + (unit - 1), unit);
  }

  // A size that did not wrap is the padded request, rounded up.
  lemma NoWrap(nb: nat, pad: nat, unit: nat)
    requires 0 < unit && nb < TWO64 && pad + unit <= HALF && AlignUp(Plus(nb, pad), unit) > nb
    ensures Plus(nb, pad) == nb + pad
  {
    PaddedSize(nb, pad, unit);
    Wrapped(nb, pad);
  }

  lemma Wrapped(a: nat, b: nat)
    requires a < TWO64 && b < TWO64
    ensures Plus(a, b) == if a + b < TWO64 then a + b else a + b - TWO64
  {
  }

  lemma UnitsOf(k: nat, unit: nat)
    ensures Units(Times(k, unit), unit)
  {
  }

  lemma RoundDown(a: nat, unit: nat)
    requires unit > 0
    ensures a - unit < Times(a / unit, unit) <= a
  {
    assert a == a / unit * unit + a % unit;
  }

  lemma TimesSum(a: nat, b: nat, unit: nat)
    ensures Times(a, unit) + Times(b, unit) == Times(a + b, unit)
  {
    assert (a + b) * unit == a * unit + b * unit;
  }

  lemma TimesLess(a: nat, b: nat, unit: nat)
    requires a < b && unit > 0
    ensures Times(a, unit) < Times(b, unit)
  {
    TimesSum(a, b - a, unit);
    assert (b - a) * unit > 0;
  }

  lemma UnitsSum(a: nat, b: nat, unit: nat)
    requires unit > 0 && Units(a, unit) && Units(b, unit)
    ensures Units(a + b, unit) && (b <= a ==> Units(a - b, unit))
  {
    hide Times;
    var x: nat :| a == Times(x, unit);
    var y: nat :| b == Times(y, unit);
    TimesSum(x, y, unit);
    if x < y {
      TimesLess(x, y, unit);
    } else {
      TimesSum(x - y, y, unit);
    }
  }

  lemma UnitsAtLeast(n: nat, unit: nat)
    requires unit > 0 && Units(n, unit) && n > 0
    ensures n >= unit
  {
    var k: nat :| n == Times(k, unit);
    if k > 1 {
      TimesSum(k - 1, 1, unit);
    }
  }

  // ---- The macros that write head and foot words ----

  function SetHead(m: Memory, p: Addr, w: Word): Memory {
    m[p + 8 := w]
  }

  function SetFoot(m: Memory, p: Addr, s: nat): Memory {
    m[p := Word(s, false, false)]
  }

  function SetPinuse(m: Memory, p: Addr): Memory {
    SetHead(m, p, Head(m, p).(pinuse := true))
  }

  function ClearPinuse(m: Memory, p: Addr): Memory {
    SetHead(m, p, Head(m, p).(pinuse := false))
  }

  // is_inuse: right only because a free chunk has its pinuse bit set
  predicate IsInuse(m: Memory, p: Addr) {
    !(Head(m, p).pinuse && !Head(m, p).cinuse)
  }

  // is_mmapped
  predicate IsMmapped(m: Memory, p: Addr) {
    !Head(m, p).pinuse && !Head(m, p).cinuse
  }

  // set_inuse
  function SetInuse(m: Memory, p: Addr, s: nat): Memory {
    SetPinuse(SetHead(m, p, Word(s, true, Head(m, p).pinuse)), p + s)
  }

  // set_inuse_and_pinuse
  function SetInuseAndPinuse(m: Memory, p: Addr, s: nat): Memory {
    SetPinuse(SetHead(m, p, Word(s, true, true)), p + s)
  }

  // set_size_and_pinuse_of_inuse_chunk
  function SetSizeOfInuse(m: Memory, p: Addr, s: nat): Memory {
    SetHead(m, p, Word(s, true, true))
  }

  // set_size_and_pinuse_of_free_chunk
  function SetSizeOfFree(m: Memory, p: Addr, s: nat): Memory {
    SetFoot(SetHead(m, p, Word(s, false, true)), p + s, s)
  }

  // set_free_with_pinuse
  function SetFree(m: Memory, p: Addr, s: nat, n: Addr): Memory {
    SetSizeOfFree(ClearPinuse(m, n), p, s)
  }

  lemma TakeWords(m: Memory, p: Addr, s: nat)
    requires s > 0
    ensures TakeWrites(m, SetInuseAndPinuse(m, p, s), p, s)
  {
  }

  // The two ways to split a free chunk write the same words.
  lemma SplitWords(m: Memory, p: Addr, nb: nat, size: nat)
    requires 8 <= nb && nb + 16 <= size
    ensures CarveWrites(m, SetSizeOfFree(SetSizeOfInuse(m, p, nb), p + nb, size - nb), p, nb, size, false)
    ensures CarveWrites(m, SetSizeOfInuse(SetSizeOfFree(m, p + nb, size - nb), p, nb), p, nb, size, false)
  {
  }

  lemma SplitTopWords(m: Memory, p: Addr, nb: nat, size: nat)
    requires 8 <= nb < size
    ensures CarveWrites(m, SetSizeOfInuse(SetHead(m, p + nb, Word(size - nb, false, true)), p, nb), p, nb, size, true)
  {
  }

  // The ways to merge: with the chunk after in use, with a free chunk after (its successor's pinuse bit is clear),
  // into top.
  lemma MergeWords(m: Memory, lo: Addr, hi: Addr)
    requires lo + 16 <= hi
    ensures MergeWrites(m, SetFree(m, lo, hi - lo, hi), lo, hi, false)
    ensures !Head(m, hi).pinuse ==> MergeWrites(m, SetSizeOfFree(m, lo, hi - lo), lo, hi, false)
    ensures !Head(m, hi).pinuse ==> MergeWrites(m, SetHead(m, lo, Word(hi - lo, false, true)), lo, hi, true)
  {
  }

  // Realloc and memalign set the sizes of the two parts in either order, whatever the owner left where the second head
  // goes.
  lemma CutWords(m: Memory, p: Addr, nb: nat, size: nat)
    requires 8 <= nb && nb + 8 < size && Head(m, p + size).pinuse
    ensures HalveWrites(m, SetInuseAndPinuse(SetInuse(m, p, nb), p + nb, size - nb), p, nb, size)
    ensures HalveWrites(m, SetInuse(SetInuse(m, p, nb), p + nb, size - nb), p, nb, size)
    ensures HalveWrites(m, SetInuse(SetInuse(m, p + nb, size - nb), p, nb), p, nb, size)
  {
  }

  lemma GrowWords(m: Memory, p: Addr, nb: nat, total: nat)
    requires 8 <= nb < total
    ensures ExpandWrites(m, SetHead(SetInuse(m, p, nb), p + nb, Word(total - nb, false, true)), p, nb, total)
  {
  }
}
