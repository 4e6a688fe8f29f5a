// Sizes of large chunks and the treebins that hold them: the index computed
// by compute_tree_index, the range of sizes of each bin, and the shift that
// brings the first inspected bit of a size to the top of a 64-bit word.
module TreeIndex {

  const NTREEBINS: nat := 32
  const MIN_LARGE_SIZE: nat := 256
  const TWO32: nat := 0x1_0000_0000
  const TWO64: nat := 0x1_0000_0000_0000_0000

  function Pow2(k: nat): (r: nat)
    ensures r > 0
  {
    if k == 0 then 1 else 2 * Pow2(k - 1)
  }

  function FloorLog2(x: nat): nat
    requires x > 0
  {
    if x == 1 then 0 else 1 + FloorLog2(x / 2)
  }

  lemma {:induction false} FloorLog2Bounds(x: nat)
    requires x > 0
    ensures Pow2(FloorLog2(x)) <= x < Pow2(FloorLog2(x) + 1)
  {
    if x > 1 {
      FloorLog2Bounds(x / 2);
    } else {
      assert Pow2(1) == 2;
    }
  }

  lemma {:induction false} Pow2Monotone(j: nat, k: nat)
    requires j <= k
    ensures Pow2(j) <= Pow2(k)
    decreases k
  {
    if j < k {
      Pow2Monotone(j, k - 1);
    }
  }

  lemma Pow2Values()
    ensures Pow2(4) == 0x10 && Pow2(8) == 0x100 && Pow2(12) == 0x1000 && Pow2(16) == 0x1_0000
    ensures Pow2(7) == 0x80 && Pow2(22) == 0x40_0000 && Pow2(24) == 0x100_0000
  {
    assert Pow2(4) == 0x10;
    assert Pow2(8) == 16 * Pow2(4);
    assert Pow2(12) == 16 * Pow2(8);
    assert Pow2(16) == 16 * Pow2(12);
    assert Pow2(20) == 16 * Pow2(16);
    assert Pow2(24) == 16 * Pow2(20);
  }

  // The size bit that tells the two bins of one power of two apart.
  function SizeBit(s: nat, k: nat): (b: nat)
    ensures b < 2
  {
    (s / Pow2(k + 7)) % 2
  }

  // The definition by floor-log2: what the __builtin_clz form computes.
  function BinOfSize(s: nat): nat {
    var x := s / 256;
    if x == 0 then 0
    else if x > 0xFFFF then NTREEBINS - 1
    else
      var k := FloorLog2(x);
      2 * k + SizeBit(s, k)
  }

  // minsize_for_tree_index
  function MinSize(i: nat): nat {
    Pow2(i / 2 + 8) + if i % 2 == 1 then Pow2(i / 2 + 7) else 0
  }

  lemma {:induction false} MinSizeStep(i: nat)
    ensures MinSize(i + 1) == MinSize(i) + Pow2(i / 2 + 7)
  {
    if i % 2 == 0 {
      assert (i + 1) / 2 == i / 2;
    } else {
      assert (i + 1) / 2 == i / 2 + 1;
      assert Pow2(i / 2 + 9) == 2 * Pow2(i / 2 + 8);
    }
    assert Pow2(i / 2 + 8) == 2 * Pow2(i / 2 + 7);
  }

  lemma {:induction false} MinSizeMonotone(i: nat, j: nat)
    requires i < j
    ensures MinSize(i) < MinSize(j)
    decreases j
  {
    MinSizeStep(j - 1);
    if i < j - 1 {
      MinSizeMonotone(i, j - 1);
    }
  }

  // Every large size lies in the range of its bin, and only the last bin is unbounded.
  lemma BinRange(s: nat)
    requires s >= MIN_LARGE_SIZE
    ensures BinOfSize(s) < NTREEBINS
    ensures MinSize(BinOfSize(s)) <= s
    ensures BinOfSize(s) < NTREEBINS - 1 ==> s < MinSize(BinOfSize(s) + 1)
  {
    var x := s / 256;
    Pow2Values();
    if x > 0xFFFF {
      assert MinSize(31) == Pow2(23) + Pow2(22);
      assert Pow2(23) == 2 * Pow2(22);
    } else {
      BinRangeBelowLast(s);
    }
  }

  lemma BinRangeBelowLast(s: nat)
    requires MIN_LARGE_SIZE <= s < 0x100_0000
    ensures BinOfSize(s) < NTREEBINS
    ensures MinSize(BinOfSize(s)) <= s < MinSize(BinOfSize(s) + 1)
  {
    var x := s / 256;
    var k := FloorLog2(x);
    PowerRange(x);
    SizeBitValue(s, k);
    var b := SizeBit(s, k);
    IndexParts(k, b);
    MinSizeStep(2 * k + b);
  }

  lemma SizeBitValue(s: nat, k: nat)
    requires Pow2(k + 8) <= s < 2 * Pow2(k + 8)
    ensures Pow2(k + 8) == 2 * Pow2(k + 7)
    ensures SizeBit(s, k) == if s < 3 * Pow2(k + 7) then 0 else 1
  {
    QuotientTwoOrThree(s, Pow2(k + 7));
  }

  lemma IndexParts(k: nat, b: nat)
    requires b < 2
    ensures (2 * k + b) / 2 == k
    ensures MinSize(2 * k + b) == Pow2(k + 8) + if b == 1 then Pow2(k + 7) else 0
  {
    assert (2 * k + b) / 2 == k && (2 * k + b) % 2 == b;
  }

  lemma PowerRange(x: nat)
    requires 0 < x < 0x1_0000
    ensures FloorLog2(x) < 16
    ensures 256 * x >= Pow2(FloorLog2(x) + 8)
    ensures 256 * x + 256 <= 2 * Pow2(FloorLog2(x) + 8)
  {
    var k := FloorLog2(x);
    FloorLog2Bounds(x);
    Pow2Values();
    if k >= 16 {
      Pow2Monotone(16, k);
    }
    Pow2Scale(k);
  }

  lemma {:induction false} Pow2Scale(k: nat)
    ensures Pow2(k + 8) == 256 * Pow2(k)
  {
    if k == 0 {
      Pow2Values();
    } else {
      Pow2Scale(k - 1);
    }
  }

  lemma QuotientTwoOrThree(s: nat, p: nat)
    requires p > 0 && 2 * p <= s < 4 * p
    ensures s / p == if s < 3 * p then 2 else 3
  {
    if s < 3 * p {
      QuotientIs(s, p, 2);
    } else {
      QuotientIs(s, p, 3);
    }
  }

  lemma QuotientIs(s: nat, p: nat, q: nat)
    requires p > 0 && q * p <= s < q * p + p
    ensures s / p == q
  {
    var d, r := s / p, s % p;
    assert s == d * p + r;
    if d < q {
      CancelLess(q, d + 1, p);
    } else if q < d {
      CancelLess(d, q + 1, p);
    }
  }

  lemma CancelLess(a: int, b: int, m: nat)
    requires m > 0 && a * m < b * m
    ensures a < b
  {
    if a >= b {
      MulDifference(a, b, m);
    }
  }

  lemma MulDifference(d: int, q: int, p: int)
    ensures (d - q) * p == d * p - q * p
  {
  }

  // The ranges partition the large sizes: a size lies in the range of bin i exactly when i is its bin.
  lemma BinUnique(s: nat, i: nat)
    requires s >= MIN_LARGE_SIZE && i < NTREEBINS
    ensures BinOfSize(s) == i <==> MinSize(i) <= s && (i < NTREEBINS - 1 ==> s < MinSize(i + 1))
  {
    BinRange(s);
    var j := BinOfSize(s);
    if i < j {
      if i + 1 < j {
        MinSizeMonotone(i + 1, j);
      }
    } else if j < i {
      if j + 1 < i {
        MinSizeMonotone(j + 1, i);
      }
    }
  }

  lemma BinMonotone(s: nat, t: nat)
    requires MIN_LARGE_SIZE <= s <= t
    ensures BinOfSize(s) <= BinOfSize(t)
  {
    BinRange(s);
    BinRange(t);
    var i, j := BinOfSize(s), BinOfSize(t);
    if j < i && j + 1 < i {
      MinSizeMonotone(j + 1, i);
    }
  }

  // Every chunk of a later bin is larger than every chunk of an earlier one.
  lemma LaterBinIsLarger(s: nat, t: nat)
    requires s >= MIN_LARGE_SIZE && t >= MIN_LARGE_SIZE
    requires BinOfSize(s) < BinOfSize(t)
    ensures s < t
  {
    if t <= s {
      BinMonotone(t, s);
    }
  }

  // A single-bit mask applied to an unsigned word.
  function MaskBit(v: nat, bit: nat): nat
    requires bit > 0
  {
    (v / bit) % 2 * bit
  }

  // One step of the branch-free search: the shift that moves y up when it is below the bound.
  function ShiftBelow(y: nat, bound: nat, shift: nat): nat
    requires shift > 0
  {
    MaskBit((y - bound) % TWO32 / 0x1_0000, shift)
  }

  // The portable form of the floor-log2 of a 16-bit value, with 32-bit wrap-around written out.
  function BranchFreeLog2(x: nat): int {
    var n0 := ShiftBelow(x, 0x100, 8);
    var y1 := x * Pow2(n0);
    var k1 := ShiftBelow(y1, 0x1000, 4);
    var y2 := y1 * Pow2(k1);
    var k2 := ShiftBelow(y2, 0x4000, 2);
    var y3 := y2 * Pow2(k2);
    14 - (n0 + k1 + k2) + y3 / 0x8000
  }

  // The portable form of compute_tree_index.
  function ComputeTreeIndex(s: nat): int {
    var x := s / 256;
    if x == 0 then 0
    else if x > 0xFFFF then NTREEBINS - 1
    else
      var k := BranchFreeLog2(x);
      if k < 0 then k else 2 * k + SizeBit(s, k)
  }

  lemma ShiftBelowValue(y: nat, bound: nat, shift: nat)
    requires y < 0x1_0000 && 0 < bound < 0x1_0000
    requires shift == 8 || shift == 4 || shift == 2
    ensures ShiftBelow(y, bound, shift) == if y < bound then shift else 0
  {
    if y < bound {
      assert (y - bound) % TWO32 == TWO32 + y - bound;
      assert (TWO32 + y - bound) / 0x1_0000 == 0xFFFF;
    } else {
      assert (y - bound) % TWO32 == y - bound;
    }
  }

  lemma SmallPowers()
    ensures Pow2(0) == 1 && Pow2(2) == 4 && Pow2(4) == 16 && Pow2(8) == 256
  {
    assert Pow2(2) == 4;
    Pow2Values();
  }

  lemma ShiftStep(y: nat, bound: nat, shift: nat)
    requires y < 0x1_0000 && 0 < bound < 0x1_0000
    requires shift == 8 || shift == 4 || shift == 2
    ensures ShiftBelow(y, bound, shift) == if y < bound then shift else 0
    ensures y * Pow2(ShiftBelow(y, bound, shift)) ==
            if y >= bound then y else if shift == 8 then 256 * y else if shift == 4 then 16 * y else 4 * y
  {
    ShiftBelowValue(y, bound, shift);
    SmallPowers();
  }

  lemma BranchFreeIsFloorLog2(x: nat)
    requires 0 < x < 0x1_0000
    ensures BranchFreeLog2(x) == FloorLog2(x)
  {
    ShiftStep(x, 0x100, 8);
    var n0 := ShiftBelow(x, 0x100, 8);
    var y1 := x * Pow2(n0);
    ShiftStep(y1, 0x1000, 4);
    var k1 := ShiftBelow(y1, 0x1000, 4);
    var y2 := y1 * Pow2(k1);
    ShiftStep(y2, 0x4000, 2);
    var k2 := ShiftBelow(y2, 0x4000, 2);
    var y3 := y2 * Pow2(k2);
    ShiftTwice(x, n0, k1);
    ShiftTwice(x, n0 + k1, k2);
    NormalizedLog2(x, n0 + k1 + k2, y3);
  }

  lemma ShiftTwice(x: nat, j: nat, k: nat)
    ensures x * Pow2(j) * Pow2(k) == x * Pow2(j + k)
  {
    Pow2Sum(j, k);
    MulAssoc(x, Pow2(j), Pow2(k));
  }

  // When n places bring x up to the range of 15 or 16 bits, those places tell its logarithm.
  lemma NormalizedLog2(x: nat, n: nat, y: nat)
    requires x > 0 && n <= 14
    requires y == x * Pow2(n) && 0x4000 <= y < 0x1_0000
    ensures FloorLog2(x) == 14 - n + y / 0x8000
  {
    FifteenBits();
    if y < 0x8000 {
      ScaledLog2(x, n, 14 - n, y);
    } else {
      ScaledLog2(x, n, 15 - n, y);
    }
  }

  lemma ScaledLog2(x: nat, n: nat, k: nat, y: nat)
    requires x > 0 && y == x * Pow2(n) && Pow2(k + n) <= y < Pow2(k + n + 1)
    ensures FloorLog2(x) == k
  {
    Pow2Sum(k, n);
    Pow2Sum(k + 1, n);
    CancelLess(x, Pow2(k + 1), Pow2(n));
    if x < Pow2(k) {
      ProductLess(x, Pow2(k), Pow2(n));
    }
    Log2Unique(x, k);
  }

  lemma ProductLess(a: int, b: int, m: nat)
    requires a < b && m > 0
    ensures a * m < b * m
  {
  }

  lemma MulAssoc(a: nat, b: nat, c: nat)
    ensures a * b * c == a * (b * c)
  {
  }

  lemma FifteenBits()
    ensures Pow2(14) == 0x4000 && Pow2(15) == 0x8000 && Pow2(16) == 0x1_0000
  {
    Pow2Values();
    assert Pow2(16) == 2 * Pow2(15);
    assert Pow2(15) == 2 * Pow2(14);
  }

  lemma {:induction false} Pow2Sum(j: nat, k: nat)
    ensures Pow2(j + k) == Pow2(j) * Pow2(k)
  {
    if k > 0 {
      Pow2Sum(j, k - 1);
      assert Pow2(j + k) == 2 * Pow2(j + k - 1);
      assert Pow2(j) * Pow2(k) == Pow2(j) * (2 * Pow2(k - 1));
    }
  }

  lemma Log2Unique(x: nat, k: nat)
    requires x > 0 && Pow2(k) <= x < Pow2(k + 1)
    ensures FloorLog2(x) == k
  {
    FloorLog2Bounds(x);
    var j := FloorLog2(x);
    if j < k {
      Pow2Monotone(j + 1, k);
    } else if k < j {
      Pow2Monotone(k + 1, j);
    }
  }

  // The branch-free form agrees with the definition by floor-log2 on every size.
  lemma ComputeTreeIndexCorrect(s: nat)
    ensures ComputeTreeIndex(s) == BinOfSize(s)
  {
    var x := s / 256;
    if 0 < x <= 0xFFFF {
      BranchFreeIsFloorLog2(x);
    }
  }
}
