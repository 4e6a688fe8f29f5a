// The two 32-bit bin maps: marking and clearing the bit of a bin, and finding
// the first non-empty bin to the left of another with word operations only.
module BinMap {

  function Twice(x: bv32): bv32 {
    x + x
  }

  // idx2bit: one doubled i times
  function Bit(i: nat): bv32 {
    if i == 0 then 1 else Twice(Bit(i - 1))
  }

  lemma {:induction false} BitIsShift(i: nat)
    requires i < 32
    ensures Bit(i) == (1 as bv32) << i
  {
    if i > 0 {
      BitIsShift(i - 1);
      ShiftOnce(i - 1);
    }
  }

  lemma ShiftOnce(i: nat)
    requires i < 31
    ensures Twice((1 as bv32) << i) == (1 as bv32) << (i + 1)
  {
    AmountNext(i);
    ShiftOnceWord(i as bv6);
  }

  // The shift amounts of the lemma above, as words.
  lemma AmountNext(i: nat)
    requires i < 31
    ensures i as bv6 < 31 && (i as bv6) + 1 == (i + 1) as bv6
  {
  }

  lemma ShiftOnceWord(k: bv6)
    requires k < 31
    ensures Twice((1 as bv32) << k) == (1 as bv32) << (k + 1)
  {
  }

  predicate Has(m: bv32, b: bv32) {
    And(m, b) != 0
  }

  predicate Apart(x: bv32, y: bv32) {
    And(x, y) == 0
  }

  function Or(m: bv32, b: bv32): bv32 {
    m | b
  }

  function AndNot(m: bv32, b: bv32): bv32 {
    m & !b
  }

  function And(m: bv32, b: bv32): bv32 {
    m & b
  }

  predicate Marked(m: bv32, i: nat)
    requires i < 32
  {
    Has(m, Bit(i))
  }

  function Mark(m: bv32, i: nat): bv32
    requires i < 32
  {
    Or(m, Bit(i))
  }

  function Clear(m: bv32, i: nat): bv32
    requires i < 32
  {
    AndNot(m, Bit(i))
  }

  lemma {:induction false} BitIsOdd(i: nat)
    ensures i > 0 ==> Apart(1, Bit(i)) && Apart(Bit(i), 1)
  {
    if i > 0 {
      TwiceIsEven(Bit(i - 1));
    }
  }

  lemma TwiceIsEven(x: bv32)
    ensures Apart(1, Twice(x)) && Apart(Twice(x), 1)
  {
  }

  lemma {:induction false} BitsDisjoint(i: nat, j: nat)
    requires i != j
    ensures Apart(Bit(i), Bit(j))
  {
    if i > 0 && j > 0 {
      BitsDisjoint(i - 1, j - 1);
      ShiftApart(Bit(i - 1), Bit(j - 1));
    } else if i == 0 {
      BitIsOdd(j);
    } else {
      BitIsOdd(i);
    }
  }

  lemma ShiftApart(x: bv32, y: bv32)
    requires Apart(x, y)
    ensures Apart(Twice(x), Twice(y))
  {
  }

  lemma BitNonZero(i: nat)
    requires i < 32
    ensures Bit(i) != 0
  {
    BitIsShift(i);
    ShiftNonZero(i);
  }

  lemma ShiftNonZero(i: nat)
    requires i < 32
    ensures (1 as bv32) << i != 0
  {
  }

  lemma OrAndWord(m: bv32, x: bv32, y: bv32)
    requires And(x, y) == 0
    ensures And(Or(m, x), y) == And(m, y)
  {
  }

  lemma AndNotAndWord(m: bv32, x: bv32, y: bv32)
    requires And(x, y) == 0
    ensures And(AndNot(m, x), y) == And(m, y)
  {
  }

  lemma OrHas(m: bv32, x: bv32, y: bv32)
    requires Apart(x, y)
    ensures Has(Or(m, x), y) == Has(m, y)
  {
    OrAndWord(m, x, y);
  }

  lemma AndNotHas(m: bv32, x: bv32, y: bv32)
    requires Apart(x, y)
    ensures Has(AndNot(m, x), y) == Has(m, y)
  {
    AndNotAndWord(m, x, y);
  }

  lemma WordItself(m: bv32, x: bv32)
    requires x != 0
    ensures Has(Or(m, x), x) && !Has(AndNot(m, x), x)
  {
  }

  // Marking and clearing change the one bit and no other.
  lemma MarkOther(m: bv32, i: nat, j: nat)
    requires i != j && i < 32 && j < 32
    ensures Marked(Mark(m, i), j) == Marked(m, j)
  {
    BitsDisjoint(i, j);
    OrHas(m, Bit(i), Bit(j));
  }

  lemma ClearOther(m: bv32, i: nat, j: nat)
    requires i != j && i < 32 && j < 32
    ensures Marked(Clear(m, i), j) == Marked(m, j)
  {
    BitsDisjoint(i, j);
    AndNotHas(m, Bit(i), Bit(j));
  }

  lemma MarkItself(m: bv32, i: nat)
    requires i < 32
    ensures Marked(Mark(m, i), i) && !Marked(Clear(m, i), i)
  {
    BitNonZero(i);
    WordItself(m, Bit(i));
  }

  // left_bits: every bit to the left of the least bit of x
  function LeftBits(x: bv32): bv32 {
    (x << 1) | (0 - (x << 1))
  }

  lemma LeftBitsOfBit(i: nat, j: nat)
    requires i < 32 && j < 32
    ensures And(LeftBits(Bit(i)), Bit(j)) == if i < j then Bit(j) else 0
  {
    BitIsShift(i);
    BitIsShift(j);
    LeftBitsOfShift(i, j);
  }

  lemma LeftBitsOfShift(i: nat, j: nat)
    requires i < 32 && j < 32
    ensures And(LeftBits((1 as bv32) << i), (1 as bv32) << j) == if i < j then (1 as bv32) << j else 0
  {
  }

  lemma MaskedWord(l: bv32, m: bv32, y: bv32)
    ensures And(And(l, m), y) == And(m, And(l, y))
  {
  }

  lemma AndZero(m: bv32)
    ensures And(m, 0) == 0
  {
  }

  lemma LeftOf(m: bv32, i: nat, j: nat)
    requires i < 32 && j < 32
    ensures Marked(And(LeftBits(Bit(i)), m), j) <==> i < j && Marked(m, j)
  {
    LeftBitsOfBit(i, j);
    MaskedWord(LeftBits(Bit(i)), m, Bit(j));
    AndZero(m);
  }

  // least_bit: the lowest bit of x alone
  function LeastBit(x: bv32): bv32 {
    x & (0 - x)
  }

  function Below(b: bv32): bv32 {
    b - 1
  }

  predicate Single(b: bv32) {
    Apart(b, Below(b)) && b != 0
  }

  lemma LeastWord(x: bv32, b: bv32)
    requires Single(b) && Has(x, b) && Apart(x, Below(b))
    ensures LeastBit(x) == b
  {
  }

  lemma SingleBitDoubled(b: bv32)
    requires Single(b) && Twice(b) != 0
    ensures Single(Twice(b)) && Below(Twice(b)) == Or(Below(b), b)
  {
  }

  lemma {:induction false} SingleBit(i: nat)
    requires i < 32
    ensures Single(Bit(i))
    ensures i > 0 ==> Below(Bit(i)) == Or(Below(Bit(i - 1)), Bit(i - 1))
  {
    if i > 0 {
      SingleBit(i - 1);
      BitNonZero(i);
      SingleBitDoubled(Bit(i - 1));
    }
  }

  lemma {:induction false} NothingBelow(x: bv32, j: nat)
    requires j < 32
    requires forall k: nat :: k < j ==> !Marked(x, k)
    ensures Apart(x, Below(Bit(j)))
  {
    SingleBit(j);
    if j > 0 {
      NothingBelow(x, j - 1);
      assert !Marked(x, j - 1);
      UnionOfZero(x, Below(Bit(j - 1)), Bit(j - 1));
    } else {
      NothingBelowOne(x);
    }
  }

  lemma NothingBelowOne(x: bv32)
    ensures Apart(x, Below(1))
  {
  }

  lemma UnionOfZero(x: bv32, a: bv32, b: bv32)
    requires Apart(x, a) && !Has(x, b)
    ensures Apart(x, Or(a, b))
  {
  }

  lemma LeastOfMarked(x: bv32, j: nat)
    requires j < 32 && Marked(x, j)
    requires forall k: nat :: k < j ==> !Marked(x, k)
    ensures LeastBit(x) == Bit(j)
  {
    NothingBelow(x, j);
    SingleBit(j);
    LeastWord(x, Bit(j));
  }

  // compute_bit2idx, the portable form
  function Bit2Idx(x: bv32): bv32 {
    var y0 := x - 1;
    var k0 := (y0 >> 12) & 16;
    var y1 := y0 >> k0;
    var k1 := (y1 >> 5) & 8;
    var y2 := y1 >> k1;
    var k2 := (y2 >> 2) & 4;
    var y3 := y2 >> k2;
    var k3 := (y3 >> 1) & 2;
    var y4 := y3 >> k3;
    var k4 := y4 & 1;
    var y5 := y4 >> k4;
    k0 + k1 + k2 + k3 + k4 + y5
  }

  lemma Bit2IdxOfBit(i: nat)
    requires i < 32
    ensures Bit2Idx(Bit(i)) as nat == i
  {
    BitIsShift(i);
    Bit2IdxOfShift(i);
  }

  lemma Bit2IdxOfShift(i: nat)
    requires i < 32
    ensures Bit2Idx((1 as bv32) << i) as nat == i
  {
  }

  // The first marked bin from a given index on, or 32.
  function Lowest(x: bv32, from: nat): (j: nat)
    requires from <= 32
    ensures from <= j <= 32 && (j < 32 ==> Marked(x, j))
    ensures forall k: nat :: from <= k < j ==> !Marked(x, k)
    decreases 32 - from
  {
    if from == 32 || Marked(x, from) then from else Lowest(x, from + 1)
  }

  lemma NonZeroHasBit(x: bv32)
    requires x != 0
    ensures Lowest(x, 0) < 32
  {
    if Lowest(x, 0) == 32 {
      NothingBelow(x, 31);
      assert !Marked(x, 31);
      HighestBit();
      AllBits(x, Bit(31));
    }
  }

  lemma AllBits(x: bv32, b: bv32)
    requires b == 0x8000_0000
    requires Apart(x, Below(b)) && !Has(x, b)
    ensures x == 0
  {
    assert Below(b) == 0x7FFF_FFFF;
  }

  lemma HighestBit()
    ensures Bit(31) == 0x8000_0000
  {
    FourDoublings(0);
    FourDoublings(4);
    FourDoublings(8);
    FourDoublings(12);
    FourDoublings(16);
    FourDoublings(20);
    FourDoublings(24);
    assert Bit(29) == Twice(Bit(28));
    assert Bit(30) == Twice(Bit(29));
  }

  lemma FourDoublings(i: nat)
    ensures Bit(i + 4) == Twice(Twice(Twice(Twice(Bit(i)))))
  {
    assert Bit(i + 1) == Twice(Bit(i));
    assert Bit(i + 2) == Twice(Bit(i + 1));
    assert Bit(i + 3) == Twice(Bit(i + 2));
    assert Bit(i + 4) == Twice(Bit(i + 3));
  }

  // The index that least_bit and compute_bit2idx find.
  function FirstIndex(x: bv32): nat {
    Bit2Idx(LeastBit(x)) as nat
  }

  lemma FirstIndexIsLowest(x: bv32)
    requires x != 0
    ensures FirstIndex(x) < 32 && Marked(x, FirstIndex(x))
    ensures forall k: nat :: k < FirstIndex(x) ==> !Marked(x, k)
  {
    NonZeroHasBit(x);
    var j := Lowest(x, 0);
    LeastOfMarked(x, j);
    Bit2IdxOfBit(j);
  }

  lemma ZeroHasNoBit(i: nat)
    requires i < 32
    ensures !Marked(0, i)
  {
  }

  // What marking and clearing one bin does to every bin.
  lemma MarkAll(m: bv32, i: nat)
    requires i < 32
    ensures forall j: nat :: j < 32 ==> (Marked(Mark(m, i), j) <==> i == j || Marked(m, j))
  {
    forall j: nat | j < 32 ensures Marked(Mark(m, i), j) <==> i == j || Marked(m, j) {
      if i == j {
        MarkItself(m, i);
      } else {
        MarkOther(m, i, j);
      }
    }
  }

  lemma ClearAll(m: bv32, i: nat)
    requires i < 32
    ensures forall j: nat :: j < 32 ==> (Marked(Clear(m, i), j) <==> i != j && Marked(m, j))
  {
    forall j: nat | j < 32 ensures Marked(Clear(m, i), j) <==> i != j && Marked(m, j) {
      if i == j {
        MarkItself(m, i);
      } else {
        ClearOther(m, i, j);
      }
    }
  }

  // The bins to the left of i: none is marked, or the first one found by the word operations is the nearest.
  function LeftMap(m: bv32, i: nat): bv32 {
    And(LeftBits(Bit(i)), m)
  }

  lemma NextLeft(m: bv32, i: nat)
    requires i < 32
    ensures LeftMap(m, i) == 0 ==> forall j: nat :: i < j < 32 ==> !Marked(m, j)
    ensures LeftMap(m, i) != 0 ==>
              var f := FirstIndex(LeftMap(m, i));
              i < f < 32 && Marked(m, f) && forall j: nat :: i < j < f ==> !Marked(m, j)
  {
    var x := LeftMap(m, i);
    forall j: nat | j < 32 ensures Marked(x, j) <==> i < j && Marked(m, j) {
      LeftOf(m, i, j);
    }
    if x == 0 {
      forall j: nat | i < j < 32 ensures !Marked(m, j) {
        ZeroHasNoBit(j);
      }
    } else {
      FirstIndexIsLowest(x);
    }
  }

  // The small-bin map shifted to start at bin i, as the malloc path reads it.
  function ShiftRight(m: bv32, i: nat): bv32
    requires i < 32
  {
    m >> i
  }

  function ShiftBack(m: bv32, i: nat): bv32
    requires i < 32
  {
    m << i
  }

  // ~smallbits & 1: one if the first bin of a shifted map is empty.
  function Step(x: bv32): nat {
    (!x & 1) as nat
  }

  predicate NextTwo(x: bv32) {
    x & 3 != 0
  }

  function LowBit(x: bv32): bv32 {
    x & 1
  }

  function SecondBit(x: bv32): bv32 {
    x & 2
  }

  lemma BitDown(m: bv32, i: nat)
    requires i < 32
    ensures And(m, (1 as bv32) << i) >> i == LowBit(m >> i)
  {
  }

  lemma BitUp(m: bv32, i: nat)
    requires i < 32
    ensures LowBit(m >> i) << i == And(m, (1 as bv32) << i)
  {
  }

  lemma NextBitDown(m: bv32, i: nat)
    requires i < 31
    ensures And(m, (1 as bv32) << (i + 1)) >> i == SecondBit(m >> i)
  {
  }

  lemma OneBit(m: bv32, i: nat)
    requires i < 32
    ensures And(m, (1 as bv32) << i) == 0 || And(m, (1 as bv32) << i) == (1 as bv32) << i
  {
  }

  lemma NextShifted(i: nat)
    requires i < 31
    ensures ((1 as bv32) << (i + 1)) >> i != 0
  {
  }

  lemma ZeroUp(i: nat)
    requires i < 32
    ensures (0 as bv32) << i == 0
  {
  }

  lemma ZeroDown(i: nat)
    requires i < 32
    ensures (0 as bv32) >> i == 0
  {
  }

  lemma ShiftedOne(m: bv32, i: nat)
    requires i < 32
    ensures LowBit(m >> i) == 0 <==> And(m, (1 as bv32) << i) == 0
  {
    hide LowBit, And;
    BitDown(m, i);
    BitUp(m, i);
    ZeroUp(i);
    ZeroDown(i);
  }

  lemma ShiftedTwo(m: bv32, i: nat)
    requires i < 31
    ensures SecondBit(m >> i) == 0 <==> And(m, (1 as bv32) << (i + 1)) == 0
  {
    hide SecondBit, And;
    NextBitDown(m, i);
    OneBit(m, i + 1);
    NextShifted(i);
    ZeroDown(i);
  }

  lemma ShiftedLast(m: bv32)
    ensures SecondBit(m >> 31) == 0
  {
  }

  lemma TwoBits(x: bv32)
    ensures NextTwo(x) <==> LowBit(x) != 0 || SecondBit(x) != 0
    ensures Step(x) == if LowBit(x) != 0 then 0 else 1
  {
  }

  lemma MarkedIsAnd(m: bv32, i: nat)
    requires i < 32
    ensures Marked(m, i) <==> And(m, (1 as bv32) << i) != 0
  {
    hide And;
    BitIsShift(i);
  }

  // The lowest two bits of the shifted map are the marks of bins i and i + 1.
  lemma LowMark(m: bv32, i: nat)
    requires i < 32
    ensures LowBit(ShiftRight(m, i)) == 0 <==> !Marked(m, i)
  {
    hide LowBit, And, Marked;
    MarkedIsAnd(m, i);
    ShiftedOne(m, i);
  }

  lemma NextMark(m: bv32, i: nat)
    requires i < 32
    ensures SecondBit(ShiftRight(m, i)) == 0 <==> i == 31 || !Marked(m, i + 1)
  {
    hide SecondBit, And, Marked;
    if i < 31 {
      MarkedIsAnd(m, i + 1);
      ShiftedTwo(m, i);
    } else {
      ShiftedLast(m);
    }
  }

  // The test for a remainderless fit looks at bins i and i + 1, and picks the first that is not empty.
  lemma NextTwoBins(m: bv32, i: nat)
    requires i < 32
    ensures NextTwo(ShiftRight(m, i)) <==> Marked(m, i) || (i < 31 && Marked(m, i + 1))
    ensures NextTwo(ShiftRight(m, i)) ==> i + Step(ShiftRight(m, i)) < 32 && Marked(m, i + Step(ShiftRight(m, i)))
    ensures Step(ShiftRight(m, i)) == 0 || !Marked(m, i)
  {
    hide NextTwo, Step, ShiftRight, Marked, LowBit, SecondBit;
    TwoBits(ShiftRight(m, i));
    LowMark(m, i);
    NextMark(m, i);
  }

  function One(i: nat): bv32
    requires i < 32
  {
    (1 as bv32) << i
  }

  lemma BitIsOne(i: nat)
    requires i < 32
    ensures Bit(i) == One(i)
  {
    BitIsShift(i);
  }

  lemma ShiftPairWord(m: bv32, k: bv6)
    requires k < 32
    ensures And((m >> k) << k, LeftBits((1 as bv32) << k)) == And(LeftBits((1 as bv32) << k), m)
  {
  }

  lemma ShiftPair(m: bv32, i: nat)
    requires i < 32
    ensures And(ShiftBack(ShiftRight(m, i), i), LeftBits(One(i))) == And(LeftBits(One(i)), m)
  {
    var k := i as bv6;
    assert k < 32;
    ShiftPairWord(m, k);
  }

  // What is left of the map shifted back, without bin i and those before: the bins after i.
  lemma LeftOfShifted(m: bv32, i: nat)
    requires i < 32
    ensures And(ShiftBack(ShiftRight(m, i), i), LeftBits(Bit(i))) == LeftMap(m, i)
  {
    hide And, LeftBits, ShiftBack, ShiftRight, One, Bit;
    BitIsOne(i);
    ShiftPair(m, i);
  }

  lemma ShiftedNonZero(m: bv32, i: nat)
    requires i < 32
    ensures m >> i != 0 && LowBit(m >> i) == 0 ==> And(LeftBits((1 as bv32) << i), m) != 0
  {
  }

  // When a bin after i is in use, the shifted map is not zero, and conversely if bin i is not.
  lemma LaterBins(m: bv32, i: nat)
    requires i < 32 && ShiftRight(m, i) != 0 && !Marked(m, i)
    ensures LeftMap(m, i) != 0
  {
    hide And, LeftBits, Marked, LowBit, SecondBit;
    LowMark(m, i);
    BitIsShift(i);
    ShiftedNonZero(m, i);
  }

  lemma ZeroShiftedNone(m: bv32, i: nat)
    requires i < 32
    ensures m >> i == 0 ==> And(LeftBits((1 as bv32) << i), m) == 0
  {
  }

  lemma LowBitOfZero()
    ensures LowBit(0) == 0
  {
  }

  // A shifted map of zero: no bin from i on is in use.
  lemma NoBinFrom(m: bv32, i: nat)
    requires i < 32 && ShiftRight(m, i) == 0
    ensures forall j: nat :: i <= j < 32 ==> !Marked(m, j)
  {
    hide And, LeftBits, Marked, LowBit;
    LowMark(m, i);
    LowBitOfZero();
    BitIsShift(i);
    ZeroShiftedNone(m, i);
    NextLeft(m, i);
  }
}
