// The bit arithmetic of memalign: the power-of-two test, rounding an
// alignment up to a power of two by doubling, and rounding an address up by
// a mask.
module Alignment {
  import opened TreeIndex

  // Bitwise and of two words, bit by bit.
  function BitAnd(a: nat, b: nat): nat {
    if a == 0 || b == 0 then 0 else a % 2 * (b % 2) + 2 * BitAnd(a / 2, b / 2)
  }

  ghost predicate IsPow2(n: nat) {
    exists k: nat :: n == Pow2(k)
  }

  lemma {:induction false} AndSelf(a: nat)
    ensures BitAnd(a, a) == a
  {
    if a > 0 {
      AndSelf(a / 2);
    }
  }

  lemma IsPow2Half(n: nat)
    requires n > 0 && n % 2 == 0
    ensures IsPow2(n) <==> IsPow2(n / 2)
  {
    if IsPow2(n) {
      var k: nat :| n == Pow2(k);
      assert n / 2 == Pow2(k - 1);
    }
    if IsPow2(n / 2) {
      var k: nat :| n / 2 == Pow2(k);
      assert n == Pow2(k + 1);
    }
  }

  // The test (a & (a - 1)) != 0 of memalign finds exactly the numbers that are no powers of two.
  lemma {:induction false} PowerTest(a: nat)
    requires a > 0
    ensures BitAnd(a, a - 1) == 0 <==> IsPow2(a)
  {
    if a == 1 {
      assert 1 == Pow2(0);
    } else if a % 2 == 0 {
      PowerTest(a / 2);
      IsPow2Half(a);
      assert (a - 1) / 2 == a / 2 - 1 && a % 2 == 0;
    } else {
      AndSelf(a / 2);
      assert (a - 1) / 2 == a / 2 && BitAnd(a, a - 1) == 2 * BitAnd(a / 2, a / 2);
      OddPower(a);
    }
  }

  lemma OddPower(a: nat)
    requires a > 1 && a % 2 == 1
    ensures !IsPow2(a)
  {
    if IsPow2(a) {
      var k: nat :| a == Pow2(k);
      assert k > 0 && Pow2(k) == 2 * Pow2(k - 1);
      assert false;
    }
  }

  // What memalign has after k doublings of the least alignment it tries, in 64-bit words.
  function Doubled(k: nat): nat {
    Pow2(k + 4) % TWO64
  }

  lemma Pow2At64()
    ensures Pow2(64) == TWO64 && Pow2(63) == TWO64 / 2
  {
    Pow2Values();
    assert Pow2(28) == 16 * Pow2(24);
    assert Pow2(32) == 16 * Pow2(28);
    assert Pow2(36) == 16 * Pow2(32);
    assert Pow2(40) == 16 * Pow2(36);
    assert Pow2(44) == 16 * Pow2(40);
    assert Pow2(48) == 16 * Pow2(44);
    assert Pow2(52) == 16 * Pow2(48);
    assert Pow2(56) == 16 * Pow2(52);
    assert Pow2(60) == 16 * Pow2(56);
    assert Pow2(63) == 8 * Pow2(60);
    assert Pow2(64) == 2 * Pow2(63);
  }

  lemma {:induction false} HighPowers(k: nat)
    requires k >= 64
    ensures Pow2(k) % TWO64 == 0
  {
    if k == 64 {
      Pow2At64();
    } else {
      HighPowers(k - 1);
      var q := Pow2(k - 1) / TWO64;
      assert Pow2(k - 1) == q * TWO64;
      assert Pow2(k) == 2 * q * TWO64;
    }
  }

  // The loop ends exactly for alignments up to 2 to the 63: beyond, the doubled word is lost before it is large enough.
  lemma RoundingEnds(alignment: nat)
    requires alignment < TWO64
    ensures (exists k: nat :: Doubled(k) >= alignment) <==> alignment <= TWO64 / 2
  {
    Pow2At64();
    if alignment <= TWO64 / 2 {
      assert Doubled(59) >= alignment;
    } else {
      forall k: nat ensures Doubled(k) < alignment {
        if k + 4 >= 64 {
          HighPowers(k + 4);
        } else {
          Pow2Monotone(k + 4, 63);
        }
      }
    }
  }

  // The alignment that memalign uses: the least power of two that is no less than was asked for and than a chunk.
  ghost predicate Rounded(alignment: nat, k: nat) {
    && alignment <= Pow2(k) && 32 <= Pow2(k)
    && forall j: nat :: alignment <= Pow2(j) && 32 <= Pow2(j) ==> Pow2(k) <= Pow2(j)
  }

  lemma RoundedOnce(alignment: nat, k: nat, j: nat)
    requires Rounded(alignment, k) && Rounded(alignment, j)
    ensures Pow2(k) == Pow2(j)
  {
  }

  // An alignment that is no power of two gives way to the next one that is, by doubling 16.
  method DoubleUp(alignment: nat) returns (a: nat, ghost k: nat)
    requires 32 <= alignment <= TWO64 / 2
    ensures a == Pow2(k) && 0 < k <= 63 && alignment <= a && Pow2(k - 1) < alignment
  {
    Pow2At64();
    k := 4;
    a := 16;
    assert Pow2(4) == 16 && Pow2(3) == 8;
    while a < alignment
      invariant a == Pow2(k) && 4 <= k <= 63 && Pow2(k - 1) < alignment
      decreases 63 - k
    {
      assert k < 63;
      Pow2Monotone(k + 1, 63);
      a := a * 2 % TWO64;
      k := k + 1;
    }
  }

  lemma LeastPower(alignment: nat, k: nat)
    requires 32 <= alignment <= Pow2(k) && k > 0 && Pow2(k - 1) < alignment
    ensures k >= 5 && forall j: nat :: alignment <= Pow2(j) ==> Pow2(k) <= Pow2(j)
  {
    assert Pow2(4) == 16;
    if k < 5 {
      Pow2Monotone(k, 4);
    }
    forall j: nat | alignment <= Pow2(j) ensures Pow2(k) <= Pow2(j) {
      if j < k {
        Pow2Monotone(j, k - 1);
      } else {
        Pow2Monotone(k, j);
      }
    }
  }

  method RoundAlignment(alignment0: nat) returns (a: nat, ghost k: nat)
    requires 8 < alignment0 <= TWO64 / 2
    ensures a == Pow2(k) && 5 <= k <= 63 && a >= 32 && Rounded(alignment0, k)
  {
    var alignment := if alignment0 < 32 then 32 else alignment0;
    PowerTest(alignment);
    if BitAnd(alignment, alignment - 1) != 0 {
      a, k := DoubleUp(alignment);
    } else {
      a := alignment;
      k := Exponent(alignment);
    }
    LeastPower(alignment, k);
  }

  lemma Exponent(a: nat) returns (k: nat)
    requires IsPow2(a) && 32 <= a <= TWO64 / 2
    ensures a == Pow2(k) && 0 < k <= 63 && Pow2(k - 1) < a
  {
    Pow2At64();
    k :| a == Pow2(k);
    if k > 63 {
      Pow2Monotone(64, k);
    }
  }

  lemma {:induction false} AndOnes(x: nat, w: nat)
    requires x < Pow2(w)
    ensures BitAnd(x, Pow2(w) - 1) == x
  {
    if w > 0 && x > 0 {
      AndOnes(x / 2, w - 1);
      assert (Pow2(w) - 1) / 2 == Pow2(w - 1) - 1 && (Pow2(w) - 1) % 2 == 1;
    }
  }

  // x & -a for a power of two a, in words of w bits, rounds x down to a multiple of a.
  lemma {:induction false} MaskDown(x: nat, w: nat, k: nat)
    requires x < Pow2(w) && k <= w
    ensures Pow2(k) <= Pow2(w) && BitAnd(x, Pow2(w) - Pow2(k)) == Floor(x, Pow2(k))
  {
    Pow2Monotone(k, w);
    if k == 0 {
      AndOnes(x, w);
    } else {
      MaskDown(x / 2, w - 1, k - 1);
      hide Floor;
      AndEven(x, Pow2(w - 1) - Pow2(k - 1));
      FloorHalf(x, Pow2(k - 1));
    }
  }

  // The greatest multiple of m up to x.
  function Floor(x: nat, m: nat): int
    requires m > 0
  {
    x - x % m
  }

  lemma AndEven(x: nat, y: nat)
    ensures BitAnd(x, 2 * y) == 2 * BitAnd(x / 2, y)
  {
    if x > 0 && y > 0 {
      assert 2 * y / 2 == y && 2 * y % 2 == 0;
    }
  }

  lemma FloorHalf(x: nat, m: nat)
    requires m > 0
    ensures Floor(x, 2 * m) == 2 * Floor(x / 2, m)
  {
    var q, r := x / 2 / m, x / 2 % m;
    assert x / 2 == q * m + r;
    MulAssoc(2, q, m);
    MulAssoc(q, 2, m);
    assert x == q * (2 * m) + (2 * r + x % 2);
    ModUnique(x, 2 * m, q, 2 * r + x % 2);
  }

  lemma ModUnique(x: nat, m: nat, q: nat, r: nat)
    requires m > 0 && x == q * m + r && r < m
    ensures x % m == r
  {
    var q2, r2 := x / m, x % m;
    DivMod(x, m);
    MulDifference(q2, q, m);
    assert (q2 - q) * m == r - r2;
    if q2 > q {
      CancelLess(q2 - q, 1, m);
    } else if q2 < q {
      CancelLess(-1, q2 - q, m);
    }
  }

  lemma DivMod(x: nat, m: nat)
    requires m > 0
    ensures x == x / m * m + x % m && 0 <= x % m < m
  {
  }

  // Rounding an address up to the next multiple of a power of two.
  lemma MaskUp(x: nat, k: nat)
    requires k <= 63 && x + Pow2(k) <= TWO64
    ensures TWO64 > Pow2(k)
    ensures var y := BitAnd(x + Pow2(k) - 1, TWO64 - Pow2(k)); x <= y < x + Pow2(k) && y % Pow2(k) == 0
  {
    Pow2At64();
    Pow2Monotone(k, 63);
    var z, m := x + Pow2(k) - 1, Pow2(k);
    MaskDown(z, 64, k);
    hide Pow2, BitAnd;
    DivMod(z, m);
    ModUnique(z - z % m, m, z / m, 0);
  }

  lemma {:induction false} MultipleOf8(k: nat, n: nat)
    requires k >= 3 && n % Pow2(k) == 0
    ensures n % 8 == 0
  {
    if k == 3 {
      assert Pow2(3) == 8;
    } else {
      var q := n / Pow2(k);
      DivMod(n, Pow2(k));
      MulAssoc(q, 2, Pow2(k - 1));
      ModUnique(n, Pow2(k - 1), q * 2, 0);
      MultipleOf8(k - 1, n);
    }
  }

  lemma {:induction false} MultipleOfLess(k: nat, j: nat, n: nat)
    requires j <= k && n % Pow2(k) == 0
    ensures n % Pow2(j) == 0
    decreases k
  {
    if j < k {
      var q := n / Pow2(k);
      DivMod(n, Pow2(k));
      MulAssoc(q, 2, Pow2(k - 1));
      ModUnique(n, Pow2(k - 1), q * 2, 0);
      MultipleOfLess(k - 1, j, n);
    }
  }

  // Different multiples are apart.
  lemma ModDistance(x: nat, y: nat, m: nat)
    requires m > 0 && y < x && x % m == 0 && y % m == 0
    ensures x >= y + m
  {
    DivMod(x, m);
    DivMod(y, m);
    MulDifference(x / m, y / m, m);
    if x / m <= y / m {
      CancelLess(y / m, x / m - 1, m);
    }
    OneMore(x / m - y / m, m);
  }

  lemma OneMore(q: int, m: nat)
    requires m > 0
    ensures if q <= 0 then q * m <= 0 else q * m >= m
  {
    assert q * m == (q - 1) * m + m;
  }

  lemma HalfPow2(k: nat, j: nat)
    requires k < j
    ensures 2 * Pow2(k) <= Pow2(j)
  {
    Pow2Monotone(k + 1, j);
  }

  // The aligned spot that memalign moves to: far enough for a chunk before it, and at most one alignment and 24 bytes
  // on.
  lemma AlignedSpot(mem: nat, k: nat, p: nat)
    requires 5 <= k <= 63 && p + 16 == mem && mem % 8 == 0 && mem % Pow2(k) != 0 && mem + Pow2(k) <= TWO64
    ensures TWO64 > Pow2(k) && Pow2(k) >= 32 && Pow2(k) % 8 == 0
    ensures var a := Pow2(k);
      var y := BitAnd(mem + a - 1, TWO64 - a);
      && y >= 16 && y - 16 > p
      && var br := y - 16;
         var pos := if br - p >= 32 then br else br + a;
         && 32 <= pos - p <= a + 24 && (pos - p) % 8 == 0 && (pos + 16) % a == 0
  {
    var a := Pow2(k);
    Pow2Monotone(5, k);
    assert Pow2(5) == 32;
    DivMod(a, a);
    MulDifference(1, 0, a);
    ModUnique(a, a, 1, 0);
    MultipleOf8(k, a);
    MaskUp(mem, k);
    var y := BitAnd(mem + a - 1, TWO64 - a);
    MultipleOf8(k, y);
    hide Pow2, BitAnd;
    NextMultiple(y, a);
    SpotDistance(mem, a, y);
  }

  lemma SpotDistance(mem: nat, a: nat, y: nat)
    requires mem < y < mem + a && mem % 8 == 0 && y % 8 == 0 && a % 8 == 0
    ensures var d := if y - mem >= 32 then y - mem else y - mem + a; d <= a + 24 && d % 8 == 0
  {
  }

  lemma NextMultiple(y: nat, a: nat)
    requires a > 0 && y % a == 0
    ensures (y + a) % a == 0
  {
    DivMod(y, a);
    MulDifference(y / a + 1, 1, a);
    ModUnique(y + a, a, y / a + 1, 0);
  }
}
