// Positions in the treebins' tries. A position is a path of left and right
// turns below the root of a bin; each turn inspects one more bit of the size,
// so a position stands for the sizes that share the bits inspected so far.
module TriePath {
  import opened TreeIndex

  datatype Path = Root(bin: nat) | Lo(up: Path) | Hi(up: Path)

  // The number of low bits in which sizes of one bin may differ: bit_for_tree_index plus one.
  function RootBits(i: nat): nat {
    if i == NTREEBINS - 1 then 64 else i / 2 + 7
  }

  function Bin(p: Path): nat {
    if p.Root? then p.bin else Bin(p.up)
  }

  function Depth(p: Path): nat {
    if p.Root? then 0 else 1 + Depth(p.up)
  }

  // Bits not yet inspected; negative past the last bit.
  function Bits(p: Path): int {
    if p.Root? then RootBits(p.bin) else Bits(p.up) - 1
  }

  function Width(p: Path): nat {
    if Bits(p) < 0 then 0 else Pow2(Bits(p))
  }

  function Base(p: Path): nat {
    match p
    case Root(i) => if i == NTREEBINS - 1 then 0 else MinSize(i)
    case Lo(u) => Base(u)
    case Hi(u) => Base(u) + Width(p)
  }

  function End(p: Path): nat {
    Base(p) + Width(p)
  }

  // The sizes that agree with the path on every bit inspected along it.
  predicate Holds(p: Path, s: nat) {
    Base(p) <= s < End(p)
  }

  // q is p or lies below it.
  predicate Extends(q: Path, p: Path) {
    q == p || (!q.Root? && Extends(q.up, p))
  }

  function Child(p: Path, right: bool): Path {
    if right then Hi(p) else Lo(p)
  }

  lemma {:induction false} BitsFromDepth(p: Path)
    ensures Bits(p) == RootBits(Bin(p)) - Depth(p)
  {
    if !p.Root? {
      BitsFromDepth(p.up);
    }
  }

  // A position that holds any size is at most RootBits below its root.
  lemma DepthBound(p: Path, s: nat)
    requires Holds(p, s)
    ensures Depth(p) <= RootBits(Bin(p))
  {
    BitsFromDepth(p);
  }

  lemma Halves(p: Path)
    ensures End(Lo(p)) <= Base(Hi(p))
    ensures Base(p) == Base(Lo(p)) && End(Hi(p)) <= End(p) && End(Lo(p)) <= End(p)
    ensures Bits(p) >= 1 ==> Width(p) == 2 * Width(Lo(p)) && End(Lo(p)) == Base(Hi(p)) && End(Hi(p)) == End(p)
  {
  }

  lemma {:induction false} ExtendsHolds(q: Path, p: Path, s: nat)
    requires Extends(q, p) && Holds(q, s)
    ensures Holds(p, s)
  {
    if q != p {
      Halves(q.up);
      ExtendsHolds(q.up, p, s);
    }
  }

  lemma {:induction false} ExtendsTransitive(r: Path, q: Path, p: Path)
    requires Extends(r, q) && Extends(q, p)
    ensures Extends(r, p)
  {
    if r != q {
      ExtendsTransitive(r.up, q, p);
    }
  }

  lemma {:induction false} ExtendsChild(q: Path, p: Path)
    requires Extends(q, p) && q != p
    ensures Extends(q, Lo(p)) || Extends(q, Hi(p))
  {
    if q.up != p {
      ExtendsChild(q.up, p);
    }
  }

  lemma {:induction false} ExtendsRoot(q: Path)
    ensures Extends(q, Root(Bin(q)))
  {
    if !q.Root? {
      ExtendsRoot(q.up);
    }
  }

  lemma {:induction false} ExtendsBin(q: Path, p: Path)
    requires Extends(q, p)
    ensures Bin(q) == Bin(p) && Depth(p) <= Depth(q) && (q != p ==> Depth(p) < Depth(q))
  {
    if q != p {
      ExtendsBin(q.up, p);
    }
  }

  // Two different sizes at one position: a bit is left to tell them apart.
  lemma BitLeft(p: Path, s: nat, t: nat)
    requires Holds(p, s) && Holds(p, t) && s != t
    ensures Bits(p) >= 1
  {
    assert Pow2(0) == 1;
  }

  predicate GoesRight(p: Path, s: nat) {
    s >= Base(p) + Width(Hi(p))
  }

  lemma ChildHolds(p: Path, s: nat)
    requires Holds(p, s) && Bits(p) >= 1
    ensures Holds(Child(p, GoesRight(p, s)), s)
    ensures !Holds(Child(p, !GoesRight(p, s)), s)
  {
    Halves(p);
  }

  lemma RootHolds(s: nat)
    requires MIN_LARGE_SIZE <= s < TWO64
    ensures BinOfSize(s) < NTREEBINS && Holds(Root(BinOfSize(s)), s)
  {
    BinRange(s);
    var i := BinOfSize(s);
    if i < NTREEBINS - 1 {
      MinSizeStep(i);
    } else {
      Pow2Of64();
    }
  }

  lemma Pow2Of64()
    ensures Pow2(64) == TWO64 && Pow2(63) * 2 == TWO64
  {
    Pow2Values();
    Pow2Sum(16, 16);
    Pow2Sum(32, 32);
    assert Pow2(64) == 2 * Pow2(63);
  }

  // How far a size is moved up at the root of a bin, so that the first bit to inspect is the top bit.
  function LeftShift(i: nat): nat
    requires i < NTREEBINS
  {
    64 - RootBits(i)
  }

  function ShiftLeft(s: nat, k: nat): nat {
    s * Pow2(k) % TWO64
  }

  function TopBit(k: nat): nat {
    k / (TWO64 / 2) % 2
  }

  // What K holds at a position: the bits of the size not yet inspected, at the top of the word.
  predicate KeyAt(p: Path, s: nat, k: nat) {
    Holds(p, s) && 0 <= Bits(p) <= 64 && k == (s - Base(p)) * Pow2(64 - Bits(p))
  }

  lemma ProductBelow(a: nat, w: nat, u: nat)
    requires a < w && u > 0
    ensures a * u < w * u
  {
    MulDifference(w, a, u);
    SignOfProduct(a - w, u);
    MulDifference(a, w, u);
  }

  lemma WidthTimesUnit(p: Path)
    requires 0 <= Bits(p) <= 64
    ensures Width(p) * Pow2(64 - Bits(p)) == TWO64
  {
    Pow2Sum(Bits(p), 64 - Bits(p));
    Pow2Of64();
  }

  lemma KeyBelow(p: Path, s: nat, k: nat)
    requires KeyAt(p, s, k)
    ensures k < TWO64
  {
    WidthTimesUnit(p);
    ProductBelow(s - Base(p), Width(p), Pow2(64 - Bits(p)));
  }

  lemma KeyTopBit(p: Path, s: nat, k: nat)
    requires KeyAt(p, s, k) && Bits(p) >= 1
    ensures TopBit(k) == if GoesRight(p, s) then 1 else 0
  {
    KeyBelow(p, s, k);
    var half := Width(Hi(p));
    var u := Pow2(64 - Bits(p));
    Pow2Sum(Bits(p) - 1, 64 - Bits(p));
    Pow2Of64();
    assert half * u == TWO64 / 2;
    MulDifference(s - Base(p), half, u);
    var d := s - Base(p) - half;
    assert k == d * u + TWO64 / 2;
    SignOfProduct(d, u);
  }

  lemma SignOfProduct(d: int, u: nat)
    requires u > 0
    ensures d * u >= 0 <==> d >= 0
  {
  }

  // The key one level down, before the shift is cut to 64 bits.
  lemma ChildKey(p: Path, s: nat, right: bool)
    requires Holds(p, s) && 1 <= Bits(p) <= 64
    ensures (s - Base(Child(p, right))) * Pow2(64 - Bits(Child(p, right))) ==
            2 * ((s - Base(p)) * Pow2(64 - Bits(p))) - if right then TWO64 else 0
  {
    var u := Pow2(64 - Bits(p));
    assert Pow2(64 - Bits(Child(p, right))) == 2 * u;
    DoubleProduct(s - Base(Child(p, right)), u);
    if right {
      MulDifference(s - Base(p), Width(Hi(p)), u);
      assert Pow2(65 - Bits(p)) == 2 * u;
      DoubleProduct(Width(Hi(p)), u);
      WidthTimesUnit(Hi(p));
    }
  }

  lemma KeyStep(p: Path, s: nat, k: nat)
    requires KeyAt(p, s, k) && Bits(p) >= 1
    ensures KeyAt(Child(p, GoesRight(p, s)), s, 2 * k % TWO64)
  {
    var right := GoesRight(p, s);
    var c := Child(p, right);
    ChildHolds(p, s);
    ChildKey(p, s, right);
    var k2 := 2 * k - if right then TWO64 else 0;
    assert k2 == (s - Base(c)) * Pow2(64 - Bits(c));
    SignOfProduct(s - Base(c), Pow2(64 - Bits(c)));
    KeyBelow(c, s, k2);
    ModOneTurn(2 * k, k2);
  }

  lemma DoubleProduct(a: int, u: int)
    ensures a * (2 * u) == 2 * (a * u)
  {
  }

  lemma ModOneTurn(x: nat, r: nat)
    requires r < TWO64 && (x == r || x == r + TWO64)
    ensures x % TWO64 == r
  {
  }

  lemma RootKey(i: nat, s: nat)
    requires i < NTREEBINS && Holds(Root(i), s)
    ensures ShiftLeft(s, LeftShift(i)) == (s - Base(Root(i))) * Pow2(64 - RootBits(i))
  {
    var p := Root(i);
    var u := Pow2(64 - RootBits(i));
    var k := (s - Base(p)) * u;
    SignOfProduct(s - Base(p), u);
    KeyBelow(p, s, k);
    MulDifference(s, Base(p), u);
    var c := BaseMultiple(i);
    ModTurns(s * u, k, c);
  }

  // The smallest size of a bin, moved up, leaves the word entirely.
  lemma BaseMultiple(i: nat) returns (c: nat)
    requires i < NTREEBINS
    ensures Base(Root(i)) * Pow2(64 - RootBits(i)) == c * TWO64
  {
    if i == NTREEBINS - 1 {
      return 0;
    }
    c := 2 + i % 2;
    var w, u := Pow2(RootBits(i)), Pow2(64 - RootBits(i));
    Pow2Sum(RootBits(i), 64 - RootBits(i));
    Pow2Of64();
    assert Pow2(i / 2 + 8) == 2 * w;
    assert MinSize(i) == c * w;
    MulAssoc(c, w, u);
  }

  lemma ModTurns(x: nat, r: nat, c: nat)
    requires r < TWO64 && x == r + c * TWO64
    ensures x % TWO64 == r
  {
  }

  // K at each position of a descent, as the loop computes it: shifted left once per level, cut to 64 bits.
  function Key(p: Path, s: nat): nat {
    match p
    case Root(i) => if i < NTREEBINS then ShiftLeft(s, LeftShift(i)) else 0
    case Lo(u) => 2 * Key(u, s) % TWO64
    case Hi(u) => 2 * Key(u, s) % TWO64
  }

  lemma {:induction false} KeyIsRest(p: Path, s: nat)
    requires Holds(p, s) && Bin(p) < NTREEBINS
    ensures KeyAt(p, s, Key(p, s))
  {
    if p.Root? {
      RootKey(p.bin, s);
    } else {
      Halves(p.up);
      KeyIsRest(p.up, s);
      KeyStep(p.up, s, Key(p.up, s));
      ChildHolds(p.up, s);
    }
  }

  // The top bit of K decides whether the size continues in the right or the left half.
  lemma KeyDecides(p: Path, s: nat)
    requires Holds(p, s) && Bin(p) < NTREEBINS && Bits(p) >= 1
    ensures TopBit(Key(p, s)) == if GoesRight(p, s) then 1 else 0
  {
    KeyIsRest(p, s);
    KeyTopBit(p, s, Key(p, s));
  }
}
