// Words of memory as bytes, low byte first: what memcpy moves.
module Bytes {
  import opened Tiling

  // A word as a number, and back.
  function Value(w: Word): nat {
    w.size + (if w.cinuse then 2 else 0) + (if w.pinuse then 1 else 0)
  }

  function WordOf(v: nat): Word {
    Word(v - v % 4, v / 2 % 2 == 1, v % 2 == 1)
  }

  lemma ValueOfWord(v: nat)
    ensures Value(WordOf(v)) == v
  {
  }

  function Byte(v: nat, k: nat): nat {
    if k == 0 then v % 256 else Byte(v / 256, k - 1)
  }

  function PutByte(v: nat, k: nat, b: nat): nat {
    if k == 0 then v - v % 256 + b else v % 256 + 256 * PutByte(v / 256, k - 1, b)
  }

  lemma {:induction false} BytePut(v: nat, k: nat, b: nat, j: nat)
    requires b < 256
    ensures Byte(PutByte(v, k, b), j) == if j == k then b else Byte(v, j)
  {
    if k == 0 {
      PutFirst(v, b);
    } else if j > 0 {
      PutLater(v % 256, PutByte(v / 256, k - 1, b));
      BytePut(v / 256, k - 1, b, j - 1);
    } else {
      PutLater(v % 256, PutByte(v / 256, k - 1, b));
    }
  }

  lemma PutFirst(v: nat, b: nat)
    requires b < 256
    ensures (v - v % 256 + b) % 256 == b && (v - v % 256 + b) / 256 == v / 256
  {
  }

  lemma PutLater(b: nat, v: nat)
    requires b < 256
    ensures (b + 256 * v) % 256 == b && (b + 256 * v) / 256 == v
  {
  }

  lemma ByteBound(v: nat, k: nat)
    ensures Byte(v, k) < 256
  {
  }

  // The word that holds the byte at a.
  function WordAt(a: Addr): Addr {
    a - a % 8
  }

  function ByteAt(m: Memory, a: Addr): nat {
    Byte(Value(At(m, WordAt(a))), a % 8)
  }

  function SetByte(m: Memory, a: Addr, b: nat): Memory {
    m[WordAt(a) := WordOf(PutByte(Value(At(m, WordAt(a))), a % 8, b))]
  }

  // Setting one byte sets that byte and no other.
  lemma ByteSet(m: Memory, a: Addr, b: nat, c: Addr)
    requires b < 256
    ensures ByteAt(SetByte(m, a, b), c) == if c == a then b else ByteAt(m, c)
  {
    var v := Value(At(m, WordAt(a)));
    ValueOfWord(PutByte(v, a % 8, b));
    hide Value, WordOf, Byte, PutByte;
    if WordAt(c) == WordAt(a) {
      BytePut(v, a % 8, b, c % 8);
      assert c % 8 == a % 8 ==> c == a;
    }
  }

  // Words that are the same have the same bytes.
  lemma SameBytes(m: Memory, m2: Memory, lo: Addr, hi: Addr)
    requires Aligned(lo) && forall a: Addr :: lo <= a < hi ==> At(m2, a) == At(m, a)
    ensures forall a: Addr :: lo <= a < hi ==> ByteAt(m2, a) == ByteAt(m, a)
  {
    hide Value, Byte;
    forall a: Addr | lo <= a < hi ensures ByteAt(m2, a) == ByteAt(m, a) {
      WordBelow(lo, a);
    }
  }

  lemma WordBelow(lo: Addr, a: Addr)
    requires Aligned(lo) && lo <= a
    ensures lo <= WordAt(a) <= a
  {
  }
}
