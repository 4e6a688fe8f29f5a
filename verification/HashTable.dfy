// The chained hash table: elements linked through their own next fields from
// an array of buckets, which grows into a new array or in place.
module HashTable {
  // An element. Elements are equal for eqfn when they have the same key, so that hashfn is a function of the key.
  class Elem {
    const key: int
    var next: Elem?

    constructor (key: int)
      ensures this.key == key && next == null
    {
      this.key := key;
      next := null;
    }
  }

  // A place that holds a pointer to an element: a bucket, or the link of the element before.
  datatype Slot = Bucket(b: nat) | Link(e: Elem)

  type Chains = seq<seq<Elem>>

  function Nth(c: seq<Elem>, i: nat): Elem? {
    if i < |c| then c[i] else null
  }

  ghost predicate NoDuplicates(c: seq<Elem>) {
    forall i, j :: 0 <= i < j < |c| ==> c[i] != c[j]
  }

  // The next fields of a set of elements.
  ghost function Nexts(s: set<Elem>): map<Elem, Elem?>
    reads s
  {
    map e | e in s :: e.next
  }

  // The elements of the chain are linked one after the other, from the first to null.
  ghost predicate Chain(first: Elem?, nx: map<Elem, Elem?>, c: seq<Elem>) {
    && first == Nth(c, 0) && NoDuplicates(c)
    && forall i {:trigger c[i]} :: 0 <= i < |c| ==> c[i] in nx && nx[c[i]] == Nth(c, i + 1)
  }

  ghost predicate Home(c: seq<Elem>, at: map<Elem, nat>, b: nat) {
    (forall i {:trigger c[i]} :: 0 <= i < |c| ==> c[i] in at && at[c[i]] == b) && forall e ::
        e in at && at[e] == b ==> e in c
  }

  // From each head hangs its chain; at says which chain an element is in.
  ghost predicate Linked(heads: seq<Elem?>, nx: map<Elem, Elem?>, ch: Chains, at: map<Elem, nat>) {
    && |ch| == |heads| && (forall e :: e in at ==> at[e] < |ch|)
    && (forall b {:trigger ch[b]} :: 0 <= b < |ch| ==> Chain(heads[b], nx, ch[b]) && Home(ch[b], at, b))
  }

  // Another chain for one head.
  lemma ChainChanged(heads: seq<Elem?>, nx: map<Elem, Elem?>, ch: Chains, at: map<Elem, nat>,
                     b: nat, first: Elem?, nx2: map<Elem, Elem?>, c: seq<Elem>, at2: map<Elem, nat>)
    requires Linked(heads, nx, ch, at) && b < |ch| && Chain(first, nx2, c) && Home(c, at2, b)
    requires forall e :: e in at && at[e] != b ==>
        e in at2 && at2[e] == at[e] && (e in nx ==> e in nx2 && nx2[e] == nx[e])
    requires forall e :: e in at2 && at2[e] != b ==> e in at && at[e] != b
    ensures Linked(heads[b := first], nx2, ch[b := c], at2)
  {
    forall a | 0 <= a < |ch| && a != b ensures Chain(heads[a], nx2, ch[a]) && Home(ch[a], at2, a) {
      assert Chain(heads[a], nx, ch[a]) && Home(ch[a], at, a);
    }
  }

  function Without(c: seq<Elem>, i: nat): seq<Elem>
    requires i < |c|
  {
    c[..i] + c[i + 1..]
  }

  ghost predicate SlotAt(s: Slot, ch: Chains, b: nat, i: nat) {
    b < |ch| && i <= |ch[b]| && s == if i == 0 then Bucket(b) else Link(ch[b][i - 1])
  }

  function Total(ch: Chains): nat {
    if ch == [] then 0 else Total(ch[..|ch| - 1]) + |ch[|ch| - 1]|
  }

  lemma {:induction false} TotalChange(ch: Chains, b: nat, c: seq<Elem>)
    requires b < |ch|
    ensures Total(ch[b := c]) == Total(ch) - |ch[b]| + |c|
  {
    var n := |ch| - 1;
    if b < n {
      TotalChange(ch[..n], b, c);
      assert ch[b := c][..n] == ch[..n][b := c];
    } else {
      assert ch[b := c][..n] == ch[..n];
    }
  }

  lemma TotalNext(ch: Chains, i: nat)
    requires i < |ch|
    ensures Total(ch[..i + 1]) == Total(ch[..i]) + |ch[i]|
  {
    assert ch[..i + 1][..i] == ch[..i];
  }

  // Reading and writing through a pointer to a pointer.
  method Read(t: array<Elem?>, s: Slot) returns (e: Elem?)
    requires s.Bucket? ==> s.b < t.Length
    ensures e == match s case Bucket(b) => t[b] case Link(f) => f.next
  {
    match s
    case Bucket(b) => e := t[b];
    case Link(f) => e := f.next;
  }

  method Write(t: array<Elem?>, s: Slot, e: Elem?)
    requires s.Bucket? ==> s.b < t.Length
    modifies t, if s.Link? then {s.e} else {}
    ensures s.Bucket? ==> t[..] == old(t[..])[s.b := e]
    ensures s.Link? ==> t[..] == old(t[..]) && s.e.next == e
  {
    match s
    case Bucket(b) => t[b] := e;
    case Link(f) => f.next := e;
  }

  lemma SlotHolds(t: array<Elem?>, s: Slot, ch: Chains, at: map<Elem, nat>, b: nat, i: nat)
    requires Linked(t[..], Nexts(at.Keys), ch, at) && SlotAt(s, ch, b, i)
    ensures (s.Bucket? ==> s.b == b < t.Length) && (s.Link? ==> s.e in at && at[s.e] == b)
    ensures Nth(ch[b], i) == match s case Bucket(b) => t[b] case Link(f) => f.next
  {
    assert Chain(t[..][b], Nexts(at.Keys), ch[b]);
    assert i > 0 ==> ch[b][i - 1] in at;
  }

  lemma ChainCut(first: Elem?, nx: map<Elem, Elem?>, c: seq<Elem>, i: nat)
    requires Chain(first, nx, c) && i < |c|
    ensures if i == 0 then Chain(Nth(c, 1), nx, Without(c, i)) else Chain(first, nx[c[i - 1] := Nth(c, i + 1)],
        Without(c, i))
  {
  }

  lemma HomeCut(c: seq<Elem>, at: map<Elem, nat>, b: nat, i: nat)
    requires Home(c, at, b) && NoDuplicates(c) && i < |c|
    ensures Home(Without(c, i), at - {c[i]}, b)
  {
    forall e | e in at - {c[i]} && at[e] == b ensures e in Without(c, i) {
      var k :| 0 <= k < |c| && c[k] == e;
      assert k < i ==> Without(c, i)[k] == e;
      assert k > i ==> Without(c, i)[k - 1] == e;
    }
  }

  // *p = (*p)->next
  method Cut(t: array<Elem?>, s: Slot, ghost ch: Chains, ghost at: map<Elem, nat>, ghost b: nat,
      ghost i: nat) returns (e: Elem)
    requires Linked(t[..], Nexts(at.Keys), ch, at) && SlotAt(s, ch, b, i) && i < |ch[b]|
    modifies t, at.Keys
    ensures e == ch[b][i] && e in at && at[e] == b && e.next == old(e.next)
    ensures Linked(t[..], Nexts((at - {e}).Keys), ch[b := Without(ch[b], i)], at - {e})
  {
    hide Chain, Home;
    SlotHolds(t, s, ch, at, b, i);
    ghost var heads, nx := t[..], Nexts(at.Keys);
    e := Read(t, s);
    CutLinked(heads, nx, ch, at, b, i);
    ghost var v := e.next;
    Write(t, s, e.next);
    hide Linked;
    assert Nexts((at - {e}).Keys) == (if i == 0 then nx else nx[ch[b][i - 1] := v]) - {e};
  }

  lemma CutLinked(heads: seq<Elem?>, nx: map<Elem, Elem?>, ch: Chains, at: map<Elem, nat>, b: nat, i: nat)
    requires Linked(heads, nx, ch, at) && b < |ch| && i < |ch[b]|
    ensures var e, v := ch[b][i], Nth(ch[b], i + 1);
      var heads2, nx2 := if i == 0 then heads[b := v] else heads, if i == 0 then nx else nx[ch[b][i - 1] := v];
      e in at && at[e] == b && e in nx && nx[e] == v && Linked(heads2, nx2 - {e}, ch[b := Without(ch[b], i)], at - {e})
  {
    var c, e, v := ch[b], ch[b][i], Nth(ch[b], i + 1);
    assert Chain(heads[b], nx, c) && Home(c, at, b);
    ChainCut(heads[b], nx, c, i);
    HomeCut(c, at, b, i);
    var first, nx2 := if i == 0 then v else heads[b], if i == 0 then nx else nx[c[i - 1] := v];
    assert e !in Without(c, i);
    assert i > 0 ==> c[i - 1] in at && at[c[i - 1]] == b;
    hide Home;
    ChainLess(first, nx2, Without(c, i), e);
    hide Chain;
    ChainChanged(heads, nx, ch, at, b, first, nx2 - {e}, Without(c, i), at - {e});
    assert i > 0 ==> heads[b := first] == heads;
  }

  lemma ChainLess(first: Elem?, nx: map<Elem, Elem?>, c: seq<Elem>, e: Elem)
    requires Chain(first, nx, c) && e !in c
    ensures Chain(first, nx - {e}, c)
  {
  }

  // e->next = *bucket; *bucket = e
  method PushFront(t: array<Elem?>, e: Elem, b: nat, ghost ch: Chains, ghost at: map<Elem, nat>)
    requires Linked(t[..], Nexts(at.Keys), ch, at) && e !in at && b < t.Length
    modifies t, e
    ensures Linked(t[..], Nexts(at[e := b].Keys), ch[b := [e] + ch[b]], at[e := b]) && t[b] == e
  {
    PushLinked(t[..], Nexts(at.Keys), ch, at, e, b);
    hide Linked;
    ghost var nx := Nexts(at.Keys);
    e.next := t[b];
    t[b] := e;
    assert Nexts(at[e := b].Keys) == nx[e := e.next];
  }

  lemma PushLinked(heads: seq<Elem?>, nx: map<Elem, Elem?>, ch: Chains, at: map<Elem, nat>, e: Elem, b: nat)
    requires Linked(heads, nx, ch, at) && e !in at && b < |heads|
    ensures Linked(heads[b := e], nx[e := heads[b]], ch[b := [e] + ch[b]], at[e := b])
  {
    assert Chain(heads[b], nx, ch[b]) && Home(ch[b], at, b);
    hide Linked;
    ChainPushed(heads[b], nx, ch[b], at, b, e);
    hide Chain, Home;
    ChainChanged(heads, nx, ch, at, b, e, nx[e := heads[b]], [e] + ch[b], at[e := b]);
  }

  lemma ChainPushed(first: Elem?, nx: map<Elem, Elem?>, c: seq<Elem>, at: map<Elem, nat>, b: nat, e: Elem)
    requires Chain(first, nx, c) && Home(c, at, b) && e !in at
    ensures Chain(e, nx[e := first], [e] + c) && Home([e] + c, at[e := b], b)
  {
    forall f | f in at[e := b] && at[e := b][f] == b ensures f in [e] + c {
      assert f == e || f in c;
    }
  }

  // The chain with e at position i, in place of the element there or after the last.
  function Put(c: seq<Elem>, i: nat, e: Elem): seq<Elem>
    requires i <= |c|
  {
    if i < |c| then c[i := e] else c + [e]
  }

  function Put1(at: map<Elem, nat>, c: seq<Elem>, i: nat, e: Elem, b: nat): map<Elem, nat>
    requires i <= |c|
  {
    (if i < |c| then at - {c[i]} else at)[e := b]
  }

  lemma ChainPut(first: Elem?, nx: map<Elem, Elem?>, c: seq<Elem>, i: nat, e: Elem)
    requires Chain(first, nx, c) && i <= |c| && e !in c
    ensures var nx2 := nx[e := Nth(c, i + 1)];
      if i == 0 then Chain(e, nx2, Put(c, i, e)) else Chain(first, nx2[c[i - 1] := e], Put(c, i, e))
  {
  }

  lemma HomePut(c: seq<Elem>, at: map<Elem, nat>, b: nat, i: nat, e: Elem)
    requires Home(c, at, b) && NoDuplicates(c) && i <= |c| && e !in at
    ensures Home(Put(c, i, e), Put1(at, c, i, e, b), b)
  {
    var at2, c2 := Put1(at, c, i, e, b), Put(c, i, e);
    forall f | f in at2 && at2[f] == b ensures f in c2 {
      if f == e {
        assert c2[i] == e;
      } else {
        var k :| 0 <= k < |c| && c[k] == f;
        assert c2[k] == f;
      }
    }
  }

  lemma PutFacts(heads: seq<Elem?>, nx: map<Elem, Elem?>, ch: Chains, at: map<Elem, nat>, b: nat, i: nat)
    requires Linked(heads, nx, ch, at) && b < |ch| && i <= |ch[b]|
    ensures Chain(heads[b], nx, ch[b]) && Home(ch[b], at, b)
    ensures i < |ch[b]| ==> ch[b][i] in nx && nx[ch[b][i]] == Nth(ch[b], i + 1) && ch[b][i] in at && at[ch[b][i]] == b
    ensures 0 < i < |ch[b]| ==> ch[b][i - 1] != ch[b][i]
    ensures i > 0 ==> ch[b][i - 1] in at && at[ch[b][i - 1]] == b
  {
    var c := ch[b];
    assert Chain(heads[b], nx, c) && Home(c, at, b);
  }

  lemma PutLinked(heads: seq<Elem?>, nx: map<Elem, Elem?>, ch: Chains, at: map<Elem, nat>, b: nat, i: nat, e: Elem)
    requires Linked(heads, nx, ch, at) && b < |ch| && i <= |ch[b]| && e !in at
    ensures var c, nx2 := ch[b], nx[e := Nth(ch[b], i + 1)];
      Linked(if i == 0 then heads[b := e] else heads, if i == 0 then nx2 else nx2[c[i - 1] := e],
             ch[b := Put(c, i, e)], Put1(at, c, i, e, b))
  {
    var c := ch[b];
    PutFacts(heads, nx, ch, at, b, i);
    assert e !in c;
    hide Linked, Home, Chain;
    ChainPut(heads[b], nx, c, i, e);
    NoTwice(heads[b], nx, c);
    HomePut(c, at, b, i, e);
    var nx2 := nx[e := Nth(c, i + 1)];
    var first, nx3 := if i == 0 then e else heads[b], if i == 0 then nx2 else nx2[c[i - 1] := e];
    ChainChanged(heads, nx, ch, at, b, first, nx3, Put(c, i, e), Put1(at, c, i, e, b));
    AsMany(heads, nx, ch, at);
    assert i > 0 ==> heads[b := first] == heads;
  }

  lemma NoTwice(first: Elem?, nx: map<Elem, Elem?>, c: seq<Elem>)
    requires Chain(first, nx, c)
    ensures NoDuplicates(c)
  {
  }

  lemma FewerNexts(heads: seq<Elem?>, nx: map<Elem, Elem?>, ch: Chains, at: map<Elem, nat>, nx2: map<Elem, Elem?>)
    requires Linked(heads, nx, ch, at) && nx2.Keys >= at.Keys && forall e :: e in at && e in nx ==> nx2[e] == nx[e]
    ensures Linked(heads, nx2, ch, at)
  {
    forall b | 0 <= b < |ch| ensures Chain(heads[b], nx2, ch[b]) && Home(ch[b], at, b) {
      assert Chain(heads[b], nx, ch[b]) && Home(ch[b], at, b);
    }
  }

  // An element is stored in a slot; if there was one, the new one takes over its link.
  method PutIn(t: array<Elem?>, s: Slot, e: Elem, ghost ch: Chains, ghost at: map<Elem, nat>, ghost b: nat,
      ghost i: nat) returns (r: Elem?)
    requires Linked(t[..], Nexts(at.Keys), ch, at) && SlotAt(s, ch, b, i) && e !in at
    requires i == |ch[b]| ==> e.next == null
    modifies t, at.Keys, e
    ensures r == Nth(ch[b], i) && (r != null ==> r.next == null)
    ensures var at2 := Put1(at, ch[b], i, e, b); Linked(t[..], Nexts(at2.Keys), ch[b := Put(ch[b], i, e)], at2)
  {
    hide Chain, Home;
    SlotHolds(t, s, ch, at, b, i);
    ghost var heads, nx := t[..], Nexts(at.Keys);
    PutFacts(heads, nx, ch, at, b, i);
    PutLinked(heads, nx, ch, at, b, i, e);
    r := Read(t, s);
    Write(t, s, e);
    if r != null {
      e.next := r.next;
      r.next := null;
    }
    hide Linked;
    ghost var nx2 := nx[e := Nth(ch[b], i + 1)];
    FewerNexts(t[..], if i == 0 then nx2 else nx2[ch[b][i - 1] := e], ch[b := Put(ch[b], i, e)],
        Put1(at, ch[b], i, e, b),
               Nexts(Put1(at, ch[b], i, e, b).Keys));
  }

  // ---- Sizes ----

  const PRIMES: seq<nat> := [
    53, 97, 193, 389, 769, 1543, 3079, 6151, 12289, 24593, 49157, 98317, 196613, 393241, 786433, 1572869, 3145739,
    6291469, 12582917, 25165843, 50331653, 100663319, 201326611, 402653189, 805306457, 1610612741]

  const LAST: nat := 25

  function Prime(i: nat): nat
    requires i <= LAST
  {
    PRIMES[i]
  }

  // The load factor, as a fraction.
  datatype Load = Load(num: nat, den: nat)

  // (unsigned) (load * len)
  function Limit(load: Load, len: nat): nat {
    if load.den == 0 then 0 else load.num * len / load.den
  }

  lemma PrimesGrow(i: nat, j: nat)
    requires i < j <= LAST
    ensures 0 < Prime(i) < Prime(j)
    decreases j - i
  {
    assert forall k :: 0 <= k < LAST ==> 0 < Prime(k) < Prime(k + 1);
    if i + 1 < j {
      PrimesGrow(i, j - 1);
    }
  }

  lemma LimitGrows(load: Load, a: nat, b: nat)
    requires a <= b
    ensures Limit(load, a) <= Limit(load, b)
  {
    if load.den > 0 {
      MulLess(load.num, a, b);
      DivLess(load.num * a, load.num * b, load.den);
    }
  }

  lemma MulLess(k: nat, a: nat, b: nat)
    requires a <= b
    ensures k * a <= k * b
  {
  }

  lemma DivLess(a: nat, b: nat, d: nat)
    requires a <= b && d > 0
    ensures a / d <= b / d
  {
    var x, y := a / d, b / d;
    assert a == d * x + a % d && b == d * y + b % d && d * (y + 1) == d * y + d;
    MulLessIf(d, y + 1, x);
  }

  lemma MulLessIf(k: nat, a: nat, b: nat)
    ensures a <= b ==> k * a <= k * b
  {
    if a <= b {
      MulLess(k, a, b);
    }
  }

  // The loop that looks for the next size stays within the table of primes exactly if the largest size would do.
  ghost predicate InRange(load: Load, primeIdx: int, size: nat) {
    exists j: nat :: primeIdx < j <= LAST && Limit(load, Prime(j)) > size
  }

  lemma InRangeExactly(load: Load, primeIdx: int, size: nat)
    requires -1 <= primeIdx < LAST
    ensures InRange(load, primeIdx, size) <==> Limit(load, Prime(LAST)) > size
  {
    if InRange(load, primeIdx, size) {
      var j: nat :| primeIdx < j <= LAST && Limit(load, Prime(j)) > size;
      if j < LAST {
        PrimesGrow(j, LAST);
      }
      LimitGrows(load, Prime(j), Prime(LAST));
    }
  }

  // The load factors for which growing runs out of primes: the last limit holds one element or none; or the last two
  // are two and three, so that the table with room for two has no larger one for three.
  predicate RunsOut(load: Load) {
    Limit(load, Prime(LAST)) <= 1 || (Limit(load, Prime(LAST - 1)) == 2 && Limit(load, Prime(LAST)) == 3)
  }

  // Insert and replace call grow with one more than the entries. In a table that has grown, has room for two or more,
  // and is not over its limit, and in a new one, the loop stays in range exactly if the load factor is none of these.
  lemma CallsInRange(load: Load)
    ensures (forall i: nat :: i < LAST && Limit(load, Prime(i)) > 1 ==> InRange(load, i, Limit(load, Prime(i)) + 1))
            && InRange(load, -1, 1)
            <==> !RunsOut(load)
  {
    InRangeExactly(load, -1, 1);
    InRangeExactly(load, LAST - 1, Limit(load, Prime(LAST - 1)) + 1);
    if !RunsOut(load) {
      forall i: nat | i < LAST && Limit(load, Prime(i)) > 1
        ensures InRange(load, i, Limit(load, Prime(i)) + 1)
      {
        LimitsApart(load, i);
        InRangeExactly(load, i, Limit(load, Prime(i)) + 1);
      }
    }
  }

  // The last limit is more than one above an earlier one, except for two and three.
  lemma LimitsApart(load: Load, i: nat)
    requires i < LAST && Limit(load, Prime(i)) > 1
    ensures Limit(load, Prime(LAST)) > Limit(load, Prime(i)) + 1
        || (i == LAST - 1 && Limit(load, Prime(i)) == 2 && Limit(load, Prime(LAST)) == 3)
  {
    hide Limit;
    var k, d, l := load.num, load.den, Limit(load, Prime(i));
    LimitLow(load, Prime(i));
    MulLess(d, 2, l);
    if i < LAST - 1 {
      if i < LAST - 2 {
        PrimesGrow(i, LAST - 2);
      }
      MulLess(k, Prime(i), Prime(LAST - 2));
      FourTimes(k, d * l, d);
      LimitHigh(load, Prime(LAST), l + 2);
    } else if l >= 3 {
      MulLess(d, 3, l);
      Twice(k, d * l, d);
      LimitHigh(load, Prime(LAST), l + 2);
    } else {
      TwiceTwo(k, d);
      LimitHigh(load, Prime(LAST), 3);
    }
  }

  lemma FourTimes(k: nat, a: nat, d: nat)
    requires k * Prime(LAST - 2) >= a >= 2 * d
    ensures k * Prime(LAST) >= a + 2 * d
  {
  }

  lemma Twice(k: nat, a: nat, d: nat)
    requires k * Prime(LAST - 1) >= a >= 3 * d
    ensures k * Prime(LAST) >= a + 2 * d
  {
  }

  lemma TwiceTwo(k: nat, d: nat)
    requires k * Prime(LAST - 1) >= 2 * d
    ensures k * Prime(LAST) >= 3 * d
  {
  }

  lemma LimitLow(load: Load, len: nat)
    requires Limit(load, len) > 0
    ensures load.den > 0 && load.num * len >= load.den * Limit(load, len)
  {
    Quotient(load.num * len, load.den);
  }

  lemma LimitHigh(load: Load, len: nat, q: nat)
    requires load.den > 0 && load.num * len >= load.den * q
    ensures Limit(load, len) >= q
  {
    AtLeast(load.num * len, load.den, q);
  }

  // The limit is the largest number of elements that the load factor allows for the length.
  lemma LimitExactly(load: Load, len: nat, q: nat)
    ensures load.den > 0 ==> (q <= Limit(load, len) <==> load.den * q <= load.num * len)
    ensures load.den == 0 ==> Limit(load, len) == 0
  {
    if load.den > 0 {
      if q <= Limit(load, len) {
        Quotient(load.num * len, load.den);
        MulLess(load.den, q, Limit(load, len));
      } else if load.den * q <= load.num * len {
        LimitHigh(load, len, q);
      }
    }
  }

  lemma Quotient(a: nat, d: nat)
    requires d > 0
    ensures d * (a / d) <= a
  {
  }

  lemma AtLeast(a: nat, d: nat, q: nat)
    requires d > 0 && a >= d * q
    ensures a / d >= q
  {
    DivLess(d * q, a, d);
    assert d * q / d == q;
  }

  // The first size after another whose limit is above the size asked for.
  ghost predicate NextAfter(load: Load, primeIdx0: int, size: nat, primeIdx: int) {
    && -1 <= primeIdx0 < primeIdx <= LAST && Limit(load, Prime(primeIdx)) > size
    && forall j :: primeIdx0 < j < primeIdx ==> Limit(load, Prime(j)) <= size
  }

  // The do-while loop of grow.
  method NextSize(load: Load, primeIdx0: int, size: nat) returns (primeIdx: int, len: nat, limit: nat)
    requires -1 <= primeIdx0 < LAST && InRange(load, primeIdx0, size)
    ensures NextAfter(load, primeIdx0, size, primeIdx) && len == Prime(primeIdx) && limit == Limit(load, len)
  {
    hide Prime, Limit;
    primeIdx := primeIdx0 + 1;
    len := Prime(primeIdx);
    limit := Limit(load, len);
    while limit <= size && primeIdx < LAST + 1
      invariant primeIdx0 < primeIdx <= LAST && len == Prime(primeIdx) && limit == Limit(load, len)
      invariant forall j :: primeIdx0 < j < primeIdx ==> Limit(load, Prime(j)) <= size
      decreases LAST + 1 - primeIdx
    {
      primeIdx := primeIdx + 1;
      len := Prime(primeIdx);
      limit := Limit(load, len);
    }
  }

  // ---- The table ----

  // Position i of chain b is where a key is, or would be added.
  ghost predicate FoundAt(ch: Chains, contents: map<int, Elem>, key: int, b: nat, i: nat) {
    b < |ch| && i <= |ch[b]| && if key in contents then i < |ch[b]| && ch[b][i] == contents[key] else i == |ch[b]|
  }

  // The abstract table: each key, and the element that has it.
  ghost predicate Matches(contents: map<int, Elem>, at: map<Elem, nat>) {
    && (forall k :: k in contents ==> contents[k].key == k && contents[k] in at)
    && (forall e :: e in at ==> e.key in contents && contents[e.key] == e)
  }

  // The bucket of a key.
  function Index(hash: int -> nat, key: int, len: nat): (b: nat)
    requires len > 0
    ensures b < len
  {
    hash(key) % len
  }

  // A bucket of the table that is as far below the hash as whole lengths of the table reach.
  predicate AtHash(hash: int -> nat, key: int, b: nat, len: nat) {
    b < len && (hash(key) - b) % len == 0
  }

  // Each element is in such a bucket.
  ghost predicate AllAtHash(hash: int -> nat, at: map<Elem, nat>, len: nat) {
    forall e {:trigger at[e]} :: e in at ==> AtHash(hash, e.key, at[e], len)
  }

  // Only one bucket is.
  lemma IndexExactly(hash: int -> nat, key: int, b: nat, len: nat)
    requires len > 0
    ensures AtHash(hash, key, b, len) <==> b == Index(hash, key, len)
  {
    var h := hash(key);
    var i := Index(hash, key, len);
    assert h == len * (h / len) + i;
    Multiple(h / len, len);
    assert h - i == (h / len) * len;
    if AtHash(hash, key, b, len) {
      var k := (h - b) / len;
      assert h - b == len * k;
      SameRest(len, h / len, i, k, b);
    }
  }

  lemma Multiple(k: nat, d: nat)
    requires d > 0
    ensures (k * d) % d == 0
  {
    var x := k * d;
    SameRest(d, x / d, x % d, k, 0);
  }

  lemma SameRest(d: nat, q: int, i: nat, k: int, b: nat)
    requires i < d && b < d && d * q + i == d * k + b
    ensures i == b
  {
    assert d * (k - q) == d * k - d * q && d * (q - k) == d * q - d * k;
    if q < k {
      MulLess(d, 1, k - q);
    } else if k < q {
      MulLess(d, 1, q - k);
    }
  }

  lemma HashedExactly(hash: int -> nat, at: map<Elem, nat>, len: nat)
    ensures Hashed(hash, at, len) <==> AllAtHash(hash, at, len)
  {
    hide Index, AtHash;
    if len > 0 {
      forall e {:trigger at[e]} | e in at
        ensures AtHash(hash, e.key, at[e], len) <==> at[e] == Index(hash, e.key, len)
      {
        IndexExactly(hash, e.key, at[e], len);
      }
    } else {
      NoBucket(hash, at);
    }
  }

  lemma NoBucket(hash: int -> nat, at: map<Elem, nat>)
    ensures AllAtHash(hash, at, 0) <==> forall e :: e !in at
  {
    if e: Elem :| e in at {
      assert at[e] >= 0;
    }
  }

  function At(m: map<int, Elem>, key: int): Elem? {
    if key in m then m[key] else null
  }

  // Each element is in the bucket of its hash.
  ghost predicate Hashed(hash: int -> nat, at: map<Elem, nat>, len: nat) {
    forall e {:trigger at[e]} :: e in at ==> len > 0 && at[e] == Index(hash, e.key, len)
  }

  // The chains hold the elements of the abstract table, as many as are counted.
  ghost predicate Consistent(hash: int -> nat, ch: Chains, at: map<Elem, nat>, contents: map<int, Elem>,
      n: nat, len: nat) {
    Hashed(hash, at, len) && Matches(contents, at) && Total(ch) == n == |contents|
  }

  lemma ConsistentCut(hash: int -> nat, ch: Chains, at: map<Elem, nat>, contents: map<int, Elem>, n: nat, len: nat,
      b: nat, i: nat)
    requires Consistent(hash, ch, at, contents, n, len) && b < |ch| && i < |ch[b]| && ch[b][i] in at
    ensures n > 0
    ensures Consistent(hash, ch[b := Without(ch[b], i)], at - {ch[b][i]}, contents - {ch[b][i].key}, n - 1, len)
  {
    TotalChange(ch, b, Without(ch[b], i));
    var e := ch[b][i];
    assert (contents - {e.key}).Keys == contents.Keys - {e.key};
    assert |contents.Keys| == |contents| && |(contents - {e.key}).Keys| == |contents - {e.key}|;
  }

  lemma Extended(heads: seq<Elem?>, nx: map<Elem, Elem?>, ch: Chains, at: map<Elem, nat>, heads2: seq<Elem?>)
    requires Linked(heads, nx, ch, at) && |heads| <= |heads2| && heads2[..|heads|] == heads
    requires forall b :: |heads| <= b < |heads2| ==> heads2[b] == null
    ensures var ch2 := ch + seq(|heads2| - |heads|, _ => []); Linked(heads2, nx, ch2, at) && Total(ch2) == Total(ch)
    ensures forall e :: e in at ==> at[e] < |heads|
  {
    var ch2 := ch + seq(|heads2| - |heads|, _ => []);
    forall b | 0 <= b < |ch2| ensures Chain(heads2[b], nx, ch2[b]) && Home(ch2[b], at, b) {
      if b < |heads| {
        assert Chain(heads[b], nx, ch[b]) && Home(ch[b], at, b);
      }
    }
    TotalExtended(ch, |heads2| - |heads|);
  }

  lemma {:induction false} TotalExtended(ch: Chains, k: nat)
    ensures Total(ch + seq(k, _ => [])) == Total(ch)
  {
    var ch2 := ch + seq(k, _ => []);
    if k == 0 {
      assert ch2 == ch;
    } else {
      TotalExtended(ch, k - 1);
      assert ch2[..|ch2| - 1] == ch + seq(k - 1, _ => []);
    }
  }

  method RehashLonger(hash: int -> nat, table: array<Elem?>, newLen: nat, ghost chains: Chains,
      ghost at: map<Elem, nat>)
    returns (t: array<Elem?>, ghost nc: Chains, ghost na: map<Elem, nat>)
    requires Linked(table[..], Nexts(at.Keys), chains, at) && newLen > table.Length
    modifies at.Keys
    ensures fresh(t) && t.Length == newLen && na.Keys == at.Keys
    ensures Linked(t[..], Nexts(na.Keys), nc, na) && Hashed(hash, na, newLen) && Total(nc) == Total(chains)
    ensures AllAtHash(hash, na, newLen)
  {
    hide Linked, AllAtHash;
    Extended(table[..], Nexts(at.Keys), chains, at, table[..] + seq(newLen - table.Length, _ => null));
    ghost var nx := Nexts(at.Keys);
    t := Realloc(table, newLen);
    assert Nexts(at.Keys) == nx;
    nc, na := RehashInPlace(hash, t, table.Length, chains + seq(newLen - table.Length, _ => []), at);
  }

  lemma Regrown(hash: int -> nat, ch: Chains, at: map<Elem, nat>, contents: map<int, Elem>, n: nat,
      len: nat, ch2: Chains,
                at2: map<Elem, nat>, len2: nat)
    requires Consistent(hash, ch, at, contents, n, len) && at2.Keys == at.Keys && Hashed(hash, at2, len2)
        && Total(ch2) == Total(ch)
    ensures Consistent(hash, ch2, at2, contents, n, len2)
  {
  }

  lemma CountAdded(contents: map<int, Elem>, e: Elem)
    ensures |contents[e.key := e]| == if e.key in contents then |contents| else |contents| + 1
  {
    assert contents[e.key := e].Keys == contents.Keys + {e.key};
    assert |contents[e.key := e].Keys| == |contents[e.key := e]| && |contents.Keys| == |contents|;
  }

  lemma MatchesPut(hash: int -> nat, at: map<Elem, nat>, contents: map<int, Elem>, len: nat, c: seq<Elem>,
      i: nat, e: Elem)
    requires Hashed(hash, at, len) && Matches(contents, at) && len > 0 && e !in at && i <= |c|
    requires if e.key in contents then i < |c| && c[i] == contents[e.key] else i == |c|
    ensures var at2 := Put1(at, c, i, e, Index(hash, e.key, len));
        Hashed(hash, at2, len) && Matches(contents[e.key := e], at2)
  {
    hide Index;
  }

  lemma ConsistentPut(hash: int -> nat, ch: Chains, at: map<Elem, nat>, contents: map<int, Elem>, n: nat, len: nat,
      b: nat, i: nat, e: Elem)
    requires Consistent(hash, ch, at, contents, n, len) && len > 0 && b < |ch| && b == Index(hash, e.key, len)
        && e !in at
    requires FoundAt(ch, contents, e.key, b, i)
    ensures var n2 := if e.key in contents then n else n + 1;
      Consistent(hash, ch[b := Put(ch[b], i, e)], Put1(at, ch[b], i, e, b), contents[e.key := e], n2, len)
  {
    MatchesPut(hash, at, contents, len, ch[b], i, e);
    hide Index, Hashed, Matches;
    TotalChange(ch, b, Put(ch[b], i, e));
    CountAdded(contents, e);
  }

  lemma ConsistentPush(hash: int -> nat, ch: Chains, at: map<Elem, nat>, contents: map<int, Elem>, n: nat, len: nat,
      b: nat, e: Elem)
    requires Consistent(hash, ch, at, contents, n, len) && len > 0 && b < |ch| && b == Index(hash, e.key, len)
    requires e.key !in contents
    ensures Consistent(hash, ch[b := [e] + ch[b]], at[e := b], contents[e.key := e], n + 1, len) && e !in at
  {
    hide Index;
    TotalChange(ch, b, [e] + ch[b]);
    CountAdded(contents, e);
  }

  // ---- The order of iteration ----

  // The elements from position i of chain b on.
  function Rest(ch: Chains, b: nat, i: nat): seq<Elem>
    decreases |ch| - b
  {
    if b >= |ch| then [] else (if i <= |ch[b]| then ch[b][i..] else []) + Rest(ch, b + 1, 0)
  }

  lemma {:induction false} RestAfter(ch: Chains, b: nat, c: seq<Elem>, from: nat)
    requires b < |ch| && b < from
    ensures Rest(ch[b := c], from, 0) == Rest(ch, from, 0)
    decreases |ch| - from
  {
    if from < |ch| {
      RestAfter(ch, b, c, from + 1);
    }
  }

  lemma SplitFirst(c: seq<Elem>, i: nat, t: seq<Elem>)
    requires i < |c|
    ensures c[i..] + t == [c[i]] + (c[i + 1..] + t)
  {
  }

  lemma RestNext(ch: Chains, b: nat, i: nat)
    requires b < |ch| && i < |ch[b]|
    ensures Rest(ch, b, i) == [ch[b][i]] + Rest(ch, b, i + 1)
    ensures Rest(ch[b := Without(ch[b], i)], b, i) == Rest(ch, b, i + 1)
    ensures i + 1 == |ch[b]| ==> Rest(ch, b, i + 1) == Rest(ch, b + 1, 0)
  {
    RestWithout(ch, b, i);
    SplitFirst(ch[b], i, Rest(ch, b + 1, 0));
    if i + 1 == |ch[b]| {
      RestEnd(ch, b, i + 1);
    }
  }

  lemma RestWithout(ch: Chains, b: nat, i: nat)
    requires b < |ch| && i < |ch[b]|
    ensures Rest(ch[b := Without(ch[b], i)], b, i) == Rest(ch, b, i + 1)
  {
    var ch2 := ch[b := Without(ch[b], i)];
    RestAfter(ch, b, Without(ch[b], i), b + 1);
    assert ch2[b][i..] == ch[b][i + 1..];
  }

  lemma Regroup(s: seq<Elem>, e: Elem, t: seq<Elem>)
    ensures s + ([e] + t) == s + [e] + t
  {
  }

  lemma RestEnd(ch: Chains, b: nat, i: nat)
    requires b < |ch| && i >= |ch[b]|
    ensures Rest(ch, b, i) == Rest(ch, b + 1, 0)
  {
  }

  lemma {:induction false} RestHolds(ch: Chains, b: nat, e: Elem)
    requires exists c :: b <= c < |ch| && e in ch[c]
    ensures e in Rest(ch, b, 0)
    decreases |ch| - b
  {
    if e !in ch[b] {
      RestHolds(ch, b + 1, e);
    }
  }

  lemma {:induction false} RestHomes(heads: seq<Elem?>, nx: map<Elem, Elem?>, ch: Chains, at: map<Elem, nat>, b: nat)
    requires Linked(heads, nx, ch, at) && b <= |ch|
    ensures NoDuplicates(Rest(ch, b, 0)) && forall e :: e in Rest(ch, b, 0) ==> e in at && at[e] >= b
    decreases |ch| - b
  {
    if b < |ch| {
      RestHomes(heads, nx, ch, at, b + 1);
      assert Chain(heads[b], nx, ch[b]) && Home(ch[b], at, b);
      var r := Rest(ch, b + 1, 0);
      assert Rest(ch, b, 0) == ch[b] + r;
      assert forall i, j :: 0 <= i < |ch[b]| && 0 <= j < |r| ==> at[ch[b][i]] == b && at[r[j]] > b;
    }
  }

  // What a callback answers, given the elements met before, and the element.
  type Answer = (seq<Elem>, Elem) -> bool

  ghost function Not(f: Answer): Answer {
    (met: seq<Elem>, e: Elem) => !f(met, e)
  }

  // The element was met, and kept.
  ghost predicate KeptAt(visited: seq<Elem>, keep: Answer, e: Elem) {
    exists i {:trigger visited[i]} :: 0 <= i < |visited| && visited[i] == e && keep(visited[..i], e)
  }

  // What a traversal has left of the table: the elements it has not met, and those it met and kept.
  ghost predicate Kept(c0: map<int, Elem>, c: map<int, Elem>, visited: seq<Elem>, keep: Answer) {
    && (forall k :: k in c0 ==> c0[k].key == k)
    && (forall k :: k in c <==> k in c0 && (c0[k] !in visited || KeptAt(visited, keep, c0[k])))
    && forall k :: k in c ==> c[k] == c0[k]
  }

  lemma KeptFirst(c0: map<int, Elem>, keep: Answer)
    requires forall k :: k in c0 ==> c0[k].key == k
    ensures Kept(c0, c0, [], keep)
  {
  }

  lemma KeptMore(visited: seq<Elem>, keep: Answer, e: Elem, f: Elem)
    requires e !in visited
    ensures KeptAt(visited + [e], keep, f) <==> if f == e then keep(visited, e) else KeptAt(visited, keep, f)
  {
    var v := visited + [e];
    assert v[|visited|] == e && v[..|visited|] == visited;
    forall i | 0 <= i < |visited| ensures v[i] == visited[i] && v[..i] == visited[..i] {
    }
    if KeptAt(visited, keep, f) {
      var i :| 0 <= i < |visited| && visited[i] == f && keep(visited[..i], f);
      assert v[i] == f;
    }
  }

  lemma KeptStep(c0: map<int, Elem>, c: map<int, Elem>, visited: seq<Elem>, keep: Answer, e: Elem)
    requires Kept(c0, c, visited, keep) && e.key in c && c[e.key] == e && e !in visited
    ensures Kept(c0, if keep(visited, e) then c else c - {e.key}, visited + [e], keep)
  {
    var c2 := if keep(visited, e) then c else c - {e.key};
    forall k | k in c0
      ensures k in c2 <==> c0[k] !in visited + [e] || KeptAt(visited + [e], keep, c0[k])
    {
      KeptMore(visited, keep, e, c0[k]);
    }
  }

  lemma KeptLast(c0: map<int, Elem>, c: map<int, Elem>, visited: seq<Elem>, keep: Answer)
    requires Kept(c0, c, visited, keep) && forall k :: k in c0 ==> c0[k] in visited
    ensures c == Chosen(c0, visited, keep)
  {
    hide KeptAt;
    forall k ensures k in c <==> k in Chosen(c0, visited, keep) {
      if k in c0 {
        assert k in c <==> KeptAt(visited, keep, c0[k]);
      }
    }
    assert c.Keys == Chosen(c0, visited, keep).Keys;
    assert forall k :: k in c ==> c[k] == Chosen(c0, visited, keep)[k];
  }

  // What is left of the table by a traversal that met the elements in order.
  ghost function Chosen(c0: map<int, Elem>, order: seq<Elem>, keep: Answer): map<int, Elem> {
    map k | k in c0 && KeptAt(order, keep, c0[k]) :: c0[k]
  }

  lemma NotMet(visited: seq<Elem>, e: Elem, rest: seq<Elem>)
    requires NoDuplicates(visited + ([e] + rest))
    ensures e !in visited
  {
    var all := visited + ([e] + rest);
    assert all[|visited|] == e;
    assert forall i :: 0 <= i < |visited| ==> all[i] == visited[i];
  }

  // The fields that GROW sets.
  ghost predicate Sized(load: Load, len: nat, limit: nat, primeIdx: int) {
    if len == 0 then primeIdx == -1 && limit == 0
    else 0 <= primeIdx <= LAST && len == Prime(primeIdx) && limit == Limit(load, len) && limit > 0
  }

  // Two structures over the same memory: the chains not yet taken over, and the new ones.
  ghost predicate Between(all: set<Elem>, oa: map<Elem, nat>, na: map<Elem, nat>) {
    oa.Keys + na.Keys == all && oa.Keys !! na.Keys
  }

  lemma HeadMoved(heads: seq<Elem?>, nx: map<Elem, Elem?>, ch: Chains, at: map<Elem, nat>, b: nat, n: nat)
    requires Linked(heads, nx, ch, at) && b < |ch| && ch[b] != [] && Total(ch) == n
    ensures var e := ch[b][0];
      && e in at && e in nx && nx[e] == Nth(ch[b][1..], 0) && n > 0 && Total(ch[b := ch[b][1..]]) == n - 1
      && Linked(heads[b := nx[e]], nx - {e}, ch[b := ch[b][1..]], at - {e})
  {
    CutLinked(heads, nx, ch, at, b, 0);
    assert Without(ch[b], 0) == ch[b][1..];
    TotalChange(ch, b, ch[b][1..]);
  }

  lemma {:induction false} NothingLeft(heads: seq<Elem?>, nx: map<Elem, Elem?>, ch: Chains, at: map<Elem, nat>)
    requires Linked(heads, nx, ch, at) && forall b :: 0 <= b < |ch| ==> ch[b] == []
    ensures at == map[] && Total(ch) == 0
  {
    forall e ensures e !in at {
      assert e in at ==> Home(ch[at[e]], at, at[e]);
    }
    NoTotal(ch);
  }

  lemma {:induction false} NoTotal(ch: Chains)
    requires forall b :: 0 <= b < |ch| ==> ch[b] == []
    ensures Total(ch) == 0
  {
    if ch != [] {
      NoTotal(ch[..|ch| - 1]);
    }
  }

  lemma EmptyLinked(heads: seq<Elem?>, ch: Chains)
    requires |ch| == |heads| && (forall b :: 0 <= b < |ch| ==> ch[b] == [])
        && (forall b :: 0 <= b < |heads| ==> heads[b] == null)
    ensures Linked(heads, map[], ch, map[]) && Total(ch) == 0
  {
    NoTotal(ch);
  }

  // One element goes over from the chain it heads to its new bucket.
  method TakeOver(t: array<Elem?>, e: Elem, b2: nat, ghost all: set<Elem>, ghost heads: seq<Elem?>, ghost b: nat,
                  ghost oc: Chains, ghost oa: map<Elem, nat>, ghost nc: Chains, ghost na: map<Elem, nat>)
    requires Linked(heads, Nexts(oa.Keys), oc, oa) && Linked(t[..], Nexts(na.Keys), nc, na) && Between(all, oa, na)
    requires b < |oc| && oc[b] != [] && e == oc[b][0] && b2 < t.Length
    modifies t, e
    ensures var oa2 := oa - {e};
      && e in oa && Linked(heads[b := old(e.next)], Nexts(oa2.Keys), oc[b := oc[b][1..]], oa2)
      && Linked(t[..], Nexts(na[e := b2].Keys), nc[b2 := [e] + nc[b2]], na[e := b2]) && Between(all, oa2, na[e := b2])
      && Total(oc[b := oc[b][1..]]) + Total(nc[b2 := [e] + nc[b2]]) == Total(oc) + Total(nc)
      && old(e.next) == Nth(oc[b][1..], 0) && |nc| == t.Length
  {
    hide Linked;
    HeadMoved(heads, Nexts(oa.Keys), oc, oa, b, Total(oc));
    AsMany(t[..], Nexts(na.Keys), nc, na);
    TotalChange(nc, b2, [e] + nc[b2]);
    ghost var nx := Nexts(oa.Keys) - {e};
    PushFront(t, e, b2, nc, na);
    assert Nexts((oa - {e}).Keys) == nx;
  }

  lemma AsMany(heads: seq<Elem?>, nx: map<Elem, Elem?>, ch: Chains, at: map<Elem, nat>)
    requires Linked(heads, nx, ch, at)
    ensures |ch| == |heads|
  {
  }

  lemma HeadOf(heads: seq<Elem?>, nx: map<Elem, Elem?>, ch: Chains, at: map<Elem, nat>, b: nat)
    requires Linked(heads, nx, ch, at) && b < |heads|
    ensures |ch| == |heads| && heads[b] == Nth(ch[b], 0) && (ch[b] != [] ==> ch[b][0] in at)
  {
  }

  // The elements of one chain go over, one by one.
  method TakeChain(hash: int -> nat, t: array<Elem?>, elm0: Elem?, ghost all: set<Elem>,
      ghost heads0: seq<Elem?>, ghost b: nat, ghost oc0: Chains, ghost oa0: map<Elem, nat>,
      ghost nc0: Chains, ghost na0: map<Elem, nat>)
    returns (ghost oa: map<Elem, nat>, ghost nc: Chains, ghost na: map<Elem, nat>)
    requires Linked(heads0, Nexts(oa0.Keys), oc0, oa0) && Linked(t[..], Nexts(na0.Keys), nc0, na0)
        && Between(all, oa0, na0)
    requires b < |oc0| && elm0 == Nth(oc0[b], 0) && t.Length > 0 && Hashed(hash, na0, t.Length)
    modifies t, all
    ensures |oc0| == |heads0| && Linked(heads0[b := null], Nexts(oa.Keys), oc0[b := []], oa)
    ensures Linked(t[..], Nexts(na.Keys), nc, na) && Between(all, oa, na) && Hashed(hash, na, t.Length)
    ensures Total(oc0[b := []]) + Total(nc) == Total(oc0) + Total(nc0)
  {
    hide Linked, Index, Hashed, Total, Nexts;
    AsMany(heads0, Nexts(oa0.Keys), oc0, oa0);
    HeadOf(heads0, Nexts(oa0.Keys), oc0, oa0, b);
    ghost var heads, oc := heads0, oc0;
    oa, nc, na := oa0, nc0, na0;
    var elm := elm0;
    while elm != null
      invariant |oc| == |heads| == |oc0| == |heads0| && elm == Nth(oc[b], 0)
      invariant oc == oc0[b := oc[b]] && heads == heads0[b := elm]
      invariant Linked(heads, Nexts(oa.Keys), oc, oa) && Linked(t[..], Nexts(na.Keys), nc, na) && Between(all, oa, na)
      invariant Hashed(hash, na, t.Length) && Total(oc) + Total(nc) == Total(oc0) + Total(nc0)
      decreases |oc[b]|
    {
      HeadOf(heads, Nexts(oa.Keys), oc, oa, b);
      var next := elm.next;
      var b2 := Index(hash, elm.key, t.Length);
      TakeOver(t, elm, b2, all, heads, b, oc, oa, nc, na);
      HashedMore(hash, na, t.Length, elm);
      UpdatedTwice(heads0, b, elm, next);
      UpdatedTwice(oc0, b, oc[b], oc[b][1..]);
      heads, oc, oa := heads[b := next], oc[b := oc[b][1..]], oa - {elm};
      nc, na := nc[b2 := [elm] + nc[b2]], na[elm := b2];
      elm := next;
    }
  }

  lemma HashedMore(hash: int -> nat, at: map<Elem, nat>, len: nat, e: Elem)
    requires Hashed(hash, at, len) && len > 0
    ensures Hashed(hash, at[e := Index(hash, e.key, len)], len)
  {
  }

  lemma UpdatedTwice<T>(s: seq<T>, b: nat, x: T, y: T)
    requires b < |s|
    ensures s[b := x][b := y] == s[b := y]
  {
  }

  // The first form of grow: every element goes to a new array.
  method RehashFresh(hash: int -> nat, table: array<Elem?>, newLen: nat, ghost chains: Chains, ghost at: map<Elem, nat>)
    returns (t: array<Elem?>, ghost nc: Chains, ghost na: map<Elem, nat>)
    requires Linked(table[..], Nexts(at.Keys), chains, at) && newLen > 0
    modifies at.Keys
    ensures fresh(t) && t.Length == newLen && na.Keys == at.Keys
    ensures Linked(t[..], Nexts(na.Keys), nc, na) && Hashed(hash, na, newLen) && Total(nc) == Total(chains)
    ensures AllAtHash(hash, na, newLen)
  {
    hide Linked, Index, AllAtHash;
    AsMany(table[..], Nexts(at.Keys), chains, at);
    t := new Elem?[newLen](_ => null);
    nc, na := seq(newLen, _ => []), map[];
    EmptyLinked(t[..], nc);
    ghost var heads, oc, oa := table[..], chains, at;
    var b := 0;
    while b < table.Length
      invariant b <= table.Length && |oc| == |heads| == table.Length && fresh(t) && t.Length == newLen
      invariant Linked(heads, Nexts(oa.Keys), oc, oa) && Linked(t[..], Nexts(na.Keys), nc, na)
          && Between(at.Keys, oa, na)
      invariant Hashed(hash, na, newLen) && Total(oc) + Total(nc) == Total(chains)
      invariant (forall c :: 0 <= c < b ==> oc[c] == []) && forall c :: b <= c < |oc| ==> heads[c] == table[c]
    {
      HeadOf(heads, Nexts(oa.Keys), oc, oa, b);
      oa, nc, na := TakeChain(hash, t, table[b], at.Keys, heads, b, oc, oa, nc, na);
      heads, oc := heads[b := null], oc[b := []];
      b := b + 1;
    }
    NothingLeft(heads, Nexts(oa.Keys), oc, oa);
    HashedExactly(hash, na, newLen);
  }

  // ---- Growing in place ----

  // realloc, and memset of the new part
  method Realloc(table: array<Elem?>, newLen: nat) returns (t: array<Elem?>)
    requires newLen >= table.Length
    ensures fresh(t) && t[..] == table[..] + seq(newLen - table.Length, _ => null)
  {
    t := new Elem?[newLen](_ => null);
    forall i | 0 <= i < table.Length {
      t[i] := table[i];
    }
  }

  ghost predicate Settled(hash: int -> nat, c: seq<Elem>, b: nat, i: nat, len: nat)
    requires len > 0
  {
    forall j {:trigger c[j]} :: 0 <= j < i && j < |c| ==> Index(hash, c[j].key, len) == b
  }

  // Each element is in its new bucket, or where it was.
  ghost predicate MovedHome(hash: int -> nat, at0: map<Elem, nat>, at: map<Elem, nat>, len: nat)
    requires len > 0
  {
    at.Keys == at0.Keys && forall e {:trigger at[e]} :: e in at ==> at[e] == Index(hash, e.key, len) || at[e] == at0[e]
  }

  // One element that is in the wrong chain goes to the front of the right one.
  method MoveHome(t: array<Elem?>, s: Slot, b2: nat, ghost ch: Chains, ghost at: map<Elem, nat>, ghost b: nat,
      ghost i: nat)
    requires Linked(t[..], Nexts(at.Keys), ch, at) && SlotAt(s, ch, b, i) && i < |ch[b]| && b2 < |ch| && b2 != b
    modifies t, at.Keys
    ensures var e := ch[b][i];
      var ch2, at2 := ch[b := Without(ch[b], i)][b2 := [e] + ch[b2]], at[e := b2];
      && e in at && Linked(t[..], Nexts(at2.Keys), ch2, at2) && Total(ch2) == Total(ch) && at2.Keys == at.Keys
  {
    hide Linked;
    AsMany(t[..], Nexts(at.Keys), ch, at);
    ghost var ch1 := ch[b := Without(ch[b], i)];
    TotalChange(ch, b, Without(ch[b], i));
    TotalChange(ch1, b2, [ch[b][i]] + ch1[b2]);
    var e := Cut(t, s, ch, at, b, i);
    PushFront(t, e, b2, ch1, at - {e});
    assert (at - {e})[e := b2] == at[e := b2];
  }

  // One chain of the in-place rehash: elements that belong elsewhere leave, and the others stay, in their order.
  method SettleChain(hash: int -> nat, t: array<Elem?>, b: nat, ghost ch0: Chains, ghost at0: map<Elem, nat>)
    returns (ghost ch: Chains, ghost at: map<Elem, nat>)
    requires Linked(t[..], Nexts(at0.Keys), ch0, at0) && b < t.Length
    modifies t, at0.Keys
    ensures Linked(t[..], Nexts(at.Keys), ch, at) && Total(ch) == Total(ch0) && MovedHome(hash, at0, at, t.Length)
    ensures forall e {:trigger at[e]} :: e in at && at[e] == b ==> Index(hash, e.key, t.Length) == b
  {
    hide Linked, Index;
    ch, at := ch0, at0;
    AsMany(t[..], Nexts(at.Keys), ch, at);
    var pE := Bucket(b);
    ghost var i := 0;
    SlotHolds(t, pE, ch, at, b, i);
    var e := Read(t, pE);
    while e != null
      invariant |ch| == t.Length && SlotAt(pE, ch, b, i) && e == Nth(ch[b], i) && Settled(hash, ch[b], b, i, t.Length)
      invariant Linked(t[..], Nexts(at.Keys), ch, at) && Total(ch) == Total(ch0) && MovedHome(hash, at0, at, t.Length)
      decreases |ch[b]| - i
    {
      var b2 := Index(hash, e.key, t.Length);
      if b2 == b {
        pE, i := Link(e), i + 1;
      } else {
        MoveHome(t, pE, b2, ch, at, b, i);
        ch, at := ch[b := Without(ch[b], i)][b2 := [e] + ch[b2]], at[e := b2];
      }
      SlotHolds(t, pE, ch, at, b, i);
      e := Read(t, pE);
    }
    SettledAll(hash, t[..], Nexts(at.Keys), ch, at, b);
  }

  lemma SettledAll(hash: int -> nat, heads: seq<Elem?>, nx: map<Elem, Elem?>, ch: Chains, at: map<Elem, nat>, b: nat)
    requires Linked(heads, nx, ch, at) && b < |heads| && |ch| == |heads| && Settled(hash, ch[b], b, |ch[b]|, |heads|)
    ensures forall e {:trigger at[e]} :: e in at && at[e] == b ==> Index(hash, e.key, |heads|) == b
  {
    hide Index;
    assert Home(ch[b], at, b);
  }

  lemma HomesBelow(heads: seq<Elem?>, nx: map<Elem, Elem?>, ch: Chains, at: map<Elem, nat>)
    requires Linked(heads, nx, ch, at)
    ensures forall e :: e in at ==> at[e] < |heads|
  {
  }

  // The second form of grow: the array was extended, and each old chain is gone through once. Elements that move to a
  // chain further on are met again there, and stay.
  method RehashInPlace(hash: int -> nat, t: array<Elem?>, oldLen: nat, ghost ch0: Chains, ghost at0: map<Elem, nat>)
    returns (ghost ch: Chains, ghost at: map<Elem, nat>)
    requires Linked(t[..], Nexts(at0.Keys), ch0, at0) && oldLen < t.Length && forall e :: e in at0 ==> at0[e] < oldLen
    modifies t, at0.Keys
    ensures Linked(t[..], Nexts(at.Keys), ch, at) && Hashed(hash, at, t.Length) && at.Keys == at0.Keys
        && Total(ch) == Total(ch0)
    ensures AllAtHash(hash, at, t.Length)
  {
    hide Linked, Index, AllAtHash;
    ch, at := ch0, at0;
    for b := 0 to oldLen
      invariant Linked(t[..], Nexts(at.Keys), ch, at) && at.Keys == at0.Keys && Total(ch) == Total(ch0)
      invariant forall e {:trigger at[e]} :: e in at ==> at[e] == Index(hash, e.key, t.Length) || b <= at[e] < oldLen
    {
      ch, at := SettleChain(hash, t, b, ch, at);
    }
    HashedExactly(hash, at, t.Length);
  }

  // Whether malloc and realloc succeed, when grow calls them.
  datatype Alloc = Alloc(malloc: bool, realloc: bool)

  predicate Grants(alloc: Alloc) {
    alloc.malloc || alloc.realloc
  }

  class Table {
    const hash: int -> nat
    const load: Load

    // The array of buckets; of length 0 for the null pointer.
    var table: array<Elem?>
    var tableLength: nat
    var nEntries: nat
    var loadLimit: nat
    var primeIdx: int

    ghost var chains: Chains
    ghost var at: map<Elem, nat>
    ghost var contents: map<int, Elem>

    ghost predicate Valid()
      reads this, table, at.Keys
    {
      && tableLength == table.Length && Sized(load, tableLength, loadLimit, primeIdx)
      && Linked(table[..], Nexts(at.Keys), chains, at) && Consistent(hash, chains, at, contents, nEntries, tableLength)
    }

    // HT_INIT
    constructor (hash: int -> nat, load: Load)
      ensures Valid() && contents == map[] && fresh(table) && this.load == load && this.hash == hash
      ensures tableLength == nEntries == loadLimit == 0 && primeIdx == -1 && at == map[]
    {
      this.hash, this.load := hash, load;
      table := new Elem?[0];
      tableLength, nEntries, loadLimit, primeIdx := 0, 0, 0, -1;
      chains, at, contents := [], map[], map[];
    }

    lemma KeyInChain(key: int)
      requires Valid()
      ensures key in contents ==> tableLength > 0 && contents[key].key == key && |chains| == tableLength == table.Length
      ensures key in contents ==> contents[key] in chains[Index(hash, key, tableLength)]
    {
      if key in contents {
        var e := contents[key];
        assert at[e] == Index(hash, key, tableLength);
        assert Home(chains[at[e]], at, at[e]);
      }
    }

    // What a slot of the table refers to.
    lemma SlotFacts(s: Slot, b: nat, i: nat)
      requires Valid() && SlotAt(s, chains, b, i)
      ensures |chains| == table.Length && (s.Bucket? ==> s.b == b < table.Length)
          && (s.Link? ==> s.e in at && at[s.e] == b)
      ensures Nth(chains[b], i) == match s case Bucket(b) => table[b] case Link(f) => f.next
      ensures i < |chains[b]| ==> var e := chains[b][i];
          e in at && at[e] == b && e.key in contents && contents[e.key] == e
    {
      SlotHolds(table, s, chains, at, b, i);
      assert Home(chains[b], at, b);
    }

    lemma ChainCount()
      requires Valid()
      ensures |chains| == table.Length == tableLength
    {
    }

    // The key is in none of a chain's elements, and so not in the table.
    lemma Missing(key: int)
      requires Valid() && tableLength > 0 && |chains| == tableLength
      requires var c := chains[Index(hash, key, tableLength)]; forall j :: 0 <= j < |c| ==> c[j].key != key
      ensures key !in contents
    {
      KeyInChain(key);
    }

    // The walk down a chain to the element with the key, or to the end.
    method Walk(key: int, b: nat) returns (s: Slot, ghost i: nat)
      requires Valid() && b < |chains|
      ensures SlotAt(s, chains, b, i) && (i < |chains[b]| ==> chains[b][i].key == key)
      ensures forall j :: 0 <= j < i ==> chains[b][j].key != key
    {
      hide Linked, Consistent, Nexts, Index, Sized;
      s, i := Bucket(b), 0;
      SlotFacts(s, b, i);
      var e := Read(table, s);
      while e != null
        invariant SlotAt(s, chains, b, i) && e == Nth(chains[b], i)
        invariant forall j :: 0 <= j < i ==> chains[b][j].key != key
        decreases |chains[b]| - i
      {
        if e.key == key {
          return;
        }
        s, i := Link(e), i + 1;
        SlotFacts(s, b, i);
        e := Read(table, s);
      }
    }

    // HT_FIND_P: null if there is no table.
    method FindSlot(key: int) returns (found: bool, s: Slot, ghost b: nat, ghost i: nat)
      requires Valid()
      ensures found <==> tableLength > 0
      ensures found ==>
          b == Index(hash, key, tableLength) && SlotAt(s, chains, b, i)
          && FoundAt(chains, contents, key, b, i)
    {
      hide Linked, Consistent, Nexts, Index, Sized;
      found, s, b, i := false, Bucket(0), 0, 0;
      ChainCount();
      if tableLength > 0 {
        found := true;
        b := Index(hash, key, tableLength);
        s, i := Walk(key, Index(hash, key, tableLength));
        if i < |chains[b]| {
          SlotFacts(s, b, i);
        } else {
          Missing(key);
        }
      }
    }

    // HT_FIND
    method Find(key: int) returns (e: Elem?)
      requires Valid()
      ensures e == if key in contents then contents[key] else null
    {
      hide Linked, Consistent, Index, Nexts, Sized;
      var found, s, b, i := FindSlot(key);
      if found {
        SlotFacts(s, b, i);
        e := Read(table, s);
      } else {
        e := null;
        KeyInChain(key);
      }
    }

    // The element that a slot refers to leaves the table; its own link is not changed.
    method Unhook(s: Slot, ghost b: nat, ghost i: nat) returns (r: Elem)
      requires Valid() && SlotAt(s, chains, b, i) && i < |chains[b]|
      modifies this`nEntries, this`chains, this`at, this`contents, table, at.Keys
      ensures Valid() && r == old(chains)[b][i] && r in old(at) && r.key in old(contents) && old(contents)[r.key] == r
      ensures contents == old(contents) - {r.key} && at == old(at) - {r} && r.next == old(r.next)
      ensures nEntries == old(nEntries) - 1
      ensures chains == old(chains)[b := Without(old(chains)[b], i)]
    {
      hide Linked, Consistent, Index, Nexts, Sized;
      SlotFacts(s, b, i);
      ConsistentCut(hash, chains, at, contents, nEntries, tableLength, b, i);
      r := Cut(table, s, chains, at, b, i);
      chains, at, contents := chains[b := Without(chains[b], i)], at - {r}, contents - {r.key};
      nEntries := nEntries - 1;
    }

    // HT_REMOVE
    method Remove(key: int) returns (r: Elem?)
      requires Valid()
      modifies this, table, at.Keys
      ensures Valid() && table == old(table) && contents == old(contents) - {key}
      ensures r == if key in old(contents) then old(contents)[key] else null
      ensures (r != null ==> r.next == null) && nEntries <= old(nEntries) && primeIdx == old(primeIdx)
          && loadLimit == old(loadLimit)
    {
      hide Linked, Consistent, Index, Nexts, Sized;
      var found, s, b, i := FindSlot(key);
      r := null;
      KeyInChain(key);
      if !found {
        assert contents - {key} == contents;
        return;
      }
      SlotFacts(s, b, i);
      var e := Read(table, s);
      if e == null {
        assert contents - {key} == contents;
        return;
      }
      r := Unhook(s, b, i);
      r.next := null;
    }

    // HT_GROW
    method Grow(size: nat, alloc: Alloc) returns (r: int)
      requires Valid() && (primeIdx == LAST || loadLimit > size || InRange(load, primeIdx, size))
      modifies this, table, at.Keys
      ensures Valid() && contents == old(contents) && at.Keys == old(at.Keys) && nEntries == old(nEntries)
      ensures AllAtHash(hash, at, tableLength) && (table == old(table) || fresh(table))
      ensures var due := old(primeIdx) < LAST && old(loadLimit) <= size;
        && r == (if due && !Grants(alloc) then -1 else 0)
        && (due && Grants(alloc) ==> NextAfter(load, old(primeIdx), size, primeIdx) && tableLength > 0)
        && (!due || !Grants(alloc) ==>
              chains == old(chains) && table == old(table) && loadLimit == old(loadLimit) && primeIdx == old(primeIdx))
    {
      hide Linked, Consistent, Index, Nexts, Limit, InRange, Prime, AllAtHash;
      r := 0;
      InBuckets();
      if primeIdx == LAST || loadLimit > size {
        return;
      }
      var newIdx, newLen, newLimit := NextSize(load, primeIdx, size);
      LongerTable(newIdx);
      var t;
      ghost var ch, a;
      if alloc.malloc {
        t, ch, a := RehashFresh(hash, table, newLen, chains, at);
      } else {
        if !alloc.realloc {
          return -1;
        }
        t, ch, a := RehashLonger(hash, table, newLen, chains, at);
      }
      Install(t, newIdx, newLimit, ch, a);
      InBuckets();
    }

    // Every element is in the bucket of its hash.
    lemma InBuckets()
      requires Valid()
      ensures AllAtHash(hash, at, tableLength)
    {
      HashedExactly(hash, at, tableLength);
    }

    lemma LongerTable(newIdx: nat)
      requires Valid() && primeIdx < newIdx <= LAST
      ensures tableLength < Prime(newIdx)
    {
      hide Limit;
      if primeIdx >= 0 {
        PrimesGrow(primeIdx, newIdx);
      }
    }

    // The fields are set for the new array.
    method Install(t: array<Elem?>, newIdx: nat, newLimit: nat, ghost ch: Chains, ghost a: map<Elem, nat>)
      requires tableLength == table.Length && Consistent(hash, chains, at, contents, nEntries, tableLength)
      requires newIdx <= LAST && t.Length == Prime(newIdx) > 0 && newLimit == Limit(load, t.Length) > 0
      requires Linked(t[..], Nexts(a.Keys), ch, a) && Hashed(hash, a, t.Length) && a.Keys == at.Keys
          && Total(ch) == Total(chains)
      modifies this
      ensures Valid() && contents == old(contents) && at.Keys == old(at.Keys) && nEntries == old(nEntries) && table == t
      ensures tableLength == t.Length && loadLimit == newLimit && primeIdx == newIdx
    {
      hide Linked, Consistent, Index, Nexts, Limit, Hashed;
      Regrown(hash, chains, at, contents, nEntries, tableLength, ch, a, t.Length);
      table, chains, at := t, ch, a;
      tableLength, primeIdx, loadLimit := t.Length, newIdx, newLimit;
    }

    // The size that insert and replace ask grow for is found among the primes, if they call it.
    predicate CallInRange()
      reads this
    {
      nEntries < loadLimit || primeIdx == LAST || nEntries + 1 < Limit(load, Prime(LAST))
    }

    lemma CallInRangeExactly()
      requires Valid()
      ensures CallInRange() <==> nEntries < loadLimit || primeIdx == LAST || InRange(load, primeIdx, nEntries + 1)
    {
      if primeIdx < LAST {
        InRangeExactly(load, primeIdx, nEntries + 1);
      }
    }

    // A table that only insert and replace have grown has room for two elements or more.
    ghost predicate Roomy()
      reads this
    {
      tableLength == 0 || loadLimit > 1
    }

    // The elements in the table are those of the abstract map.
    lemma KnownElements()
      requires Valid()
      ensures forall e :: e in at <==> e.key in contents && contents[e.key] == e
    {
    }

    // Such a table, not over its limit, calls grow in range, unless the load factor runs out of primes.
    lemma AlwaysInRange()
      requires Valid() && Roomy() && nEntries <= loadLimit && !RunsOut(load)
      ensures CallInRange()
    {
      hide RunsOut, Limit, Prime, InRange;
      CallInRangeExactly();
      CallsInRange(load);
      SizedIs();
    }

    ghost function Look(): View
      reads this
    {
      View(contents, loadLimit, primeIdx)
    }

    lemma SizedIs()
      requires Valid()
      ensures if tableLength == 0 then primeIdx == -1 && loadLimit == 0
              else 0 <= primeIdx <= LAST && loadLimit == Limit(load, Prime(primeIdx))
    {
      hide Linked, Consistent;
    }

    // What insert and replace do to the size: with memory, a full table grows to the next size with room for one more.
    twostate predicate Grown(alloc: Alloc)
      reads this
    {
      if old(nEntries) >= old(loadLimit) && old(primeIdx) < LAST && Grants(alloc)
      then NextAfter(load, old(primeIdx), old(nEntries) + 1, primeIdx)
      else primeIdx == old(primeIdx) && loadLimit == old(loadLimit) && tableLength == old(tableLength)
    }

    // Without an array, or when the table is full, insert and replace have it grown, and do not look at the answer.
    method GrowIfFull(alloc: Alloc)
      requires Valid() && CallInRange()
      modifies this, table, at.Keys
      ensures Valid() && contents == old(contents) && at.Keys == old(at.Keys) && nEntries == old(nEntries)
      ensures table == old(table) || (fresh(table) && Grants(alloc))
      ensures (tableLength > 0 <==> old(tableLength) > 0 || Grants(alloc)) && Grown(alloc)
    {
      hide Linked, Consistent, Index, Nexts, Limit, InRange, Prime, NextAfter;
      Counted();
      CallInRangeExactly();
      SizedIs();
      if table.Length == 0 || nEntries >= loadLimit {
        var _ := Grow(nEntries + 1, alloc);
        Counted();
      }
    }

    // A table stays within its limit, until it has the last size, and roomy.
    twostate lemma GrownRoomy(alloc: Alloc)
      requires old(Valid()) && Valid() && Grown(alloc)
      ensures old(Roomy()) ==> Roomy()
      ensures primeIdx < LAST && Grants(alloc) && old(nEntries) <= old(loadLimit) ==> old(nEntries) < loadLimit
      ensures old(primeIdx) == LAST ==> primeIdx == LAST
    {
      hide Linked, Consistent, Limit, Prime;
      SizedIs();
    }

    lemma Counted()
      requires Valid()
      ensures nEntries == |contents| && (tableLength == 0 ==> contents == map[])
          && (tableLength == 0 <==> loadLimit == 0)
    {
      if tableLength == 0 {
        NothingLeft(table[..], Nexts(at.Keys), chains, at);
      }
    }

    // Whether an entry more is within the limit, after the table has grown if it can.
    predicate WillFit(alloc: Alloc)
      reads this
    {
      nEntries < loadLimit || (primeIdx < LAST && Grants(alloc))
    }

    // The representation check of the table after the call.
    twostate lemma GrownCheck(alloc: Alloc)
      requires old(Valid()) && Valid() && Grown(alloc)
      ensures primeIdx <= LAST && (RepOk() <==> nEntries <= loadLimit)
      ensures if old(WillFit(alloc)) then old(nEntries) < loadLimit else loadLimit == old(loadLimit) <= old(nEntries)
    {
      ValidPasses();
      hide Linked, Consistent, Limit, Prime, RepOk;
      SizedIs();
    }

    twostate lemma GrownIs(alloc: Alloc)
      requires old(Valid()) && Valid() && Grown(alloc)
      ensures Enlarged(load, old(Look()), alloc, Look())
    {
      CountedBefore();
      hide Linked, Consistent, Limit, Prime;
      SizedIs();
    }

    twostate lemma CountedBefore()
      requires old(Valid())
      ensures old(nEntries) == |old(contents)|
    {
    }

    // HT_INSERT, of an element with a key that is not in the table. Without memory for a first array, the program
    // divides by the table length of zero: then done is false.
    method Insert(elm: Elem, alloc: Alloc) returns (done: bool)
      requires Valid() && elm.key !in contents && CallInRange()
      modifies this, table, at.Keys, elm
      ensures Valid() && (done <==> old(tableLength) > 0 || Grants(alloc)) && Grown(alloc)
      ensures contents == if done then old(contents)[elm.key := elm] else old(contents)
      ensures nEntries == |contents| && (!done ==> contents == map[] && elm.next == old(elm.next))
      ensures table == old(table) || (fresh(table) && Grants(alloc))
      ensures primeIdx <= LAST && (RepOk() <==> !done || old(WillFit(alloc)))
      ensures AllAtHash(hash, at, tableLength)
      ensures done ==> elm in at && at[elm] < table.Length && table[at[elm]] == elm
    {
      KnownElement(elm);
      hide Linked, Consistent, Index, Nexts, Limit, InRange, Prime, NextAfter, RepOk, AllAtHash;
      Counted();
      GrowIfFull(alloc);
      Counted();
      done := table.Length > 0;
      if done {
        Hook(elm);
        Counted();
        CountAdded(old(contents), elm);
      }
      GrownCheck(alloc);
      InBuckets();
    }

    // The element is counted and put at the front of its bucket.
    method Hook(elm: Elem)
      requires Valid() && elm.key !in contents && tableLength > 0
      modifies this`nEntries, this`chains, this`at, this`contents, table, elm
      ensures Valid() && contents == old(contents)[elm.key := elm]
      ensures elm in at && at[elm] < table.Length && table[at[elm]] == elm
    {
      hide Linked, Consistent, Index, Nexts, Sized;
      ChainCount();
      var b := Index(hash, elm.key, tableLength);
      ConsistentPush(hash, chains, at, contents, nEntries, tableLength, b, elm);
      nEntries := nEntries + 1;
      PushFront(table, elm, b, chains, at);
      chains, at, contents := chains[b := [elm] + chains[b]], at[elm := b], contents[elm.key := elm];
    }

    // As a valid table, but for an entry too many in the count.
    ghost predicate CountedTwice()
      reads this, table, at.Keys
    {
      && tableLength == table.Length && Sized(load, tableLength, loadLimit, primeIdx) && nEntries > 0
      && Linked(table[..], Nexts(at.Keys), chains, at)
      && Consistent(hash, chains, at, contents, nEntries - 1, tableLength)
    }

    lemma CountedTwiceIsBad()
      requires CountedTwice()
      ensures !Valid() && primeIdx <= LAST && !RepOk() && AllAtHash(hash, at, tableLength)
    {
      HashedExactly(hash, at, tableLength);
      if tableLength == 0 {
        NothingLeft(table[..], Nexts(at.Keys), chains, at);
      }
    }

    // HT_REPLACE. A new element has no link, unless it takes over another's. Without memory for a first array, there is
    // no slot, and the program reads through a null pointer: then done is false. An element that is in the table
    // already is counted again.
    method Replace(elm: Elem, alloc: Alloc) returns (done: bool, r: Elem?)
      requires Valid() && CallInRange() && (elm.key !in contents ==> elm.next == null)
      modifies this, table, at.Keys, elm
      ensures (done <==> old(tableLength) > 0 || Grants(alloc)) && Grown(alloc)
      ensures contents == if done then old(contents)[elm.key := elm] else old(contents)
      ensures if elm in old(at) then CountedTwice() && r == null && nEntries == |contents| + 1
        else Valid() && r == old(At(contents, elm.key)) && (r != null ==> r.next == null) && nEntries == |contents|
      ensures !done ==> contents == map[] && elm.next == old(elm.next)
      ensures table == old(table) || fresh(table)
      ensures primeIdx <= LAST
      ensures elm !in old(at) ==>
                (RepOk() <==> !done || old(WillFit(alloc)) || (elm.key in old(contents) && old(RepOk())))
      ensures AllAtHash(hash, at, tableLength)
    {
      hide Linked, Consistent, Index, Nexts, Limit, InRange, Prime, NextAfter, CountedTwice, RepOk, AllAtHash;
      KnownElements();
      KeysMatch();
      Counted();
      ValidPasses();
      GrowIfFull(alloc);
      Counted();
      done := table.Length > 0;
      r := null;
      if done {
        r := HookOver(elm);
        if elm !in old(at) {
          Counted();
          CountAdded(old(contents), elm);
        } else {
          CountedTwiceIsBad();
        }
      }
      if elm !in old(at) {
        GrownCheck(alloc);
        InBuckets();
      }
    }

    // The element goes to the slot of its key, if need be in place of another.
    method HookOver(elm: Elem) returns (r: Elem?)
      requires Valid() && tableLength > 0 && (elm.key !in contents ==> elm.next == null)
      modifies this`nEntries, this`chains, this`at, this`contents, table, at.Keys, elm
      ensures contents == old(contents)[elm.key := elm]
      ensures elm in old(at) ==> r == null && nEntries == old(nEntries) + 1 && CountedTwice()
      ensures elm !in old(at) ==>
                r == old(At(contents, elm.key)) && (r != null ==> r.next == null) && Valid()
    {
      KnownElement(elm);
      hide Linked, Consistent, Index, Nexts, Sized, FoundAt, SlotAt, CountedTwice;
      var found, s, b, i := FindSlot(elm.key);
      FoundIs(elm.key, b, i);
      SlotFacts(s, b, i);
      r := Read(table, s);
      if r == elm {
        assert elm in at;
        HookAgain(elm, s, b, i);
        return null;
      }
      assert elm !in at;
      r := HookIn(elm, s, b, i);
    }

    lemma KnownElement(elm: Elem)
      requires Valid()
      ensures elm in at <==> elm.key in contents && contents[elm.key] == elm
    {
    }

    lemma FoundIs(key: int, b: nat, i: nat)
      requires FoundAt(chains, contents, key, b, i)
      ensures Nth(chains[b], i) == if key in contents then contents[key] else null
    {
    }

    // The case r == elm
    method HookAgain(elm: Elem, s: Slot, ghost b: nat, ghost i: nat)
      requires Valid() && SlotAt(s, chains, b, i) && Nth(chains[b], i) == elm
      modifies this`nEntries, table, at.Keys
      ensures CountedTwice() && nEntries == old(nEntries) + 1 && contents[elm.key := elm] == contents
    {
      hide Linked, Consistent, Index, Nexts, Sized;
      SlotFacts(s, b, i);
      ghost var heads, nx := table[..], Nexts(at.Keys);
      Write(table, s, elm);
      SameNexts(nx);
      assert table[..] == heads;
      nEntries := nEntries + 1;
    }

    method HookIn(elm: Elem, s: Slot, ghost b: nat, ghost i: nat) returns (r: Elem?)
      requires Valid() && elm !in at && tableLength > 0 && b == Index(hash, elm.key, tableLength)
      requires SlotAt(s, chains, b, i) && FoundAt(chains, contents, elm.key, b, i)
      requires elm.key !in contents ==> elm.next == null
      modifies this`nEntries, this`chains, this`at, this`contents, table, at.Keys, elm
      ensures Valid() && contents == old(contents)[elm.key := elm] && r == old(Nth(chains[b], i))
      ensures r != null ==> r.next == null
    {
      hide Linked, Consistent, Index, Nexts, Sized;
      ChainCount();
      ConsistentPut(hash, chains, at, contents, nEntries, tableLength, b, i, elm);
      r := PutIn(table, s, elm, chains, at, b, i);
      chains, at, contents := chains[b := Put(chains[b], i, elm)], Put1(at, chains[b], i, elm, b),
          contents[elm.key := elm];
      if r == null {
        nEntries := nEntries + 1;
      }
    }

    twostate lemma SameNexts(nx: map<Elem, Elem?>)
      requires nx == old(Nexts(at.Keys)) && at == old(at) && forall e :: e in at ==> e.next == old(e.next)
      ensures Nexts(at.Keys) == nx
    {
    }

    // HT_CLEAR
    method Clear()
      requires Valid()
      modifies this
      ensures Valid() && contents == map[] && tableLength == 0
    {
      table := new Elem?[0];
      tableLength, nEntries, loadLimit, primeIdx := 0, 0, 0, -1;
      chains, at, contents := [], map[], map[];
    }

    lemma KeysMatch()
      requires Valid()
      ensures forall k :: k in contents ==> contents[k].key == k
    {
    }

    // Every element comes once in the order of iteration.
    lemma EachOnce()
      requires Valid()
      ensures NoDuplicates(Rest(chains, 0, 0)) && forall k :: k in contents ==> contents[k] in Rest(chains, 0, 0)
      ensures forall e :: e in Rest(chains, 0, 0) ==> e.key in contents && contents[e.key] == e
    {
      RestHomes(table[..], Nexts(at.Keys), chains, at, 0);
      forall k | k in contents ensures contents[k] in Rest(chains, 0, 0) {
        KeyInChain(k);
        RestHolds(chains, 0, contents[k]);
      }
    }

    // The first slot in use from a bucket on.
    method FromBucket(b0: nat) returns (found: bool, s: Slot, ghost b: nat)
      requires Valid()
      ensures found ==> SlotAt(s, chains, b, 0) && chains[b] != [] && Rest(chains, b, 0) == Rest(chains, b0, 0)
      ensures !found ==> Rest(chains, b0, 0) == []
    {
      hide Linked, Consistent, Nexts, Index, Sized;
      ChainCount();
      found, s, b := false, Bucket(0), b0;
      var c := b0;
      while c < tableLength
        invariant Rest(chains, c, 0) == Rest(chains, b0, 0)
      {
        SlotFacts(Bucket(c), c, 0);
        if table[c] != null {
          return true, Bucket(c), c;
        }
        c := c + 1;
      }
    }

    // HT_START
    method Start() returns (found: bool, s: Slot, ghost b: nat)
      requires Valid()
      ensures found ==> SlotAt(s, chains, b, 0) && chains[b] != [] && Rest(chains, b, 0) == Rest(chains, 0, 0)
      ensures !found ==> Rest(chains, 0, 0) == []
    {
      found, s, b := FromBucket(0);
    }

    // HT_NEXT
    method Next(s: Slot, ghost b: nat, ghost i: nat) returns (found: bool, s2: Slot, ghost b2: nat, ghost i2: nat)
      requires Valid() && SlotAt(s, chains, b, i) && i < |chains[b]|
      ensures found ==>
          SlotAt(s2, chains, b2, i2) && i2 < |chains[b2]|
          && Rest(chains, b, i) == [chains[b][i]] + Rest(chains, b2, i2)
      ensures !found ==> Rest(chains, b, i) == [chains[b][i]]
    {
      hide Linked, Consistent, Nexts, Sized, Rest;
      SlotFacts(s, b, i);
      var e := Read(table, s);
      RestNext(chains, b, i);
      SlotFacts(Link(e), b, i + 1);
      if e.next != null {
        found, s2, b2, i2 := true, Link(e), b, i + 1;
      } else {
        InItsBucket(e, b);
        i2 := 0;
        found, s2, b2 := FromBucket(Index(hash, e.key, tableLength) + 1);
      }
    }

    lemma InItsBucket(e: Elem, b: nat)
      requires Valid() && e in at && at[e] == b
      ensures tableLength > 0 && Index(hash, e.key, tableLength) == b
    {
    }

    // HT_NEXT_RMV
    method NextRemove(s: Slot, ghost b: nat, ghost i: nat) returns (found: bool, s2: Slot, ghost b2: nat, ghost i2: nat)
      requires Valid() && SlotAt(s, chains, b, i) && i < |chains[b]|
      modifies this`nEntries, this`chains, this`at, this`contents, table, at.Keys
      ensures Valid() && at.Keys <= old(at.Keys)
      ensures old(chains[b][i]).key in old(contents) && contents == old(contents) - {old(chains[b][i]).key}
      ensures found ==> SlotAt(s2, chains, b2, i2) && i2 < |chains[b2]|
                        && Rest(old(chains), b, i) == [old(chains)[b][i]] + Rest(chains, b2, i2)
      ensures !found ==> Rest(old(chains), b, i) == [old(chains)[b][i]]
    {
      hide Linked, Consistent, Nexts, Sized, Rest;
      SlotFacts(s, b, i);
      var e := Read(table, s);
      InItsBucket(e, b);
      var h := Index(hash, e.key, tableLength);
      RestNext(chains, b, i);
      var gone := Unhook(s, b, i);
      SlotFacts(s, b, i);
      var e2 := Read(table, s);
      if e2 != null {
        found, s2, b2, i2 := true, s, b, i;
      } else {
        RestEnd(chains, b, i);
        i2 := 0;
        found, s2, b2 := FromBucket(h + 1);
      }
    }

    // One step of a traversal.
    method Visit(s: Slot, met: seq<Elem>, keep: Answer, ghost b: nat, ghost i: nat)
      returns (e: Elem, found: bool, s2: Slot, ghost b2: nat, ghost i2: nat)
      requires Valid() && SlotAt(s, chains, b, i) && i < |chains[b]|
      modifies this`nEntries, this`chains, this`at, this`contents, table, at.Keys
      ensures Valid() && at.Keys <= old(at.Keys) && e == old(chains[b][i]) && e.key in old(contents)
          && old(contents)[e.key] == e
      ensures contents == if keep(met, e) then old(contents) else old(contents) - {e.key}
      ensures Rest(old(chains), b, i) == [e] + if found then Rest(chains, b2, i2) else []
      ensures found ==> SlotAt(s2, chains, b2, i2) && i2 < |chains[b2]|
    {
      hide Linked, Consistent, Nexts, Sized, Rest, Index;
      SlotFacts(s, b, i);
      e := Read(table, s);
      if keep(met, e) {
        found, s2, b2, i2 := Next(s, b, i);
      } else {
        found, s2, b2, i2 := NextRemove(s, b, i);
      }
    }

    // A traversal that removes what is not to be kept: it meets the elements in order, each once, and keeps the others.
    method Traverse(keep: Answer) returns (visited: seq<Elem>)
      requires Valid()
      modifies this`nEntries, this`chains, this`at, this`contents, table, at.Keys
      ensures Valid() && visited == Rest(old(chains), 0, 0)
      ensures contents == Chosen(old(contents), visited, keep)
    {
      hide Linked, Consistent, Nexts, Sized, Rest, Index, Kept, NoDuplicates;
      KeysMatch();
      KeptFirst(contents, keep);
      EachOnce();
      visited := [];
      var found, s;
      ghost var b: nat, i: nat := 0, 0;
      found, s, b := Start();
      while found
        invariant Valid() && at.Keys <= old(at.Keys)
        invariant found ==> SlotAt(s, chains, b, i) && i < |chains[b]|
        invariant visited + (if found then Rest(chains, b, i) else []) == Rest(old(chains), 0, 0)
        invariant Kept(old(contents), contents, visited, keep)
        decreases |Rest(old(chains), 0, 0)| - |visited|, found
      {
        ghost var before := contents;
        var e;
        e, found, s, b, i := Visit(s, visited, keep, b, i);
        NotMet(visited, e, if found then Rest(chains, b, i) else []);
        KeptStep(old(contents), before, visited, keep, e);
        Regroup(visited, e, if found then Rest(chains, b, i) else []);
        visited := visited + [e];
      }
      KeptLast(old(contents), contents, visited, keep);
    }

    // HT_FOREACH_FN, with a function that asks for the removal of some elements
    method ForeachFn(remove: Answer) returns (visited: seq<Elem>)
      requires Valid()
      modifies this`nEntries, this`chains, this`at, this`contents, table, at.Keys
      ensures Valid() && visited == Rest(old(chains), 0, 0)
      ensures contents == Chosen(old(contents), visited, Not(remove))
    {
      hide Linked, Consistent, Nexts, Sized, Rest, Index, Kept, NoDuplicates;
      KeysMatch();
      ghost var keep := Not(remove);
      KeptFirst(contents, keep);
      EachOnce();
      visited := [];
      var idx := 0;
      while idx < tableLength
        invariant Valid() && at.Keys <= old(at.Keys) && idx <= tableLength
        invariant visited + Rest(chains, idx, 0) == Rest(old(chains), 0, 0)
        invariant Kept(old(contents), contents, visited, keep)
      {
        ghost var c0, v0 := chains, visited;
        visited := ForeachIn(idx, remove, visited, old(contents));
        idx := idx + 1;
      }
      RestNone();
      KeptLast(old(contents), contents, visited, keep);
    }

    lemma RestNone()
      requires Valid()
      ensures Rest(chains, tableLength, 0) == []
    {
    }

    // One bucket of it
    method ForeachIn(idx: nat, remove: Answer, visited0: seq<Elem>, ghost c0: map<int, Elem>)
      returns (visited: seq<Elem>)
      requires NoDuplicates(visited0 + Rest(chains, idx, 0))
      requires Valid() && idx < tableLength && Kept(c0, contents, visited0, Not(remove))
      modifies this`nEntries, this`chains, this`at, this`contents, table, at.Keys
      ensures Valid() && at.Keys <= old(at.Keys)
      ensures visited + Rest(chains, idx + 1, 0) == visited0 + Rest(old(chains), idx, 0)
          && Kept(c0, contents, visited, Not(remove))
    {
      hide Linked, Consistent, Nexts, Sized, Rest, Index, Kept, NoDuplicates;
      ChainCount();
      visited := visited0;
      var s := Bucket(idx);
      ghost var i: nat := 0;
      SlotFacts(s, idx, i);
      var e := Read(table, s);
      while e != null
        invariant Valid() && at.Keys <= old(at.Keys) && SlotAt(s, chains, idx, i) && e == Nth(chains[idx], i)
        invariant visited + Rest(chains, idx, i) == visited0 + Rest(old(chains), idx, 0)
            && Kept(c0, contents, visited, Not(remove))
        decreases |chains[idx]| - i
      {
        SlotFacts(s, idx, i);
        RestNext(chains, idx, i);
        NotMet(visited, e, Rest(chains, idx, i + 1));
        KeptStep(c0, contents, visited, Not(remove), e);
        Regroup(visited, e, Rest(chains, idx, i + 1));
        var met := visited;
        visited := visited + [e];
        if remove(met, e) {
          var _ := Unhook(s, idx, i);
        } else {
          s, i := Link(e), i + 1;
        }
        SlotFacts(s, idx, i);
        e := Read(table, s);
      }
      RestEnd(chains, idx, i);
    }

    // What the representation check looks at, when the chains are lists that end.
    ghost predicate RepOk()
      requires primeIdx <= LAST
      reads this
    {
      if tableLength == 0 then nEntries == 0 && loadLimit == 0 && primeIdx == -1
      else
        && Sized(load, tableLength, loadLimit, primeIdx) && nEntries <= loadLimit && AllAtHash(hash, at, tableLength)
        && Total(chains) == nEntries
    }

    // A table in order passes the check unless it holds more than its limit.
    lemma ValidPasses()
      requires Valid()
      ensures primeIdx <= LAST && (RepOk() <==> nEntries <= loadLimit)
    {
      hide AllAtHash;
      Counted();
      InBuckets();
    }

    // HT_REP_IS_BAD
    method RepIsBad() returns (code: int)
      requires tableLength == table.Length && Linked(table[..], Nexts(at.Keys), chains, at) && primeIdx <= LAST
      ensures code == 0 <==> RepOk()
      ensures code >= 10000 ==>
          exists e {:trigger at[e]} :: e in at && at[e] == code - 10000 && !AtHash(hash, e.key, at[e], tableLength)
    {
      hide Linked, Nexts, Index, Limit, Prime, Total, AtHash, AllAtHash;
      HashedExactly(hash, at, tableLength);
      AsMany(table[..], Nexts(at.Keys), chains, at);
      if tableLength == 0 {
        return if table.Length == 0 && nEntries == 0 && loadLimit == 0 && primeIdx == -1 then 0 else 1;
      }
      if table.Length == 0 || primeIdx < 0 || loadLimit == 0 {
        return 2;
      }
      if nEntries > loadLimit {
        return 3;
      }
      if tableLength != Prime(primeIdx) {
        return 4;
      }
      if loadLimit != Limit(load, tableLength) {
        return 5;
      }
      var n := 0;
      NoTotal(chains[..0]);
      for i := 0 to tableLength
        invariant n == Total(chains[..i]) && forall e {:trigger at[e]} :: e in at && at[e] < i ==>
            at[e] == Index(hash, e.key, tableLength)
      {
        var k, bad := CountChain(i);
        if bad {
          ghost var e :| e in at && at[e] == i != Index(hash, e.key, tableLength);
          IndexExactly(hash, e.key, i, tableLength);
          return 10000 + i;
        }
        TotalNext(chains, i);
        n := n + k;
      }
      assert chains[..tableLength] == chains;
      HomesBelow(table[..], Nexts(at.Keys), chains, at);
      if n != nEntries {
        return 6;
      }
      code := 0;
    }

    // The inner loop of the check
    method CountChain(i: nat) returns (k: nat, bad: bool)
      requires tableLength == table.Length && Linked(table[..], Nexts(at.Keys), chains, at) && i < tableLength
          && |chains| == tableLength
      ensures bad ==> exists e {:trigger at[e]} :: e in at && at[e] == i != Index(hash, e.key, tableLength)
      ensures !bad ==> k == |chains[i]| && forall e {:trigger at[e]} :: e in at && at[e] == i ==>
          Index(hash, e.key, tableLength) == i
    {
      hide Linked, Nexts, Index;
      SlotHolds(table, Bucket(i), chains, at, i, 0);
      var elm := table[i];
      k, bad := 0, false;
      while elm != null
        invariant k <= |chains[i]| && elm == Nth(chains[i], k) && Settled(hash, chains[i], i, k, tableLength)
        decreases |chains[i]| - k
      {
        SlotHolds(table, Link(elm), chains, at, i, k + 1);
        if Index(hash, elm.key, tableLength) != i {
          return k, true;
        }
        k := k + 1;
        elm := elm.next;
      }
      SettledAll(hash, table[..], Nexts(at.Keys), chains, at, i);
    }
  }

  // ---- Any run over a pool of elements ----

  datatype Op = InsertOp(k: nat, alloc: Alloc) | ReplaceOp(k: nat, alloc: Alloc) | RemoveOp(key: int)

  // What became of a call. Skipped: an insertion of a key that is there, and a replacement by an element that is in
  // the table, are not asked for. The last two are calls in which grow would read past the primes, and those in which
  // there is no memory for a first array.
  datatype Outcome = Inserted | Replaced(r: Elem?) | Removed(e: Elem?) | Skipped | OutOfPrimes | NoMemory

  // Memory is there whenever it is asked for.
  predicate Granted(op: Op) {
    match op
    case InsertOp(_, alloc) => Grants(alloc)
    case ReplaceOp(_, alloc) => Grants(alloc)
    case RemoveOp(_) => true
  }

  // The abstract table, with the limit and the size of its array; the limit is 0 when there is none.
  datatype View = View(contents: map<int, Elem>, limit: nat, primeIdx: int)

  // Grow would be called, and find no prime.
  ghost predicate NoPrime(load: Load, v: View) {
    |v.contents| >= v.limit && v.primeIdx != LAST && |v.contents| + 1 >= Limit(load, Prime(LAST))
  }

  // With memory, a full table grows to the next size with room for one more.
  ghost predicate Enlarged(load: Load, v: View, alloc: Alloc, v2: View) {
    if |v.contents| >= v.limit && v.primeIdx < LAST && Grants(alloc)
    then NextAfter(load, v.primeIdx, |v.contents| + 1, v2.primeIdx) && v2.limit == Limit(load, Prime(v2.primeIdx))
    else v2.primeIdx == v.primeIdx && v2.limit == v.limit
  }

  // The call cannot be made.
  ghost predicate Stopped(load: Load, v: View, alloc: Alloc) {
    NoPrime(load, v) || (v.limit == 0 && !Grants(alloc))
  }

  // An element is put in the table, with the result given, unless the call cannot be made.
  ghost predicate PutIs(load: Load, v: View, e: Elem, alloc: Alloc, given: Outcome, r: Outcome, v2: View) {
    if Stopped(load, v, alloc) then v2 == v && r == if NoPrime(load, v) then OutOfPrimes else NoMemory
    else r == given && v2.contents == v.contents[e.key := e] && Enlarged(load, v, alloc, v2)
  }

  // What a call does.
  ghost predicate Step(load: Load, pool: seq<Elem>, v: View, op: Op, r: Outcome, v2: View) {
    match op
    case InsertOp(k, alloc) =>
      if k < |pool| && pool[k].key !in v.contents then PutIs(load, v, pool[k], alloc, Inserted, r, v2)
      else r == Skipped && v2 == v
    case ReplaceOp(k, alloc) =>
      if k < |pool| && At(v.contents, pool[k].key) != pool[k]
      then PutIs(load, v, pool[k], alloc, Replaced(At(v.contents, pool[k].key)), r, v2)
      else r == Skipped && v2 == v
    case RemoveOp(key) => r == Removed(At(v.contents, key)) && v2 == v.(contents := v.contents - {key})
  }

  ghost predicate Steps(load: Load, pool: seq<Elem>, ops: seq<Op>, results: seq<Outcome>, views: seq<View>) {
    && |results| == |ops| && |views| == |ops| + 1 && views[0] == View(map[], 0, -1)
    && forall i {:trigger ops[i]} :: 0 <= i < |ops| ==> Step(load, pool, views[i], ops[i], results[i], views[i + 1])
  }

  lemma StepsMore(load: Load, pool: seq<Elem>, ops: seq<Op>, results: seq<Outcome>, views: seq<View>,
      op: Op, r: Outcome, v: View)
    requires Steps(load, pool, ops, results, views) && Step(load, pool, views[|ops|], op, r, v)
    ensures Steps(load, pool, ops + [op], results + [r], views + [v])
  {
    hide Step;
    var ops1, rs1, vs1 := ops + [op], results + [r], views + [v];
    forall i {:trigger ops1[i]} | 0 <= i < |ops1| ensures Step(load, pool, vs1[i], ops1[i], rs1[i], vs1[i + 1]) {
      if i < |ops| {
        assert ops1[i] == ops[i] && rs1[i] == results[i] && vs1[i] == views[i] && vs1[i + 1] == views[i + 1];
      }
    }
  }

  // The table holds elements of the pool, and the others have no links.
  ghost predicate Running(t: Table, pool: seq<Elem>)
    reads t, t.table, t.at.Keys, pool
  {
    && t.Valid() && (forall e :: e in t.at ==> e in pool)
    && (forall e :: e in pool ==> e in t.at || e.next == null)
  }

  // Whatever is inserted, replaced and removed in whatever order, with or without memory, the table is what the calls
  // make of the abstract one, and passes the representation check if and only if it is not over its limit.
  method Run(hash: int -> nat, load: Load, pool: seq<Elem>, ops: seq<Op>)
    returns (t: Table, results: seq<Outcome>, ghost views: seq<View>)
    requires forall e :: e in pool ==> e.next == null
    modifies pool
    ensures fresh(t) && Running(t, pool) && t.load == load
    ensures Steps(load, pool, ops, results, views) && views[|ops|] == t.Look()
    ensures t.primeIdx <= LAST && (t.RepOk() <==> Passes(t.Look())) && AllAtHash(hash, t.at, t.tableLength)
  {
    hide Limit, Prime, Step, Steps, AllAtHash, Linked, Consistent, Nexts, Sized;
    t := new Table(hash, load);
    results, views := [], [t.Look()];
    NoSteps(load, pool, views);
    assert ops[..0] == [];
    assert Running(t, pool);
    hide Running, Passes;
    for n := 0 to |ops|
      invariant fresh(t) && fresh(t.table) && t.load == load && t.hash == hash && Running(t, pool)
      invariant Steps(load, pool, ops[..n], results, views) && |views| == n + 1 && views[n] == t.Look()
    {
      var r := PerformOne(t, pool, ops[n]);
      StepsMore(load, pool, ops[..n], results, views, ops[n], r, t.Look());
      assert ops[..n] + [ops[n]] == ops[..n + 1];
      results, views := results + [r], views + [t.Look()];
    }
    assert ops[..|ops|] == ops;
    RunningPasses(t, pool);
  }

  lemma RunningPasses(t: Table, pool: seq<Elem>)
    requires Running(t, pool)
    ensures t.primeIdx <= LAST && (t.RepOk() <==> Passes(t.Look())) && AllAtHash(t.hash, t.at, t.tableLength)
  {
    t.InBuckets();
    t.ValidPasses();
    t.Counted();
  }

  lemma NoSteps(load: Load, pool: seq<Elem>, views: seq<View>)
    requires views == [View(map[], 0, -1)]
    ensures Steps(load, pool, [], [], views)
  {
  }

  method PerformOne(t: Table, pool: seq<Elem>, op: Op) returns (r: Outcome)
    requires Running(t, pool)
    modifies t, t.table, pool
    ensures Running(t, pool) && Step(t.load, pool, old(t.Look()), op, r, t.Look())
    ensures t.table == old(t.table) || fresh(t.table)
  {
    hide Limit, Prime, Linked, Consistent, Index, Nexts, InRange, NextAfter, PutIs;
    r := Skipped;
    match op
    case InsertOp(k, alloc) =>
      if k < |pool| {
        var e := t.Find(pool[k].key);
        if e == null {
          r := InsertOne(t, pool, k, alloc);
        }
      }
    case ReplaceOp(k, alloc) =>
      if k < |pool| {
        var e := t.Find(pool[k].key);
        if e != pool[k] {
          r := ReplaceOne(t, pool, k, alloc);
        }
      }
    case RemoveOp(key) =>
      r := RemoveOne(t, pool, key);
  }

  lemma CallFacts(t: Table)
    requires t.Valid()
    ensures t.nEntries == |t.contents| && (t.tableLength == 0 <==> t.loadLimit == 0)
    ensures t.CallInRange() <==> !NoPrime(t.load, t.Look())
  {
    t.Counted();
  }

  lemma PutMade(load: Load, v: View, e: Elem, alloc: Alloc, given: Outcome, r: Outcome, v2: View, done: bool)
    requires !NoPrime(load, v) && (done <==> v.limit > 0 || Grants(alloc)) && Enlarged(load, v, alloc, v2)
    requires r == (if done then given else NoMemory)
    requires v2.contents == if done then v.contents[e.key := e] else v.contents
    ensures PutIs(load, v, e, alloc, given, r, v2)
  {
    hide NoPrime;
  }

  lemma PutStopped(load: Load, v: View, e: Elem, alloc: Alloc, given: Outcome)
    requires NoPrime(load, v)
    ensures PutIs(load, v, e, alloc, given, OutOfPrimes, v)
  {
    hide NoPrime;
  }

  method InsertOne(t: Table, pool: seq<Elem>, k: nat, alloc: Alloc) returns (r: Outcome)
    requires Running(t, pool) && k < |pool| && pool[k].key !in t.contents
    modifies t, t.table, pool
    ensures Running(t, pool) && (t.table == old(t.table) || fresh(t.table))
    ensures PutIs(t.load, old(t.Look()), pool[k], alloc, Inserted, r, t.Look())
  {
    hide Limit, Prime, Linked, Consistent, Index, Nexts, InRange, NextAfter, NoPrime, Enlarged, PutIs;
    ghost var v := t.Look();
    t.KnownElements();
    CallFacts(t);
    if t.CallInRange() {
      var done := t.Insert(pool[k], alloc);
      t.KnownElements();
      t.GrownIs(alloc);
      r := if done then Inserted else NoMemory;
      PutMade(t.load, v, pool[k], alloc, Inserted, r, t.Look(), done);
    } else {
      r := OutOfPrimes;
      PutStopped(t.load, v, pool[k], alloc, Inserted);
    }
  }

  method ReplaceOne(t: Table, pool: seq<Elem>, k: nat, alloc: Alloc) returns (r: Outcome)
    requires Running(t, pool) && k < |pool| && At(t.contents, pool[k].key) != pool[k]
    modifies t, t.table, pool
    ensures Running(t, pool) && (t.table == old(t.table) || fresh(t.table))
    ensures PutIs(t.load, old(t.Look()), pool[k], alloc, Replaced(At(old(t.contents), pool[k].key)), r, t.Look())
  {
    hide Limit, Prime, Linked, Consistent, Index, Nexts, InRange, NextAfter, NoPrime, Enlarged, PutIs;
    ghost var v := t.Look();
    t.KnownElements();
    CallFacts(t);
    if t.CallInRange() {
      var done, e := t.Replace(pool[k], alloc);
      t.KnownElements();
      t.GrownIs(alloc);
      r := if done then Replaced(e) else NoMemory;
      PutMade(t.load, v, pool[k], alloc, Replaced(At(v.contents, pool[k].key)), r, t.Look(), done);
    } else {
      r := OutOfPrimes;
      PutStopped(t.load, v, pool[k], alloc, Replaced(At(v.contents, pool[k].key)));
    }
  }

  lemma CountMore(m: map<int, Elem>, key: int, e: Elem)
    ensures |m[key := e]| == |m| + if key in m then 0 else 1
  {
    assert m[key := e].Keys == m.Keys + {key};
    assert |m[key := e].Keys| == |m[key := e]| && |m.Keys| == |m|;
  }

  lemma CountLess(m: map<int, Elem>, key: int)
    ensures |m - {key}| <= |m|
  {
    assert key in m ==> m == (m - {key})[key := m[key]];
    if key in m {
      CountMore(m - {key}, key, m[key]);
    } else {
      assert m - {key} == m;
    }
  }

  method RemoveOne(t: Table, pool: seq<Elem>, key: int) returns (r: Outcome)
    requires Running(t, pool)
    modifies t, t.table, pool
    ensures Running(t, pool) && r == Removed(At(old(t.contents), key)) && t.table == old(t.table)
    ensures t.Look() == old(t.Look()).(contents := old(t.contents) - {key})
  {
    hide Limit, Prime, Linked, Consistent, Index, Nexts, InRange;
    t.KnownElements();
    var e := t.Remove(key);
    t.KnownElements();
    r := Removed(e);
  }

  // ---- When the representation check passes all along a run ----

  predicate Passes(v: View) {
    |v.contents| <= v.limit
  }

  // What holds of the size in every state of a run.
  ghost predicate SizeOk(load: Load, v: View) {
    if v.limit == 0 then v.contents == map[] && v.primeIdx == -1
    else v.limit > 1 && 0 <= v.primeIdx <= LAST && v.limit == Limit(load, Prime(v.primeIdx))
  }

  // Before the call: it adds no entry, or there is room for it within the limit, or memory for a larger array.
  ghost predicate Fits(load: Load, pool: seq<Elem>, v: View, op: Op) {
    match op
    case InsertOp(k, alloc) => k >= |pool| || pool[k].key in v.contents || HasPlace(load, v, alloc)
    case ReplaceOp(k, alloc) => k >= |pool| || pool[k].key in v.contents || HasPlace(load, v, alloc)
    case RemoveOp(_) => true
  }

  ghost predicate HasPlace(load: Load, v: View, alloc: Alloc) {
    Stopped(load, v, alloc) || |v.contents| < v.limit || (v.primeIdx < LAST && Grants(alloc))
  }

  lemma PutSize(load: Load, v: View, e: Elem, alloc: Alloc, given: Outcome, r: Outcome, v2: View)
    requires PutIs(load, v, e, alloc, given, r, v2) && SizeOk(load, v)
    ensures SizeOk(load, v2)
    ensures Passes(v) ==> (Passes(v2) <==> e.key in v.contents || HasPlace(load, v, alloc))
  {
    hide Limit, Prime;
    CountMore(v.contents, e.key, e);
  }

  lemma StepSize(load: Load, pool: seq<Elem>, v: View, op: Op, r: Outcome, v2: View)
    requires Step(load, pool, v, op, r, v2) && SizeOk(load, v)
    ensures SizeOk(load, v2)
    ensures Passes(v) ==> (Passes(v2) <==> Fits(load, pool, v, op))
  {
    hide PutIs, Limit, Prime, HasPlace, Stopped;
    match op
    case InsertOp(k, alloc) =>
      if k < |pool| && pool[k].key !in v.contents {
        PutSize(load, v, pool[k], alloc, Inserted, r, v2);
      }
    case ReplaceOp(k, alloc) =>
      if k < |pool| && At(v.contents, pool[k].key) != pool[k] {
        PutSize(load, v, pool[k], alloc, Replaced(At(v.contents, pool[k].key)), r, v2);
      }
    case RemoveOp(key) =>
      CountLess(v.contents, key);
  }

  // The table passes the check after every call, up to the n-th, if and only if each of them fits.
  lemma {:induction false} PassesExactly(load: Load, pool: seq<Elem>, ops: seq<Op>, results: seq<Outcome>,
      views: seq<View>, n: nat)
    requires Steps(load, pool, ops, results, views) && n <= |ops|
    ensures SizeOk(load, views[n])
    ensures (forall i {:trigger views[i]} :: 0 <= i <= n ==> Passes(views[i])) <==>
            (forall i {:trigger ops[i]} :: 0 <= i < n ==> Fits(load, pool, views[i], ops[i]))
  {
    hide Step, SizeOk, Fits, Passes;
    if n > 0 {
      PassesExactly(load, pool, ops, results, views, n - 1);
      assert Step(load, pool, views[n - 1], ops[n - 1], results[n - 1], views[n]);
      StepSize(load, pool, views[n - 1], ops[n - 1], results[n - 1], views[n]);
    } else {
      NewSize(load);
    }
  }

  lemma NewSize(load: Load)
    ensures SizeOk(load, View(map[], 0, -1)) && Passes(View(map[], 0, -1))
  {
  }

  predicate AllGranted(ops: seq<Op>) {
    forall i {:trigger ops[i]} :: 0 <= i < |ops| ==> Granted(ops[i])
  }

  // A table that is not over its limit calls grow in range, unless the load factor runs out of primes.
  lemma NoneStopped(load: Load, v: View, alloc: Alloc)
    requires SizeOk(load, v) && (v.primeIdx == LAST || Passes(v)) && !RunsOut(load) && Grants(alloc)
    ensures !Stopped(load, v, alloc)
  {
    hide Limit, Prime, RunsOut, InRange;
    CallsInRange(load);
    if |v.contents| >= v.limit && v.primeIdx != LAST {
      InRangeExactly(load, v.primeIdx, |v.contents| + 1);
    }
  }

  lemma StepGranted(load: Load, pool: seq<Elem>, v: View, op: Op, r: Outcome, v2: View)
    requires Step(load, pool, v, op, r, v2) && SizeOk(load, v) && Granted(op) && !RunsOut(load)
    requires v.primeIdx == LAST || Passes(v)
    ensures r != OutOfPrimes && r != NoMemory && (v2.primeIdx == LAST || Passes(v2))
  {
    hide Limit, Prime, RunsOut;
    match op
    case InsertOp(k, alloc) =>
      NoneStopped(load, v, alloc);
      if k < |pool| {
        CountMore(v.contents, pool[k].key, pool[k]);
      }
    case ReplaceOp(k, alloc) =>
      NoneStopped(load, v, alloc);
      if k < |pool| {
        CountMore(v.contents, pool[k].key, pool[k]);
      }
    case RemoveOp(key) =>
      CountLess(v.contents, key);
  }

  // With memory, unless the load factor runs out of primes, each call is made, and the table passes the check until it
  // has the last size.
  lemma {:induction false} GrantedRun(load: Load, pool: seq<Elem>, ops: seq<Op>, results: seq<Outcome>,
      views: seq<View>, n: nat)
    requires Steps(load, pool, ops, results, views) && n <= |ops| && AllGranted(ops) && !RunsOut(load)
    ensures OutOfPrimes !in results[..n] && NoMemory !in results[..n]
    ensures views[n].primeIdx == LAST || Passes(views[n])
  {
    hide Step, SizeOk, RunsOut, Passes;
    if n > 0 {
      GrantedRun(load, pool, ops, results, views, n - 1);
      PassesExactly(load, pool, ops, results, views, n - 1);
      assert Step(load, pool, views[n - 1], ops[n - 1], results[n - 1], views[n]);
      assert Granted(ops[n - 1]);
      StepGranted(load, pool, views[n - 1], ops[n - 1], results[n - 1], views[n]);
      assert results[..n] == results[..n - 1] + [results[n - 1]];
    } else {
      NewSize(load);
    }
  }

  // ---- Two runs that go wrong ----

  // A table of i elements, whose keys are all below i.
  ghost predicate Filled(t: Table, i: nat)
    reads t, t.table, t.at.Keys
  {
    && t.Valid() && t.Roomy() && t.tableLength > 0 && t.nEntries == |t.contents| == i
    && forall k :: k in t.contents ==> k < i
  }

  // One more, when there is no memory to grow.
  method AddNext(t: Table, i: nat)
    requires Filled(t, i) && i <= t.loadLimit && !RunsOut(t.load)
    modifies t, t.table, t.at.Keys
    ensures Filled(t, i + 1) && t.loadLimit == old(t.loadLimit) && t.table == old(t.table)
    ensures fresh(t.at.Keys - old(t.at.Keys)) && t.primeIdx <= LAST && (t.RepOk() <==> i < t.loadLimit)
  {
    hide Linked, Consistent, Index, Nexts, Limit, Prime, InRange, RunsOut, NextAfter;
    ghost var before := t.contents;
    var e := new Elem(i);
    t.AlwaysInRange();
    t.KnownElements();
    var _ := t.Insert(e, Alloc(false, false));
    t.KnownElements();
    CountMore(before, i, e);
  }

  // For every other load factor: a table that was full when there was no memory to grow is over its limit, and fails
  // the representation check.
  method OverFill(hash: int -> nat, load: Load) returns (t: Table)
    requires !RunsOut(load)
    ensures fresh(t) && t.Valid() && t.load == load && t.nEntries == t.loadLimit + 1
    ensures t.primeIdx <= LAST && !t.RepOk()
  {
    hide Linked, Consistent, Index, Nexts, Limit, Prime, InRange, RunsOut, NextAfter;
    t := new Table(hash, load);
    var e := new Elem(0);
    t.AlwaysInRange();
    t.Counted();
    label First:
    var _ := t.Insert(e, Alloc(true, true));
    t.GrownRoomy@First(Alloc(true, true));
    t.KnownElements();
    var i := 1;
    while i <= t.loadLimit
      invariant Filled(t, i) && fresh(t) && fresh(t.table) && fresh(t.at.Keys) && t.load == load
      invariant i <= t.loadLimit + 1 && t.primeIdx <= LAST && (t.RepOk() <==> i <= t.loadLimit)
      decreases t.loadLimit + 1 - i
    {
      hide Filled;
      AddNext(t, i);
      i := i + 1;
    }
  }

  // For each load factor that runs out of primes, with all the memory it asks for: a table within its limit whose next
  // insertion makes grow read past the primes.
  method RunOut(hash: int -> nat, load: Load) returns (t: Table)
    requires RunsOut(load)
    ensures fresh(t) && t.Valid() && t.load == load && t.nEntries == t.loadLimit && t.nEntries <= 2
    ensures t.primeIdx < LAST && !InRange(load, t.primeIdx, t.nEntries + 1)
  {
    hide Linked, Consistent, Index, Nexts, Limit, Prime, InRange;
    t := new Table(hash, load);
    InRangeExactly(load, -1, 1);
    if Limit(load, Prime(LAST)) > 1 {
      var e1 := new Elem(1);
      var e2 := new Elem(2);
      t.CallInRangeExactly();
      t.Counted();
      var _ := t.Insert(e1, Alloc(true, true));
      GrowsToLastButOne(load, t.primeIdx);
      t.SizedIs();
      CountMore(map[], 1, e1);
      t.KnownElements();
      assert t.at.Keys <= {e1};
      var _ := t.Insert(e2, Alloc(true, true));
      t.SizedIs();
      InRangeExactly(load, LAST - 1, 3);
    } else {
      t.SizedIs();
      t.Counted();
    }
  }

  lemma GrowsToLastButOne(load: Load, primeIdx: int)
    requires Limit(load, Prime(LAST - 1)) == 2 && Limit(load, Prime(LAST)) == 3 && NextAfter(load, -1, 1, primeIdx)
    ensures primeIdx == LAST - 1
  {
    hide Limit, Prime;
    if primeIdx < LAST - 1 {
      LimitsApart(load, primeIdx);
    }
  }
}
