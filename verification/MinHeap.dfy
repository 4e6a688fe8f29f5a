// The binary heap of timers: each event knows its place in the array, so that
// any event can be erased, not only the first.
module MinHeap {
  datatype Time = Time(sec: int, usec: int)

  // A time whose microseconds are those of one second.
  predicate Normal(t: Time) {
    0 <= t.usec < 1000000
  }

  function Micros(t: Time): int {
    t.sec * 1000000 + t.usec
  }

  // evutil_timercmp with >
  predicate Later(a: Time, b: Time): (r: bool)
    ensures Normal(a) && Normal(b) ==> (r <==> Micros(a) > Micros(b))
  {
    if a.sec == b.sec then a.usec > b.usec else a.sec > b.sec
  }

  // The event e is in s, and none there is due before it: none in an earlier second, nor earlier in the same one.
  ghost predicate LeastOf(e: Event, s: set<Event>) {
    && e in s
    && (forall f :: f in s && Normal(e.timeout) && Normal(f.timeout) ==> Micros(e.timeout) <= Micros(f.timeout))
    && forall f :: f in s ==>
        e.timeout.sec < f.timeout.sec || (e.timeout.sec == f.timeout.sec && e.timeout.usec <= f.timeout.usec)
  }

  class Event {
    const timeout: Time
    var idx: int

    // min_heap_elem_init
    constructor (timeout: Time)
      ensures idx == -1 && this.timeout == timeout
    {
      this.timeout := timeout;
      idx := -1;
    }
  }

  // The parent of an index, in 32-bit unsigned arithmetic.
  function Parent(i: nat): nat {
    if i == 0 then 0x7FFF_FFFF else (i - 1) / 2
  }

  function TimeOf(e: Event?): Time {
    if e == null then Time(0, 0) else e.timeout
  }

  // ---- Heap order with a hole ----

  // The event at i is no earlier than the one at j.
  predicate NoEarlier(s: seq<Event?>, i: nat, j: nat) {
    i < |s| && j < |s| ==> !Later(TimeOf(s[j]), TimeOf(s[i]))
  }

  ghost predicate Ordered(s: seq<Event?>) {
    forall i {:trigger Parent(i)} :: 0 < i < |s| ==> NoEarlier(s, i, Parent(i))
  }

  // The order holds away from the hole, and across it, from the event above to those below.
  ghost predicate OrderedAround(s: seq<Event?>, hole: nat) {
    && (forall i {:trigger Parent(i)} :: 0 < i < |s| && i != hole && Parent(i) != hole ==> NoEarlier(s, i, Parent(i)))
    && (forall i {:trigger Parent(i)} :: 0 < i < |s| && Parent(i) == hole && 0 < hole ==> NoEarlier(s, i, Parent(hole)))
  }

  ghost predicate AboveChildren(s: seq<Event?>, hole: nat, e: Event) {
    forall i {:trigger Parent(i)} :: 0 < i < |s| && Parent(i) == hole ==> !Later(e.timeout, TimeOf(s[i]))
  }

  predicate BelowParent(s: seq<Event?>, hole: nat, e: Event) {
    0 < hole < |s| ==> !Later(TimeOf(s[Parent(hole)]), e.timeout)
  }

  lemma UpStep(s: seq<Event?>, hole: nat, e: Event)
    requires OrderedAround(s, hole) && AboveChildren(s, hole, e) && 0 < hole < |s|
    ensures Parent(hole) < hole
    ensures Later(TimeOf(s[Parent(hole)]), e.timeout) ==>
      var s2 := s[hole := s[Parent(hole)]]; OrderedAround(s2, Parent(hole)) && AboveChildren(s2, Parent(hole), e)
  {
  }

  lemma HoleFilled(s: seq<Event?>, hole: nat, e: Event)
    requires OrderedAround(s, hole) && AboveChildren(s, hole, e) && hole < |s| && BelowParent(s, hole, e)
    ensures Ordered(s[hole := e])
  {
  }

  lemma DownStep(s: seq<Event?>, hole: nat, child: nat, e: Event)
    requires OrderedAround(s, hole) && BelowParent(s, hole, e) && hole < child < |s| && Parent(child) == hole
    requires forall i {:trigger Parent(i)} :: 0 < i < |s| && Parent(i) == hole ==> NoEarlier(s, i, child)
    ensures Later(e.timeout, TimeOf(s[child])) ==>
      var s2 := s[hole := s[child]]; OrderedAround(s2, child) && BelowParent(s2, child, e)
    ensures !Later(e.timeout, TimeOf(s[child])) ==> AboveChildren(s, hole, e)
  {
  }

  lemma HoleOutside(s: seq<Event?>, hole: nat, e: Event)
    requires OrderedAround(s, hole)
    ensures hole >= |s| ==> Ordered(s)
    ensures 2 * hole + 1 >= |s| ==> AboveChildren(s, hole, e)
  {
  }

  lemma LesserChild(s: seq<Event?>, hole: nat, child: nat)
    requires child < |s| && (child == 2 * hole + 1 || child == 2 * hole + 2)
    requires child == 2 * hole + 1 && 2 * hole + 2 < |s| ==> NoEarlier(s, 2 * hole + 2, child)
    requires child == 2 * hole + 2 ==> NoEarlier(s, 2 * hole + 1, child)
    ensures hole < child && Parent(child) == hole
    ensures forall i {:trigger Parent(i)} :: 0 < i < |s| && Parent(i) == hole ==> NoEarlier(s, i, child)
  {
  }

  lemma NoLaterThen(a: Time, b: Time, c: Time)
    requires !Later(a, b) && !Later(b, c)
    ensures !Later(a, c)
  {
  }

  // The first event of an ordered heap is a least one.
  lemma {:induction false} FirstIsLeast(s: seq<Event?>, i: nat)
    requires Ordered(s) && i < |s|
    ensures !Later(TimeOf(s[0]), TimeOf(s[i]))
  {
    if i > 0 {
      FirstIsLeast(s, Parent(i));
      assert NoEarlier(s, i, Parent(i));
      hide Later, Ordered, TimeOf;
      NoLaterThen(TimeOf(s[0]), TimeOf(s[Parent(i)]), TimeOf(s[i]));
    }
  }

  // What replaces an erased event never has to move both ways.
  lemma NeverBothWays(s: seq<Event?>, hole: nat, e: Event)
    requires Ordered(s) && 0 < hole < |s| && Later(TimeOf(s[Parent(hole)]), e.timeout)
    ensures AboveChildren(s, hole, e)
  {
    assert NoEarlier(s, hole, Parent(hole));
  }

  lemma LastAdded(s: seq<Event?>, s0: seq<Event?>, e: Event)
    requires |s| == |s0| + 1 && s[..|s0|] == s0 && Ordered(s0)
    ensures OrderedAround(s, |s0|) && AboveChildren(s, |s0|, e)
  {
    forall i {:trigger Parent(i)} | 0 < i < |s| && i != |s0| ensures NoEarlier(s, i, Parent(i)) {
      assert NoEarlier(s0, i, Parent(i)) && s[i] == s0[i] && s[Parent(i)] == s0[Parent(i)];
    }
  }

  // Without its last event, and with a hole where one is erased, the heap is ordered around the hole; the last event
  // can be sifted up from there if it is earlier than the one above, and down otherwise.
  lemma Removed(s: seq<Event?>, hole: nat, last: Event)
    requires Ordered(s) && hole < |s|
    ensures var t := s[..|s| - 1];
      && OrderedAround(t, hole) && Ordered(t)
      && (0 < hole < |t| && Later(TimeOf(t[Parent(hole)]), last.timeout) ==> AboveChildren(t, hole, last))
      && (hole == |t| && 0 < hole && last == s[hole] ==> !Later(TimeOf(t[Parent(hole)]), last.timeout))
      && (hole < |t| && !(hole > 0 && Later(TimeOf(t[Parent(hole)]), last.timeout)) ==> BelowParent(t, hole, last))
      && (hole == |t| ==> BelowParent(t, hole, last))
  {
    var t := s[..|s| - 1];
    forall i {:trigger Parent(i)} | 0 < i < |t| ensures NoEarlier(t, i, Parent(i)) {
      assert NoEarlier(s, i, Parent(i)) && s[i] == t[i] && s[Parent(i)] == t[Parent(i)];
    }
    OrderedThrough(t, hole);
    if 0 < hole < |t| && Later(TimeOf(t[Parent(hole)]), last.timeout) {
      NeverBothWays(t, hole, last);
    }
    if 0 < hole {
      assert NoEarlier(s, hole, Parent(hole));
    }
  }

  lemma OrderedThrough(s: seq<Event?>, hole: nat)
    requires Ordered(s)
    ensures OrderedAround(s, hole)
  {
    forall i {:trigger Parent(i)} | 0 < i < |s| && Parent(i) == hole && 0 < hole ensures NoEarlier(s, i, Parent(hole)) {
      assert NoEarlier(s, i, hole) && NoEarlier(s, hole, Parent(hole));
    }
  }

  class MinHeap {
    var p: array<Event?>
    var n: nat
    // The events in the heap.
    ghost var members: set<Event>

    // Each member is at its index, and the places up to n hold members, but for the hole, which is left for e.
    ghost predicate Placed(hole: nat, e: Event)
      reads this, p, members
    {
      && n <= p.Length
      && (forall i {:trigger p[i]} :: 0 <= i < n && i != hole ==>
          p[i] != null && p[i] in members && p[i] != e && p[i].idx == i)
      && (forall f :: f in members && f != e ==> 0 <= f.idx < n && f.idx != hole && p[f.idx] == f)
    }

    ghost predicate Valid()
      reads this, p, members
    {
      && n <= p.Length && Ordered(p[..n])
      && (forall i {:trigger p[i]} :: 0 <= i < n ==> p[i] != null && p[i] in members && p[i].idx == i)
      && (forall f :: f in members ==> 0 <= f.idx < n && p[f.idx] == f)
    }

    // min_heap_ctor
    constructor ()
      ensures Valid() && members == {} && fresh(p)
    {
      p := new Event?[0];
      n := 0;
      members := {};
    }

    // The event at an index moves into the hole, and leaves its own place.
    method Move(hole: nat, from: nat, ghost e: Event)
      requires Placed(hole, e) && hole < n && from < n && from != hole
      modifies p, members`idx
      ensures Placed(from, e) && p[..n] == old(p[..n])[hole := old(p[from])]
    {
      var f := p[from];
      p[hole] := f;
      f.idx := hole;
    }

    method Fill(hole: nat, e: Event)
      requires Placed(hole, e) && hole <= n && hole < p.Length && (hole < n <==> e in members)
      requires Ordered(if hole < n then p[..n][hole := e] else p[..n])
      modifies p, e`idx
      ensures Valid()
    {
      ghost var s := p[..n];
      p[hole] := e;
      assert p[..n] == if hole < n then s[hole := e] else s;
      hide Ordered;
      e.idx := hole;
    }

    // min_heap_shift_up_
    method ShiftUp(hole0: nat, e: Event)
      requires Placed(hole0, e) && hole0 < n && e in members
      requires OrderedAround(p[..n], hole0) && AboveChildren(p[..n], hole0, e)
      modifies p, members`idx
      ensures Valid()
    {
      hide Ordered, OrderedAround, AboveChildren;
      var hole: nat := hole0;
      var parent := Parent(hole);
      while hole > 0 && Later(p[parent].timeout, e.timeout)
        invariant Placed(hole, e) && hole < n && parent == Parent(hole)
        invariant OrderedAround(p[..n], hole) && AboveChildren(p[..n], hole, e)
        decreases hole
      {
        UpStep(p[..n], hole, e);
        Move(hole, parent, e);
        hole := parent;
        parent := Parent(hole);
      }
      HoleFilled(p[..n], hole, e);
      Fill(hole, e);
    }

    // min_heap_shift_down_
    method ShiftDown(hole0: nat, e: Event)
      requires Placed(hole0, e) && hole0 <= n && hole0 < p.Length && (hole0 < n <==> e in members)
      requires OrderedAround(p[..n], hole0) && BelowParent(p[..n], hole0, e)
      modifies p, members`idx, e`idx
      ensures Valid()
    {
      hide Ordered, OrderedAround, AboveChildren, BelowParent;
      var hole: nat := hole0;
      var minChild := 2 * (hole + 1);
      while minChild <= n
        invariant Placed(hole, e) && hole <= n && hole < p.Length && minChild == 2 * (hole + 1)
            && (hole < n <==> e in members)
        invariant OrderedAround(p[..n], hole) && BelowParent(p[..n], hole, e)
        decreases n - hole
      {
        minChild := minChild - if minChild == n || Later(p[minChild].timeout, p[minChild - 1].timeout) then 1 else 0;
        LesserChild(p[..n], hole, minChild);
        DownStep(p[..n], hole, minChild, e);
        if !Later(e.timeout, p[minChild].timeout) {
          break;
        }
        Move(hole, minChild, e);
        hole := minChild;
        minChild := 2 * (hole + 1);
      }
      HoleOutside(p[..n], hole, e);
      if hole < n {
        HoleFilled(p[..n], hole, e);
      }
      Fill(hole, e);
    }

    // min_heap_reserve; granted says whether there is memory for a larger array.
    method Reserve(m: nat, granted: bool) returns (ok: bool)
      requires Valid()
      modifies this`p
      ensures Valid() && (ok ==> m <= p.Length) && (p == old(p) || fresh(p))
          && (!ok || old(p.Length) >= m ==> p == old(p))
      ensures ok <==> old(p.Length) >= m || granted
      ensures p != old(p) ==> var a := if old(p.Length) == 0 then 8 else 2 * old(p.Length);
          p.Length == if a < m then m else a
    {
      ok := true;
      if p.Length < m {
        var a := if p.Length > 0 then p.Length * 2 else 8;
        if a < m {
          a := m;
        }
        if !granted {
          return false;
        }
        var q := new Event?[a];
        forall i | 0 <= i < p.Length {
          q[i] := p[i];
        }
        assert q[..n] == p[..n];
        p := q;
      }
    }

    // min_heap_push
    method Push(e: Event, granted: bool) returns (ok: bool)
      requires Valid() && e.idx == -1
      modifies this, p, members`idx, e`idx
      ensures Valid() && (p == old(p) || fresh(p)) && (ok <==> old(n) < old(p.Length) || granted)
      ensures members == (if ok then old(members) + {e} else old(members)) && (!ok ==> e.idx == -1)
    {
      ok := Reserve(n + 1, granted);
      if ok {
        var hole := n;
        ghost var s := p[..n];
        n := n + 1;
        members := members + {e};
        assert p[..n][..hole] == s;
        LastAdded(p[..n], s, e);
        hide Ordered, OrderedAround, AboveChildren;
        ShiftUp(hole, e);
      }
    }

    // min_heap_pop
    method Pop() returns (e: Event?)
      requires Valid()
      modifies this, p, members`idx
      ensures Valid() && p == old(p) && (e == null <==> old(members) == {})
      ensures e == null ==> members == old(members)
      ensures e != null ==> e in old(members) && members == old(members) - {e} && e.idx == -1
      ensures e != null ==> LeastOf(e, old(members))
    {
      e := null;
      if n > 0 {
        e := p[0];
        FirstOfAll();
        ghost var s := p[..n];
        n := n - 1;
        members := members - {e};
        assert p[..n] == s[..n];
        Removed(s, 0, p[n]);
        hide Ordered, OrderedAround, BelowParent;
        ShiftDown(0, p[n]);
        e.idx := -1;
      } else {
        NoMembers();
      }
    }

    lemma FirstOfAll()
      requires Valid() && n > 0
      ensures p[0] != null && LeastOf(p[0], members)
    {
      forall f | f in members ensures !Later(p[0].timeout, f.timeout) {
        FirstIsLeast(p[..n], f.idx);
        assert p[..n][f.idx] == f;
      }
    }

    lemma NoMembers()
      requires Valid() && n == 0
      ensures members == {}
    {
      assert forall f :: f !in members;
    }

    // min_heap_erase: the last event takes the place of the erased one, moving up or down.
    method Erase(e: Event) returns (ok: bool)
      requires Valid() && (e in members || e.idx == -1)
      modifies this, p, members`idx
      ensures Valid() && p == old(p) && (ok <==> e in old(members)) && members == old(members) - {e} && e.idx == -1
    {
      if e.idx != -1 {
        Shift(e, e.idx);
        e.idx := -1;
        return true;
      }
      return false;
    }

    method Shift(e: Event, hole: nat)
      requires Valid() && e in members && hole == e.idx
      modifies this`n, this`members, p, members`idx
      ensures Valid() && members == old(members) - {e}
    {
      ghost var s := p[..n];
      n := n - 1;
      var last := p[n];
      var parent := (hole - 1) / 2;
      members := members - {e};
      assert p[..n] == s[..n];
      Removed(s, hole, last);
      hide Ordered, OrderedAround, BelowParent, AboveChildren;
      if hole > 0 && Later(p[parent].timeout, last.timeout) {
        ShiftUp(hole, last);
      } else {
        ShiftDown(hole, last);
      }
    }
  }

  // ---- Any run over a pool of events ----

  datatype Op = PushOp(k: nat, granted: bool) | PopOp | EraseOp(k: nat)

  // The events of the pool that are in the heap are its members, and the others hold -1.
  ghost predicate Known(heap: MinHeap, pool: seq<Event>)
    reads heap, heap.p, heap.members, pool
  {
    && heap.Valid() && (forall f :: f in heap.members ==> f in pool)
    && (forall k {:trigger pool[k]} :: 0 <= k < |pool| ==> (pool[k].idx == -1 <==> pool[k] !in heap.members))
  }

  // What a call returned: whether a push or an erase did it, the event popped, and Skipped for a call not made.
  datatype Outcome = Pushed(ok: bool) | Popped(e: Event?) | Erased(ok: bool) | Skipped

  // What a call does to a priority queue. An event is pushed only when it is in no heap, and erased if it is in this
  // one; a push fails only when there is no memory.
  ghost predicate Step(pool: seq<Event>, was: set<Event>, op: Op, r: Outcome, now: set<Event>) {
    match op
    case PushOp(k, granted) =>
      if k < |pool| && pool[k] !in was then
        r.Pushed? && now == (if r.ok then was + {pool[k]} else was) && (granted ==> r.ok)
      else r == Skipped && now == was
    case PopOp => r.Popped? && if r.e == null then was == {} == now else LeastOf(r.e, was) && now == was - {r.e}
    case EraseOp(k) =>
      if k < |pool| then r == Erased(pool[k] in was) && now == was - {pool[k]} else r == Skipped && now == was
  }

  ghost predicate Steps(pool: seq<Event>, ops: seq<Op>, results: seq<Outcome>, views: seq<set<Event>>) {
    && |results| == |ops| && |views| == |ops| + 1 && views[0] == {}
    && forall i {:trigger ops[i]} :: 0 <= i < |ops| ==> Step(pool, views[i], ops[i], results[i], views[i + 1])
  }

  // Whatever is pushed, popped and erased in whatever order, the heap is a priority queue: each view, the set of events
  // in it, follows from the one before, and each event popped is a least one of its view. In the end each event in the
  // heap holds its index, and each other holds -1.
  method Run(pool: seq<Event>, ops: seq<Op>)
    returns (heap: MinHeap, results: seq<Outcome>, ghost views: seq<set<Event>>)
    requires forall k {:trigger pool[k]} :: 0 <= k < |pool| ==> pool[k].idx == -1
    modifies pool
    ensures fresh(heap) && Known(heap, pool)
    ensures Steps(pool, ops, results, views) && views[|ops|] == heap.members
  {
    heap := new MinHeap();
    results := [];
    views := [heap.members];
    for i := 0 to |ops|
      invariant fresh(heap) && fresh(heap.p) && Known(heap, pool)
      invariant Steps(pool, ops[..i], results, views) && views[i] == heap.members
    {
      ghost var was := heap.members;
      var r := Perform(heap, pool, ops[i]);
      StepsMore(pool, ops[..i], results, views, ops[i], r, heap.members);
      assert ops[..i] + [ops[i]] == ops[..i + 1];
      results := results + [r];
      views := views + [heap.members];
    }
    assert ops[..|ops|] == ops;
  }

  method Perform(heap: MinHeap, pool: seq<Event>, op: Op) returns (r: Outcome)
    requires Known(heap, pool)
    modifies heap, heap.p, pool
    ensures Known(heap, pool) && (heap.p == old(heap.p) || fresh(heap.p))
    ensures Step(pool, old(heap.members), op, r, heap.members)
  {
    r := Skipped;
    match op
    case PushOp(k, granted) =>
      if k < |pool| && pool[k].idx == -1 {
        var ok := heap.Push(pool[k], granted);
        r := Pushed(ok);
      }
    case PopOp =>
      var e := heap.Pop();
      r := Popped(e);
    case EraseOp(k) =>
      if k < |pool| {
        var ok := heap.Erase(pool[k]);
        r := Erased(ok);
      }
  }

  lemma StepsMore(pool: seq<Event>, ops: seq<Op>, results: seq<Outcome>, views: seq<set<Event>>,
      op: Op, r: Outcome, now: set<Event>)
    requires Steps(pool, ops, results, views) && Step(pool, views[|ops|], op, r, now)
    ensures Steps(pool, ops + [op], results + [r], views + [now])
  {
    hide Step;
    var ops1, rs1, vs1 := ops + [op], results + [r], views + [now];
    forall i {:trigger ops1[i]} | 0 <= i < |ops1| ensures Step(pool, vs1[i], ops1[i], rs1[i], vs1[i + 1]) {
      if i < |ops| {
        assert ops1[i] == ops[i] && rs1[i] == results[i] && vs1[i] == views[i] && vs1[i + 1] == views[i + 1];
      }
    }
  }
}
