// Taking two locks in the order of their addresses: any number of threads
// that take pairs this way, one pair at a time, never block one another for good.
module LockPair {
  // A lock is its address, and 0 is the null pointer, which stands for no lock.
  type Lock = nat
  type Tid = nat

  // The order in which a pair is taken.
  function Sorted(x: Lock, y: Lock): (Lock, Lock) {
    if x != 0 && y != 0 && x > y then (y, x) else (x, y)
  }

  // _EVLOCK_SORTLOCKS
  method SortLocks(lock1: Lock, lock2: Lock) returns (a: Lock, b: Lock)
    ensures multiset{a, b} == multiset{lock1, lock2}
    ensures a != 0 && b != 0 ==> a <= b
    ensures lock1 == 0 || lock2 == 0 || lock1 <= lock2 ==> a == lock1 && b == lock2
    ensures (a, b) == Sorted(lock1, lock2)
  {
    a, b := lock1, lock2;
    if a != 0 && b != 0 && a > b {
      var tmp := a;
      a := b;
      b := tmp;
    }
  }

  // The same two locks in whichever order they are named, unless one is null.
  lemma SortedAlike(x: Lock, y: Lock)
    ensures Sorted(x, y) == Sorted(y, x) <==> (x != 0 && y != 0) || x == y
    ensures forall a, b :: a != 0 && b != 0 && a <= b && multiset{a, b} == multiset{x, y} ==> Sorted(x, y) == (a, b)
  {
    forall a, b | a != 0 && b != 0 && a <= b && multiset{a, b} == multiset{x, y} ensures Sorted(x, y) == (a, b) {
      assert x in multiset{a, b} && y in multiset{a, b} && a in multiset{x, y} && b in multiset{x, y};
    }
  }

  // Where a thread is: between the calls, about to take the first or second lock of a pair, between LOCK2 and UNLOCK2,
  // or about to give the second or first lock back; x and y are the pair as the call names it. A thread may finish when
  // it is between the calls.
  datatype Thread = Idle | TakeFirst(x: Lock, y: Lock) | TakeSecond(x: Lock, y: Lock) | Inside(x: Lock, y: Lock)
                  | GiveSecond(x: Lock, y: Lock) | GiveFirst(x: Lock, y: Lock) | Done

  // The locks taken, each with the thread that has it, and the threads.
  datatype State = State(held: map<Lock, Tid>, threads: map<Tid, Thread>)

  ghost predicate Init(s: State) {
    s.held == map[] && forall t :: t in s.threads ==> s.threads[t] == Idle
  }

  // EVLOCK_LOCK takes a lock when no thread has it, and does nothing for null.
  predicate CanTake(s: State, l: Lock) {
    l == 0 || l !in s.held
  }

  function Take(s: State, t: Tid, l: Lock): map<Lock, Tid> {
    if l == 0 then s.held else s.held[l := t]
  }

  // EVLOCK_UNLOCK
  function Give(s: State, l: Lock): map<Lock, Tid> {
    if l == 0 then s.held else s.held - {l}
  }

  // One step of thread t. The locks of a pair may be given in either order, to LOCK2 and to UNLOCK2.
  ghost predicate Step(s: State, s2: State, t: Tid) {
    t in s.threads &&
    match s.threads[t]
    case Idle =>
      || s2 == s.(threads := s.threads[t := Done])
      || exists x, y: Lock :: s2 == s.(threads := s.threads[t := TakeFirst(x, y)])
    case TakeFirst(x, y) =>
      CanTake(s, Sorted(x, y).0) && s2 == State(Take(s, t, Sorted(x, y).0), s.threads[t := Taken(x, y)])
    case TakeSecond(x, y) =>
      CanTake(s, Sorted(x, y).1) && s2 == State(Take(s, t, Sorted(x, y).1), s.threads[t := Inside(x, y)])
    case Inside(x, y) =>
      || s2 == s.(threads := s.threads[t := Giving(x, y)])
      || s2 == s.(threads := s.threads[t := Giving(y, x)])
    case GiveSecond(x, y) => s2 == State(Give(s, Sorted(x, y).1), s.threads[t := GiveFirst(x, y)])
    case GiveFirst(x, y) => s2 == State(Give(s, Sorted(x, y).0), s.threads[t := Idle])
    case Done => false
  }

  // With the first lock taken, the second is next unless it is the same.
  function Taken(x: Lock, y: Lock): Thread {
    if Sorted(x, y).1 != Sorted(x, y).0 then TakeSecond(x, y) else Inside(x, y)
  }

  function Giving(x: Lock, y: Lock): Thread {
    if Sorted(x, y).1 != Sorted(x, y).0 then GiveSecond(x, y) else GiveFirst(x, y)
  }

  ghost predicate Steps(s: State, s2: State) {
    exists t :: Step(s, s2, t)
  }

  ghost predicate Run(r: seq<State>) {
    |r| > 0 && Init(r[0]) && forall i {:trigger r[i]} :: 0 < i < |r| ==> Steps(r[i - 1], r[i])
  }

  // The locks a thread has.
  function Has(th: Thread): set<Lock> {
    match th
    case Idle => {}
    case TakeFirst(_, _) => {}
    case TakeSecond(x, y) => {Sorted(x, y).0} - {0}
    case Inside(x, y) => {x, y} - {0}
    case GiveSecond(x, y) => {x, y} - {0}
    case GiveFirst(x, y) => {Sorted(x, y).0} - {0}
    case Done => {}
  }

  // A second lock is taken and given back only where the two differ.
  predicate TwoLocks(th: Thread) {
    th.TakeSecond? || th.GiveSecond? ==> th.x != th.y
  }

  // Each lock taken is one that its thread has, and no other thread has it.
  ghost predicate Inv(s: State) {
    && (forall t {:trigger s.threads[t]} :: t in s.threads ==> TwoLocks(s.threads[t]))
    && (forall t, l {:trigger l in Has(s.threads[t])} :: t in s.threads && l in Has(s.threads[t]) ==>
        l in s.held && s.held[l] == t)
    && (forall l :: l in s.held ==> l != 0 && s.held[l] in s.threads && l in Has(s.threads[s.held[l]]))
  }

  // The lock that a step takes or gives back, or 0.
  function Moved(s: State, t: Tid): Lock
    requires t in s.threads
  {
    match s.threads[t]
    case TakeFirst(x, y) => Sorted(x, y).0
    case TakeSecond(x, y) => Sorted(x, y).1
    case GiveSecond(x, y) => Sorted(x, y).1
    case GiveFirst(x, y) => Sorted(x, y).0
    case _ => 0
  }

  // A step takes a lock that no thread has, gives back one that its thread has, or leaves the locks alone.
  lemma StepOwn(s: State, s2: State, t: Tid)
    requires Step(s, s2, t) && TwoLocks(s.threads[t])
    ensures t in s2.threads && s2.threads == s.threads[t := s2.threads[t]] && TwoLocks(s2.threads[t])
    ensures var th, th2, l := s.threads[t], s2.threads[t], Moved(s, t);
      || (s2.held == s.held && Has(th2) == Has(th))
      || (l != 0 && l !in s.held && s2.held == s.held[l := t] && Has(th2) == Has(th) + {l})
      || (l != 0 && l in Has(th) && s2.held == s.held - {l} && Has(th2) == Has(th) - {l})
  {
  }

  lemma StepKeeps(s: State, s2: State, t: Tid)
    requires Inv(s) && Step(s, s2, t)
    ensures Inv(s2)
  {
    StepOwn(s, s2, t);
    hide Step, Has, TwoLocks;
    forall u, l | u in s2.threads && l in Has(s2.threads[u]) ensures l in s2.held && s2.held[l] == u {
      assert u != t ==> s2.threads[u] == s.threads[u] && l in Has(s.threads[u]);
      assert l in Has(s.threads[t]) ==> s.held[l] == t;
    }
    forall l | l in s2.held ensures l != 0 && s2.held[l] in s2.threads && l in Has(s2.threads[s2.held[l]]) {
      assert l in s.held ==> l in Has(s.threads[s.held[l]]);
    }
  }

  lemma {:induction false} RunKeeps(r: seq<State>, i: nat)
    requires Run(r) && i < |r|
    ensures Inv(r[i])
  {
    if i > 0 {
      RunKeeps(r, i - 1);
      var t :| Step(r[i - 1], r[i], t);
      StepKeeps(r[i - 1], r[i], t);
    }
  }

  // ---- No deadlock ----

  // The lock that a thread is about to take, or 0.
  function Wants(th: Thread): Lock {
    match th
    case TakeFirst(x, y) => Sorted(x, y).0
    case TakeSecond(x, y) => Sorted(x, y).1
    case _ => 0
  }

  predicate Blocked(s: State, t: Tid)
    requires t in s.threads
  {
    !CanTake(s, Wants(s.threads[t]))
  }

  predicate Amid(th: Thread) {
    th != Idle && th != Done
  }

  // How many steps of its own a thread is from the end of its calls.
  function StepsLeft(th: Thread): nat {
    match th
    case TakeFirst(_, _) => 5
    case TakeSecond(_, _) => 4
    case Inside(_, _) => 3
    case GiveSecond(_, _) => 2
    case GiveFirst(_, _) => 1
    case _ => 0
  }

  // A thread amid its calls can go on, and gets nearer to their end, unless it waits for a lock that a thread has.
  lemma UnblockedSteps(s: State, t: Tid)
    requires t in s.threads && s.threads[t] != Done && !Blocked(s, t)
    ensures exists s2 :: Step(s, s2, t)
    ensures forall s2 :: Step(s, s2, t) && Amid(s.threads[t]) ==>
        t in s2.threads && StepsLeft(s2.threads[t]) < StepsLeft(s.threads[t])
  {
    var th := s.threads[t];
    match th
    case Idle => assert Step(s, s.(threads := s.threads[t := Done]), t);
    case TakeFirst(x, y) => assert Step(s, State(Take(s, t, Sorted(x, y).0), s.threads[t := Taken(x, y)]), t);
    case TakeSecond(x, y) => assert Step(s, State(Take(s, t, Sorted(x, y).1), s.threads[t := Inside(x, y)]), t);
    case Inside(x, y) => assert Step(s, s.(threads := s.threads[t := Giving(x, y)]), t);
    case GiveSecond(x, y) => assert Step(s, State(Give(s, Sorted(x, y).1), s.threads[t := GiveFirst(x, y)]), t);
    case GiveFirst(x, y) => assert Step(s, State(Give(s, Sorted(x, y).0), s.threads[t := Idle]), t);
  }

  // Between its calls a thread may name any two locks, either of which may be null, and the two may be the same.
  lemma MayName(s: State, t: Tid, x: Lock, y: Lock)
    requires t in s.threads && s.threads[t] == Idle
    ensures exists s2 :: Step(s, s2, t) && t in s2.threads && s2.threads[t] == TakeFirst(x, y)
  {
    assert Step(s, s.(threads := s.threads[t := TakeFirst(x, y)]), t);
  }

  // The thread that has the lock another waits for waits, if at all, for a greater lock.
  lemma WaitsHigher(s: State, t: Tid)
    requires Inv(s) && t in s.threads && Blocked(s, t)
    ensures var u := s.held[Wants(s.threads[t])];
      u in s.threads && Amid(s.threads[u]) && (Blocked(s, u) ==> Wants(s.threads[u]) > Wants(s.threads[t]))
  {
    var l := Wants(s.threads[t]);
    var u := s.held[l];
    assert l in Has(s.threads[u]);
  }

  // From any thread amid its calls, following who waits for whom leads to one that can go on.
  lemma {:induction false} SomeUnblocked(s: State, t: Tid) returns (u: Tid)
    requires Inv(s) && t in s.threads && Amid(s.threads[t])
    ensures u in s.threads && Amid(s.threads[u]) && !Blocked(s, u)
    decreases |Above(s, Wants(s.threads[t]))|
  {
    if Blocked(s, t) {
      WaitsHigher(s, t);
      var l := Wants(s.threads[t]);
      u := s.held[l];
      if Blocked(s, u) {
        FewerAbove(s, l, Wants(s.threads[u]));
        u := SomeUnblocked(s, u);
      }
    } else {
      u := t;
    }
  }

  function Above(s: State, l: Lock): set<Lock> {
    set k | k in s.held && k > l
  }

  lemma FewerAbove(s: State, l: Lock, k: Lock)
    requires k in s.held && k > l
    ensures |Above(s, k)| < |Above(s, l)|
  {
    SubsetSize(Above(s, k), Above(s, l) - {k});
  }

  lemma {:induction false} SubsetSize(a: set<Lock>, b: set<Lock>)
    requires a <= b
    ensures |a| <= |b|
  {
    if x :| x in a {
      SubsetSize(a - {x}, b - {x});
    }
  }

  // In every state of every run, if some thread is amid its calls, then some thread amid its calls can go on, nearer to
  // their end.
  lemma NoDeadlock(r: seq<State>, i: nat, t: Tid) returns (u: Tid, s2: State)
    requires Run(r) && i < |r| && t in r[i].threads && Amid(r[i].threads[t])
    ensures u in r[i].threads && Amid(r[i].threads[u]) && Step(r[i], s2, u)
    ensures u in s2.threads && StepsLeft(s2.threads[u]) < StepsLeft(r[i].threads[u])
  {
    RunKeeps(r, i);
    u := SomeUnblocked(r[i], t);
    UnblockedSteps(r[i], u);
    s2 :| Step(r[i], s2, u);
  }

  // ---- One pair, from LOCK2 to UNLOCK2 ----

  // The locks that thread t has taken and not given back.
  function HeldBy(s: State, t: Tid): set<Lock> {
    set l | l in s.held && s.held[l] == t
  }

  // From state i, where thread t has just named the pair x and y, to state j it is not between its calls.
  ghost predicate Following(r: seq<State>, i: nat, j: nat, t: Tid, x: Lock, y: Lock) {
    && i <= j < |r| && (forall k {:trigger r[k]} :: i <= k < j ==> t in r[k].threads && Amid(r[k].threads[t]))
    && t in r[i].threads && r[i].threads[t] == TakeFirst(x, y)
  }

  // Of two locks the lesser, and of one lock and null no more than the lock.
  predicate HalfHeld(held: set<Lock>, x: Lock, y: Lock) {
    held <= {x, y} - {0} && (x != 0 && y != 0 ==> held == {if x < y then x else y})
  }

  lemma Stepper(r: seq<State>, i: nat) returns (t: Tid)
    requires Run(r) && 0 < i < |r|
    ensures Step(r[i - 1], r[i], t)
  {
    assert Steps(r[i - 1], r[i]);
    t :| Step(r[i - 1], r[i], t);
  }

  lemma HeldIsHas(s: State, t: Tid)
    requires Inv(s) && t in s.threads
    ensures HeldBy(s, t) == Has(s.threads[t])
  {
    assert forall l :: l in Has(s.threads[t]) <==> l in s.held && s.held[l] == t;
  }

  // The pair as it was named to LOCK2 up to Inside, and then in either order; nothing is left out.
  predicate Names(th: Thread, x: Lock, y: Lock) {
    match th
    case Idle => true
    case TakeFirst(u, v) => (u, v) == (x, y)
    case TakeSecond(u, v) => (u, v) == (x, y)
    case Inside(u, v) => (u, v) == (x, y)
    case GiveSecond(u, v) => {u, v} == {x, y}
    case GiveFirst(u, v) => {u, v} == {x, y}
    case Done => false
  }

  // A step of any thread keeps the names of one amid its calls.
  lemma NamesKept(s: State, s2: State, u: Tid, t: Tid, x: Lock, y: Lock)
    requires Step(s, s2, u) && t in s.threads && Amid(s.threads[t]) && Names(s.threads[t], x, y)
    ensures t in s2.threads && Names(s2.threads[t], x, y)
  {
  }

  lemma {:induction false} NamesFollow(r: seq<State>, i: nat, j: nat, t: Tid, x: Lock, y: Lock)
    requires Run(r) && Following(r, i, j, t, x, y)
    ensures t in r[j].threads && Names(r[j].threads[t], x, y)
  {
    hide Step, Run;
    if i < j {
      NamesFollow(r, i, j - 1, t, x, y);
      var u := Stepper(r, j);
      NamesKept(r[j - 1], r[j], u, t, x, y);
    }
  }

  // What thread t has where it is, when x and y are the pair it named.
  ghost predicate HasOfPair(s: State, t: Tid, x: Lock, y: Lock)
    requires t in s.threads
  {
    match s.threads[t]
    case Idle => HeldBy(s, t) == {}
    case TakeFirst(u, v) => (u, v) == (x, y) && HeldBy(s, t) == {}
    case TakeSecond(u, v) => (u, v) == (x, y) && x != y && HalfHeld(HeldBy(s, t), x, y)
    case Inside(u, v) => (u, v) == (x, y) && HeldBy(s, t) == {x, y} - {0}
    case GiveSecond(u, v) => {u, v} == {x, y} && x != y && HeldBy(s, t) == {x, y} - {0}
    case GiveFirst(u, v) => {u, v} == {x, y} && HalfHeld(HeldBy(s, t), x, y)
    case Done => false
  }

  // A thread that named x and y takes the lesser first, has both, and no other, at its next Inside, gives the greater
  // back first, and has none when it is between its calls again; null counts for no lock, and the same lock for one.
  // UNLOCK2 may name the pair in either order.
  lemma HasWhatItNamed(r: seq<State>, i: nat, j: nat, t: Tid, x: Lock, y: Lock)
    requires Run(r) && Following(r, i, j, t, x, y)
    ensures t in r[j].threads && HasOfPair(r[j], t, x, y)
  {
    NamesFollow(r, i, j, t, x, y);
    RunKeeps(r, j);
    HeldIsHas(r[j], t);
    assert TwoLocks(r[j].threads[t]);
  }

  // UNLOCK2 never gives back a lock that its thread does not have.
  lemma GivesItsOwn(r: seq<State>, i: nat, t: Tid)
    requires Run(r) && i < |r| && t in r[i].threads
    ensures match r[i].threads[t]
      case GiveSecond(x, y) => Moved(r[i], t) != 0 ==> Moved(r[i], t) in HeldBy(r[i], t)
      case GiveFirst(x, y) => Moved(r[i], t) != 0 ==> Moved(r[i], t) in HeldBy(r[i], t)
      case _ => true
  {
    RunKeeps(r, i);
    HeldIsHas(r[i], t);
  }
}
