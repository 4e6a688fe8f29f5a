// The reentrant spin lock, with any number of threads interleaved: each read,
// each write and each compare-and-swap of shared memory is a step of its own.
module SpinLock {
  // Thread ids are not 0, which means that nobody owns the lock.
  type Tid = t: nat | t > 0 witness 1

  // What a thread does next. In the names of the program: acquire and try_lock read l, and then the owner if l is set;
  // the owner reads and writes c; otherwise the thread swaps l, checks and sets the owner, and sets c. Release checks l
  // and the owner, reads and writes c, and, if it wrote 0, clears the owner and then l. A failed assertion is Broken.
  datatype Next =
    | Idle
    | ReadLock(once: bool) | ReadOwner(once: bool) | ReadCount | WriteCount(seen: int) | Swap(once: bool)
    | CheckFree | SetOwner | SetCount
    | CheckLocked | CheckOwner | ReadDown | WriteDown(seen: int) | ClearOwner | ClearLock
    | Broken

  // A thread, and how many of its acquisitions are not yet released.
  datatype Thread = Thread(next: Next, depth: nat)

  datatype State = State(l: int, c: int, owner: nat, threads: map<Tid, Thread>)

  ghost predicate Init(s: State) {
    s.l == 0 && s.c == 0 && s.owner == 0 && forall t :: t in s.threads ==> s.threads[t] == Thread(Idle, 0)
  }

  // The thread t goes on, and the shared words become l, c and owner.
  function Moved(s: State, t: Tid, next: Next, depth: nat, l: int, c: int, owner: nat): State {
    State(l, c, owner, s.threads[t := Thread(next, depth)])
  }

  // Only the thread itself changes.
  function Local(s: State, t: Tid, next: Next): State
    requires t in s.threads
  {
    Moved(s, t, next, s.threads[t].depth, s.l, s.c, s.owner)
  }

  // When the lock is not to be had: acquire spins, try_lock gives up.
  function Refused(s: State, t: Tid, once: bool): State
    requires t in s.threads
  {
    Local(s, t, if once then Idle else ReadLock(false))
  }

  // What a thread does next in the call it is in.
  function Continued(s: State, t: Tid): State
    requires t in s.threads && !s.threads[t].next.Idle? && !s.threads[t].next.Broken?
  {
    var d := s.threads[t].depth;
    match s.threads[t].next
    case ReadLock(once) => Local(s, t, if s.l != 0 then ReadOwner(once) else Swap(once))
    case ReadOwner(once) => if s.owner == t then Local(s, t, ReadCount) else Refused(s, t, once)
    case ReadCount => Local(s, t, WriteCount(s.c))
    case WriteCount(seen) => Moved(s, t, Idle, d + 1, s.l, seen + 1, s.owner)
    case Swap(once) => if s.l == 0 then Moved(s, t, CheckFree, d, 1, s.c, s.owner) else Refused(s, t, once)
    case CheckFree => Local(s, t, if s.owner == 0 then SetOwner else Broken)
    case SetOwner => Moved(s, t, SetCount, d, s.l, s.c, t)
    case SetCount => Moved(s, t, Idle, d + 1, s.l, 1, s.owner)
    case CheckLocked => Local(s, t, if s.l != 0 then CheckOwner else Broken)
    case CheckOwner => Local(s, t, if s.owner == t then ReadDown else Broken)
    case ReadDown => Local(s, t, WriteDown(s.c))
    case WriteDown(seen) =>
      if seen - 1 == 0 then Moved(s, t, ClearOwner, d, s.l, seen - 1, s.owner)
      else Moved(s, t, Idle, if d > 0 then d - 1 else 0, s.l, seen - 1, s.owner)
    case ClearOwner => Moved(s, t, ClearLock, d, s.l, s.c, 0)
    case ClearLock => Moved(s, t, Idle, if d > 0 then d - 1 else 0, 0, s.c, s.owner)
  }

  // One step of thread t. Between its calls it begins an acquire or a try, or, with something to release, a release.
  ghost predicate Step(s: State, s2: State, t: Tid) {
    t in s.threads &&
    match s.threads[t].next
    case Idle => s2 == Local(s, t, ReadLock(false)) || s2 == Local(s, t, ReadLock(true)) || (s.threads[t].depth > 0
        && s2 == Local(s, t, CheckLocked))
    case Broken => false
    case _ => s2 == Continued(s, t)
  }

  ghost predicate Steps(s: State, s2: State) {
    exists t: Tid :: Step(s, s2, t)
  }

  // A run: any threads, one step at a time.
  ghost predicate Run(r: seq<State>) {
    |r| > 0 && Init(r[0]) && forall i {:trigger r[i]} :: 0 < i < |r| ==> Steps(r[i - 1], r[i])
  }

  // From its swap of l on, or while it has acquisitions to release, a thread holds the lock.
  predicate Holds(th: Thread) {
    th.depth > 0 || th.next in {CheckFree, SetOwner, SetCount}
  }

  // What the shared words are while th, with id t, holds the lock.
  ghost predicate HolderOk(s: State, t: Tid, th: Thread) {
    s.l == 1 &&
    match th.next
    case CheckFree => th.depth == 0 && s.owner == 0 && s.c == 0
    case SetOwner => th.depth == 0 && s.owner == 0 && s.c == 0
    case SetCount => th.depth == 0 && s.owner == t && s.c == 0
    case ClearOwner => th.depth == 1 && s.owner == t && s.c == 0
    case ClearLock => th.depth == 1 && s.owner == 0 && s.c == 0
    case WriteCount(seen) => s.owner == t && s.c == th.depth == seen
    case WriteDown(seen) => s.owner == t && s.c == th.depth == seen
    case Swap(_) => false
    case Broken => false
    case _ => s.owner == t && s.c == th.depth
  }

  // What else a thread may be doing that does not hold the lock.
  predicate OutsiderOk(th: Thread) {
    th.next.Idle? || th.next.ReadLock? || th.next.ReadOwner? || th.next.Swap?
  }

  ghost predicate ThreadOk(s: State, t: Tid, th: Thread) {
    if Holds(th) then HolderOk(s, t, th) else OutsiderOk(th)
  }

  ghost predicate Nobody(threads: map<Tid, Thread>) {
    forall t :: t in threads ==> !Holds(threads[t])
  }

  ghost predicate AtMostOne(threads: map<Tid, Thread>) {
    forall t, u :: t in threads && u in threads && Holds(threads[t]) && Holds(threads[u]) ==> t == u
  }

  ghost predicate Inv(s: State) {
    && AtMostOne(s.threads) && (forall t {:trigger s.threads[t]} :: t in s.threads ==> ThreadOk(s, t, s.threads[t]))
    && (Nobody(s.threads) ==> s.l == 0 && s.owner == 0 && s.c == 0)
  }

  // What one step does to the thread that takes it and to the shared words.
  lemma StepOwn(s: State, s2: State, t: Tid)
    requires Step(s, s2, t) && ThreadOk(s, t, s.threads[t]) && (s.l == 0 ==> s.owner == 0 && s.c == 0)
    requires !Holds(s.threads[t]) ==> s.owner != t
    ensures s2.threads == s.threads[t := s2.threads[t]] && ThreadOk(s2, t, s2.threads[t])
    ensures Holds(s2.threads[t]) && !Holds(s.threads[t]) ==> s.l == 0
    ensures !Holds(s2.threads[t]) && !Holds(s.threads[t]) ==> s2.l == s.l && s2.owner == s.owner && s2.c == s.c
    ensures !Holds(s2.threads[t]) && Holds(s.threads[t]) ==> s2.l == 0 && s2.owner == 0 && s2.c == 0
  {
  }

  lemma StepKeeps(s: State, s2: State, t: Tid)
    requires Inv(s) && Step(s, s2, t)
    ensures Inv(s2)
  {
    Outside(s, t);
    StepOwn(s, s2, t);
    hide Step;
    var th, th2 := s.threads[t], s2.threads[t];
    if Holds(th) || Holds(th2) {
      OthersDoNot(s, t);
    }
    assert forall u :: u in s2.threads && u != t ==> s2.threads[u] == s.threads[u];
    assert Nobody(s2.threads) && !Holds(th) ==> Nobody(s.threads) by {
      assert forall u :: u in s.threads && u != t ==> s.threads[u] == s2.threads[u];
    }
  }

  // While t holds the lock, or the word is clear, no other thread holds it.
  lemma OthersDoNot(s: State, t: Tid)
    requires Inv(s) && t in s.threads && (Holds(s.threads[t]) || s.l == 0)
    ensures forall u :: u in s.threads && u != t ==> !Holds(s.threads[u])
  {
    forall u | u in s.threads && u != t ensures !Holds(s.threads[u]) {
      assert ThreadOk(s, u, s.threads[u]);
    }
  }

  lemma Outside(s: State, t: Tid)
    requires Inv(s) && t in s.threads
    ensures ThreadOk(s, t, s.threads[t]) && (s.l == 0 ==> s.owner == 0 && s.c == 0)
        && (!Holds(s.threads[t]) ==> s.owner != t)
  {
    if u: Tid :| u in s.threads && Holds(s.threads[u]) {
      assert HolderOk(s, u, s.threads[u]);
    }
  }

  // In every state of every run the invariant holds.
  lemma {:induction false} RunKeeps(r: seq<State>, i: nat)
    requires Run(r) && i < |r|
    ensures Inv(r[i])
  {
    if i > 0 {
      RunKeeps(r, i - 1);
      var t: Tid :| Step(r[i - 1], r[i], t);
      StepKeeps(r[i - 1], r[i], t);
    }
  }

  // The assertions at the successful swap and in release never fail.
  lemma NeverBroken(r: seq<State>, i: nat, t: Tid)
    requires Run(r) && i < |r| && t in r[i].threads
    ensures !r[i].threads[t].next.Broken?
  {
    RunKeeps(r, i);
    assert ThreadOk(r[i], t, r[i].threads[t]);
  }

  lemma MutualExclusion(r: seq<State>, i: nat, t: Tid, u: Tid)
    requires Run(r) && i < |r| && t in r[i].threads && u in r[i].threads
    ensures Holds(r[i].threads[t]) && Holds(r[i].threads[u]) ==> t == u
  {
    RunKeeps(r, i);
  }

  // A thread owns the lock exactly while it has acquisitions to release, from when it sets the owner to when it clears
  // it, and the counter is their number, but for the last of them, which counts no more once the thread is to clear.
  lemma CountIsDepth(r: seq<State>, i: nat, t: Tid)
    requires Run(r) && i < |r| && t in r[i].threads
    ensures var th := r[i].threads[t];
      r[i].owner == t <==> (th.depth > 0 && th.next != ClearLock) || th.next == SetCount
    ensures var th := r[i].threads[t];
      r[i].owner == t ==> r[i].l == 1 && r[i].c == if th.next == ClearOwner then th.depth - 1 else th.depth
    ensures r[i].threads[t].next in {ClearOwner, ClearLock} ==>
              r[i].l == 1 && r[i].c == 0 && r[i].threads[t].depth == 1
  {
    RunKeeps(r, i);
    Outside(r[i], t);
  }

  // The word l is set just while some thread holds the lock.
  lemma SetWhileHeld(r: seq<State>, i: nat)
    requires Run(r) && i < |r|
    ensures r[i].l != 0 <==> exists t :: t in r[i].threads && Holds(r[i].threads[t])
  {
    RunKeeps(r, i);
    if t: Tid :| t in r[i].threads && Holds(r[i].threads[t]) {
      assert ThreadOk(r[i], t, r[i].threads[t]);
    } else {
      assert Nobody(r[i].threads);
    }
  }

  // The word is cleared only by the outermost release of the thread that holds the lock.
  lemma ClearedByOutermost(r: seq<State>, i: nat)
    requires Run(r) && 0 < i < |r| && r[i - 1].l != 0 && r[i].l == 0
    ensures exists t ::
        t in r[i - 1].threads && t in r[i].threads && r[i - 1].threads[t] == Thread(ClearLock, 1)
        && r[i].threads[t] == Thread(Idle, 0)
  {
    RunKeeps(r, i - 1);
    hide Step, Run, Inv;
    var t := Stepper(r, i);
    Outside(r[i - 1], t);
    ClearStep(r[i - 1], r[i], t);
  }

  lemma Stepper(r: seq<State>, i: nat) returns (t: Tid)
    requires Run(r) && 0 < i < |r|
    ensures Step(r[i - 1], r[i], t) && t in r[i - 1].threads
  {
    assert Steps(r[i - 1], r[i]);
    t :| Step(r[i - 1], r[i], t);
  }

  lemma ClearStep(s: State, s2: State, t: Tid)
    requires Step(s, s2, t) && t in s.threads && ThreadOk(s, t, s.threads[t]) && s.l != 0 && s2.l == 0
    ensures t in s2.threads && s.threads[t] == Thread(ClearLock, 1) && s2.threads[t] == Thread(Idle, 0)
  {
  }

  // A step of a thread that does not hold the lock leaves the owner's counter and the owner alone.
  lemma OnlyHolderWrites(r: seq<State>, i: nat, t: Tid)
    requires Run(r) && 0 < i < |r| && Step(r[i - 1], r[i], t) && !Holds(r[i - 1].threads[t])
    ensures r[i].owner == r[i - 1].owner && r[i].c == r[i - 1].c && (r[i].l == r[i - 1].l || (r[i - 1].l == 0
        && Holds(r[i].threads[t])))
  {
    RunKeeps(r, i - 1);
    assert ThreadOk(r[i - 1], t, r[i - 1].threads[t]);
  }

  // A thread about to swap gets a lock that nobody holds.
  lemma FreeIsTaken(r: seq<State>, i: nat, t: Tid)
    requires Run(r) && 0 < i < |r| && Step(r[i - 1], r[i], t) && r[i - 1].threads[t].next.Swap?
        && Nobody(r[i - 1].threads)
    ensures Holds(r[i].threads[t])
  {
    RunKeeps(r, i - 1);
  }

  // ---- Whole calls ----

  // A thread can always go on: between its calls it may acquire or try, or release if it has something to release.
  lemma MayStep(r: seq<State>, i: nat, t: Tid)
    requires Run(r) && i < |r| && t in r[i].threads
    ensures exists s2 :: Step(r[i], s2, t)
    ensures r[i].threads[t].next == Idle ==> var s := r[i];
      && Step(s, Local(s, t, ReadLock(false)), t) && Step(s, Local(s, t, ReadLock(true)), t)
      && (s.threads[t].depth > 0 ==> Step(s, Local(s, t, CheckLocked), t))
  {
    NeverBroken(r, i, t);
    var s := r[i];
    assert Step(s, if s.threads[t].next == Idle then Local(s, t, ReadLock(false)) else Continued(s, t), t);
  }

  // From state i to state j the call that thread t is in at state i has not returned.
  ghost predicate InCall(r: seq<State>, i: nat, j: nat, t: Tid) {
    && i <= j < |r| && t in r[i].threads && !r[i].threads[t].next.Idle?
    && forall k {:trigger r[k]} :: i <= k < j ==> t in r[k].threads && !r[k].threads[t].next.Idle?
  }

  // In an acquire called at depth d, or returned from it one deeper.
  predicate Acquiring(th: Thread, d: nat) {
    match th.next
    case Idle => th.depth == d + 1
    case ReadLock(once) => !once && th.depth == d
    case ReadOwner(once) => !once && th.depth == d
    case Swap(once) => !once && th.depth == d
    case CheckLocked => false
    case CheckOwner => false
    case ReadDown => false
    case WriteDown(_) => false
    case ClearOwner => false
    case ClearLock => false
    case _ => th.depth == d
  }

  // In a release called at depth d, or returned from it one less deep.
  predicate Releasing(th: Thread, d: nat) {
    d > 0 &&
    match th.next
    case Idle => th.depth == d - 1
    case CheckLocked => th.depth == d
    case CheckOwner => th.depth == d
    case ReadDown => th.depth == d
    case WriteDown(_) => th.depth == d
    case ClearOwner => th.depth == d == 1
    case ClearLock => th.depth == d == 1
    case _ => false
  }

  // About to take a step of a release.
  predicate AtRelease(th: Thread) {
    Releasing(th, th.depth)
  }

  lemma CallStep(s: State, s2: State, u: Tid, t: Tid, d: nat)
    requires Inv(s) && Step(s, s2, u) && t in s.threads && !s.threads[t].next.Idle?
    ensures t in s2.threads && (u != t ==> s2.threads[t] == s.threads[t])
    ensures Acquiring(s.threads[t], d) ==> Acquiring(s2.threads[t], d)
    ensures Releasing(s.threads[t], d) ==> Releasing(s2.threads[t], d)
  {
    assert ThreadOk(s, t, s.threads[t]);
  }

  // A call of acquire returns only with the lock, one deeper than it was called; nobody else has it then.
  lemma {:induction false} AcquireReturns(r: seq<State>, i: nat, j: nat, t: Tid)
    requires Run(r) && InCall(r, i, j, t) && r[i].threads[t].next == ReadLock(false)
    ensures t in r[j].threads && Acquiring(r[j].threads[t], r[i].threads[t].depth)
    ensures r[j].threads[t].next.Idle? ==> var d := r[i].threads[t].depth + 1;
      && r[j].threads[t].depth == r[j].c == d && r[j].owner == t && r[j].l == 1
      && forall u :: u in r[j].threads && u != t ==> !Holds(r[j].threads[u])
  {
    CallFollows(r, i, j, t, r[i].threads[t].depth);
    if r[j].threads[t].next.Idle? {
      RunKeeps(r, j);
      OthersDoNot(r[j], t);
      CountIsDepth(r, j, t);
    }
  }

  // From the return of its acquire until it begins a release, no other thread is between an acquire and its release.
  lemma {:induction false} AloneInside(r: seq<State>, i: nat, j: nat, k: nat, t: Tid, u: Tid)
    requires Run(r) && InCall(r, i, j, t) && r[i].threads[t].next == ReadLock(false)
    requires j <= k < |r| && t in r[j].threads && r[j].threads[t].next.Idle? && u in r[k].threads && u != t
    requires forall m {:trigger r[m]} :: j <= m <= k ==>
        t in r[m].threads && !AtRelease(r[m].threads[t])
    ensures r[k].threads[t].depth >= r[j].threads[t].depth > 0 && r[k].threads[u].depth == 0
    ensures !Holds(r[k].threads[u])
    decreases k
  {
    AcquireReturns(r, i, j, t);
    RunKeeps(r, k);
    StaysInside(r, j, k, t);
    OthersDoNot(r[k], t);
  }

  lemma {:induction false} StaysInside(r: seq<State>, j: nat, k: nat, t: Tid)
    requires Run(r) && j <= k < |r|
    requires forall m {:trigger r[m]} :: j <= m <= k ==>
        t in r[m].threads && !AtRelease(r[m].threads[t])
    ensures r[k].threads[t].depth >= r[j].threads[t].depth
  {
    hide Step, Run, Inv, AtRelease;
    if j < k {
      StaysInside(r, j, k - 1, t);
      RunKeeps(r, k - 1);
      var u := Stepper(r, k);
      Outside(r[k - 1], t);
      Deepens(r[k - 1], r[k], u, t);
    }
  }

  lemma Deepens(s: State, s2: State, u: Tid, t: Tid)
    requires Step(s, s2, u) && t in s.threads && t in s2.threads && ThreadOk(s, t, s.threads[t])
    requires !AtRelease(s.threads[t])
    ensures s2.threads[t].depth >= s.threads[t].depth
  {
  }

  // A call of release returns one less deep; from depth 1 it gives up the lock.
  lemma {:induction false} ReleaseReturns(r: seq<State>, i: nat, j: nat, t: Tid)
    requires Run(r) && InCall(r, i, j, t) && r[i].threads[t].next == CheckLocked
    ensures t in r[j].threads && Releasing(r[j].threads[t], r[i].threads[t].depth)
    ensures r[j].threads[t].next.Idle? ==> var d := r[i].threads[t].depth - 1;
      && r[j].threads[t].depth == d && (d > 0 ==> r[j].l == 1 && r[j].owner == t && r[j].c == d)
      && (d == 0 ==> r[j].owner != t)
  {
    RunKeeps(r, i);
    assert ThreadOk(r[i], t, r[i].threads[t]);
    CallFollows(r, i, j, t, r[i].threads[t].depth);
    CountIsDepth(r, j, t);
  }

  lemma {:induction false} CallFollows(r: seq<State>, i: nat, j: nat, t: Tid, d: nat)
    requires Run(r) && InCall(r, i, j, t)
    ensures t in r[j].threads
    ensures Acquiring(r[i].threads[t], d) ==> Acquiring(r[j].threads[t], d)
    ensures Releasing(r[i].threads[t], d) ==> Releasing(r[j].threads[t], d)
  {
    hide Step, Inv, Run, Acquiring, Releasing;
    if i < j {
      CallFollows(r, i, j - 1, t, d);
      RunKeeps(r, j - 1);
      var u := Stepper(r, j);
      CallStep(r[j - 1], r[j], u, t, d);
    }
  }

  // How many steps of its own a thread is from its return, at most, if it is not turned away.
  function StepsLeft(th: Thread): nat {
    match th.next
    case ReadLock(_) => 5
    case Swap(_) => 4
    case CheckFree => 3
    case SetOwner => 2
    case SetCount => 1
    case ReadOwner(_) => 3
    case ReadCount => 2
    case WriteCount(_) => 1
    case CheckLocked => 6
    case CheckOwner => 5
    case ReadDown => 4
    case WriteDown(_) => 3
    case ClearOwner => 2
    case ClearLock => 1
    case _ => 0
  }

  // A step of a thread that has the lock, from th to th2: an acquire or a try goes through reading and raising the
  // count to one deeper, and a release through lowering it, and at 0 clearing owner and word.
  predicate OwnStep(th: Thread, th2: Thread) {
    match th.next
    case ReadLock(once) => th2 == Thread(ReadOwner(once), th.depth)
    case ReadOwner(_) => th2 == Thread(ReadCount, th.depth)
    case ReadCount => th2 == Thread(WriteCount(th.depth), th.depth)
    case WriteCount(_) => th2 == Thread(Idle, th.depth + 1)
    case CheckLocked => th2 == Thread(CheckOwner, th.depth)
    case CheckOwner => th2 == Thread(ReadDown, th.depth)
    case ReadDown => th2 == Thread(WriteDown(th.depth), th.depth)
    case WriteDown(_) =>
      if th.depth == 1 then th2 == Thread(ClearOwner, 1) else th2.next == Idle && th2.depth == th.depth - 1
    case ClearOwner => th2 == Thread(ClearLock, 1)
    case ClearLock => th2 == Thread(Idle, 0)
    case _ => false
  }

  lemma OwnerStep(s: State, s2: State, t: Tid)
    requires Step(s, s2, t) && ThreadOk(s, t, s.threads[t]) && s.threads[t].depth > 0 && !s.threads[t].next.Idle?
    ensures t in s2.threads && OwnStep(s.threads[t], s2.threads[t])
  {
  }

  // A thread that has the lock already never waits and is never refused.
  lemma OwnerGetsIn(r: seq<State>, i: nat, t: Tid)
    requires Run(r) && 0 < i < |r| && Step(r[i - 1], r[i], t)
    requires r[i - 1].threads[t].depth > 0 && !r[i - 1].threads[t].next.Idle?
    ensures t in r[i].threads && OwnStep(r[i - 1].threads[t], r[i].threads[t])
  {
    assert t in r[i - 1].threads;
    hide Step, OwnStep;
    RunKeeps(r, i - 1);
    Outside(r[i - 1], t);
    OwnerStep(r[i - 1], r[i], t);
  }

  // Each step that a thread takes in a call brings its return nearer, but for those at which an acquire is turned away.
  lemma CallsAdvance(r: seq<State>, i: nat, t: Tid)
    requires Run(r) && 0 < i < |r| && Step(r[i - 1], r[i], t) && !r[i - 1].threads[t].next.Idle?
    ensures t in r[i].threads
    ensures || StepsLeft(r[i].threads[t]) < StepsLeft(r[i - 1].threads[t])
            || (r[i - 1].threads[t].depth == 0 && TurnedAway(r[i - 1], t, r[i].threads[t], false))
  {
    assert t in r[i - 1].threads && t in r[i].threads;
    hide Step, Run, Inv, StepsLeft, TurnedAway;
    RunKeeps(r, i - 1);
    Outside(r[i - 1], t);
    StepAdvances(r[i - 1], r[i], t);
  }

  lemma StepAdvances(s: State, s2: State, t: Tid)
    requires Step(s, s2, t) && ThreadOk(s, t, s.threads[t]) && !s.threads[t].next.Idle?
    ensures StepsLeft(s2.threads[t]) < StepsLeft(s.threads[t])
         || (s.threads[t].depth == 0 && TurnedAway(s, t, s2.threads[t], false))
  {
  }

  // ---- One attempt at the lock ----

  // In the step from state i thread t reads the lock word, and up to state j it has neither returned nor begun anew.
  ghost predicate Attempting(r: seq<State>, i: nat, j: nat, t: Tid, once: bool) {
    && i < j < |r| && t in r[i].threads && Step(r[i], r[i + 1], t) && r[i].threads[t].next == ReadLock(once)
    && forall k {:trigger r[k]} :: i < k < j ==>
        t in r[k].threads && !r[k].threads[t].next.Idle? && !r[k].threads[t].next.ReadLock?
  }

  ghost predicate OtherHolds(s: State, t: Tid) {
    exists u :: u in s.threads && u != t && Holds(s.threads[u])
  }

  // Another thread held the lock in some state from i on and before j.
  ghost predicate OtherHeld(r: seq<State>, i: nat, j: nat, t: Tid)
    requires j <= |r|
  {
    exists m :: i <= m < j && OtherHolds(r[m], t)
  }

  // Amid an attempt at depth d; other says that another thread held the lock since it began.
  predicate Underway(th: Thread, once: bool, d: nat, other: bool) {
    th.depth == d &&
    match th.next
    case ReadOwner(again) => again == once && (d > 0 || other)
    case ReadCount => d > 0
    case WriteCount(_) => d > 0
    case Swap(again) => again == once && d == 0
    case CheckFree => d == 0
    case SetOwner => d == 0
    case SetCount => d == 0
    case _ => false
  }

  // Given up by try_lock, or begun anew by acquire, at the reading of the owner or at the swap; s is the state before.
  predicate TurnedAway(s: State, t: Tid, th: Thread, once: bool)
    requires t in s.threads
  {
    && th == Thread(if once then Idle else ReadLock(false), 0)
    && ((s.threads[t].next == ReadOwner(once) && s.owner != t) || (s.threads[t].next == Swap(once) && s.l != 0))
  }

  lemma AttemptStep(s: State, s2: State, t: Tid, once: bool, d: nat, other: bool)
    requires Inv(s) && Step(s, s2, t)
    requires s.threads[t] == Thread(ReadLock(once), d) || Underway(s.threads[t], once, d, other)
    ensures var th := s2.threads[t];
      || Underway(th, once, d, other || OtherHolds(s, t)) || th == Thread(Idle, d + 1)
      || (d == 0 && (other || OtherHolds(s, t)) && TurnedAway(s, t, th, once))
  {
    assert ThreadOk(s, t, s.threads[t]);
    if s.l != 0 {
      SomeHolder(s);
    }
  }

  lemma SomeHolder(s: State)
    requires Inv(s) && s.l != 0
    ensures exists u :: u in s.threads && Holds(s.threads[u])
  {
    if Nobody(s.threads) {
      assert false;
    }
  }

  // However the threads interleave, an attempt that a thread makes at the lock ends with the lock, or is turned away,
  // and then the thread did not have the lock, and another thread had it at some moment of the attempt.
  lemma {:induction false} AttemptEnds(r: seq<State>, i: nat, j: nat, t: Tid, once: bool)
    requires Run(r) && Attempting(r, i, j, t, once)
    ensures t in r[j - 1].threads && t in r[j].threads
    ensures var d, th := r[i].threads[t].depth, r[j].threads[t];
      || Underway(th, once, d, OtherHeld(r, i, j, t)) || th == Thread(Idle, d + 1)
      || (d == 0 && OtherHeld(r, i, j, t) && TurnedAway(r[j - 1], t, th, once))
  {
    hide Step, Inv, Run, Underway;
    var d := r[i].threads[t].depth;
    RunKeeps(r, j - 1);
    if i + 1 < j {
      AttemptEnds(r, i, j - 1, t, once);
      var u := Stepper(r, j);
      CallStep(r[j - 1], r[j], u, t, d);
      ghost var other := OtherHeld(r, i, j - 1, t);
      Longer(r, i, j, t);
      if u == t {
        AttemptStep(r[j - 1], r[j], t, once, d, other);
      } else {
        StillUnderway(r[j].threads[t], once, d, other, OtherHeld(r, i, j, t));
      }
    } else {
      CallStep(r[i], r[j], t, t, d);
      AttemptStep(r[i], r[j], t, once, d, false);
      Longer(r, i, j, t);
    }
  }

  lemma Longer(r: seq<State>, i: nat, j: nat, t: Tid)
    requires i < j <= |r|
    ensures OtherHeld(r, i, j, t) <==> OtherHeld(r, i, j - 1, t) || OtherHolds(r[j - 1], t)
  {
  }

  lemma StillUnderway(th: Thread, once: bool, d: nat, other: bool, other2: bool)
    requires Underway(th, once, d, other) && (other ==> other2)
    ensures Underway(th, once, d, other2)
  {
  }
}
