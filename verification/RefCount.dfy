// Objects that count the pointers to them, and are deleted when the last one
// goes: over a graph of objects whose members are such pointers themselves.
module RefCount {
  // An object, and 0 for null. Deleted objects are not used again for new ones.
  type Obj = nat
  // A pointer object: a member of an object, or one of the program's own.
  type Ptr = nat

  // How many pointers refer to an object.
  function Pointers(target: map<Ptr, Obj>, o: Obj): set<Ptr> {
    set s | s in target && target[s] == o
  }

  lemma PointerGone(target: map<Ptr, Obj>, s: Ptr, o: Obj)
    requires s in target
    ensures |Pointers(target - {s}, o)| == |Pointers(target, o)| - if target[s] == o then 1 else 0
  {
    assert Pointers(target - {s}, o) == Pointers(target, o) - {s};
  }

  lemma PointerSet(target: map<Ptr, Obj>, s: Ptr, t: Obj, o: Obj)
    requires s in target ==> target[s] != o || t == o
    ensures |Pointers(target[s := t], o)| ==
            |Pointers(target, o)| + if t == o && (s in target ==> target[s] != o) then 1 else 0
  {
    if t == o && s in target && target[s] == o {
      assert s in Pointers(target, o);
      assert Pointers(target[s := t], o) == Pointers(target, o);
    } else if t == o {
      assert s !in Pointers(target, o);
      assert Pointers(target[s := t], o) == Pointers(target, o) + {s};
    } else {
      assert Pointers(target[s := t], o) == Pointers(target, o);
    }
  }

  // Each count is the number of pointers, and one more for the object extra: the pointer to it that was just let go.
  ghost predicate Counted(count: map<Obj, int>, target: map<Ptr, Obj>, extra: Obj) {
    && (forall o :: o in count ==> o != 0 && count[o] == |Pointers(target, o)| + if o == extra then 1 else 0)
    && (forall s :: s in target ==> target[s] == 0 || target[s] in count)
  }

  // The members of each object are pointers, and no two places hold the same.
  ghost predicate MembersOk(members: map<Obj, seq<Ptr>>, target: map<Ptr, Obj>) {
    && (forall o, i {:trigger members[o][i]} :: o in members && 0 <= i < |members[o]| ==> members[o][i] in target)
    && (forall o, i, j {:trigger members[o][i], members[o][j]} ::
          o in members && 0 <= i < j < |members[o]| ==> members[o][i] != members[o][j])
    && (forall o, p, i, j {:trigger members[o][i], members[p][j]} ::
          o in members && p in members && o != p && 0 <= i < |members[o]| && 0 <= j < |members[p]| ==>
              members[o][i] != members[p][j])
  }

  predicate IsMember(members: map<Obj, seq<Ptr>>, s: Ptr) {
    exists o :: o in members && s in members[o]
  }

  // The objects that exist, with their counts and their member pointers, what each pointer refers to, and the objects
  // that were deleted, in order. An address may be used again for a new object.
  datatype State = State(count: map<Obj, int>, members: map<Obj, seq<Ptr>>, target: map<Ptr, Obj>, deleted: seq<Obj>)

  ghost predicate Owing(s: State, extra: Obj) {
    Counted(s.count, s.target, extra) && MembersOk(s.members, s.target) && s.members.Keys == s.count.Keys
  }

  // ---- What letting go of a pointer does ----

  // The pointer is a member of one of the first n objects.
  ghost predicate MemberOfFirst(members: map<Obj, seq<Ptr>>, p: Ptr, os: seq<Obj>, n: nat) {
    exists j {:trigger os[j]} :: 0 <= j < n && j < |os| && os[j] in members && p in members[os[j]]
  }

  // Every pointer to the object at i is a member of an object before it, and, but for the first, there is one.
  ghost predicate Orphan(s: State, gone: seq<Obj>, i: nat)
    requires i < |gone|
  {
    && (forall p :: p in s.target && s.target[p] == gone[i] ==> MemberOfFirst(s.members, p, gone, i))
    && (i > 0 ==> exists p :: p in s.target && s.target[p] == gone[i])
  }

  // The objects in order of deletion: root first, and each other one when the last pointer to it went with those
  // before.
  ghost predicate Cascade(s: State, gone: seq<Obj>, root: Obj) {
    (|gone| > 0 ==> gone[0] == root) && forall i {:trigger Orphan(s, gone, i)} :: 0 <= i < |gone| ==> Orphan(s, gone, i)
  }

  ghost function Gone(a: State, b: State): seq<Obj> {
    if |a.deleted| <= |b.deleted| then b.deleted[|a.deleted|..] else []
  }

  ghost predicate EachOnce(gone: seq<Obj>) {
    forall i, j :: 0 <= i < j < |gone| ==> gone[i] != gone[j]
  }

  // Objects went in a cascade from root, each once, and no pointers but their members went.
  ghost predicate Went(a: State, b: State, root: Obj) {
    && b.deleted == a.deleted + Gone(a, b) && Cascade(a, Gone(a, b), root) && EachOnce(Gone(a, b))
    && (forall o :: o in Gone(a, b) <==> o in a.count && o !in b.count)
    && (forall p :: p in a.target && p !in b.target ==> MemberOfFirst(a.members, p, Gone(a, b), |Gone(a, b)|))
  }

  // What is left is as it was; an object that stays without pointers had none before. The stray pointers are members of
  // deleted objects that are still to go.
  ghost predicate Left(a: State, b: State, stray: set<Ptr>) {
    && (forall p :: p in b.target && IsMember(a.members, p) ==> IsMember(b.members, p) || p in stray)
    && b.count.Keys <= a.count.Keys && b.members.Keys <= a.members.Keys && b.target.Keys <= a.target.Keys
    && (forall o :: o in b.count ==> b.count[o] <= a.count[o] && (b.count[o] == 0 ==> a.count[o] == 0))
    && (forall o :: o in b.members ==> b.members[o] == a.members[o])
    && (forall p :: p in b.target ==> b.target[p] == a.target[p])
  }

  ghost predicate LessBut(a: State, b: State, root: Obj, stray: set<Ptr>) {
    Went(a, b, root) && Left(a, b, stray)
  }

  ghost predicate Less(a: State, b: State, root: Obj) {
    LessBut(a, b, root, {})
  }

  lemma GoneThen(a: State, b: State, c: State)
    requires b.deleted == a.deleted + Gone(a, b) && c.deleted == b.deleted + Gone(b, c)
    ensures c.deleted == a.deleted + Gone(a, c) && Gone(a, c) == Gone(a, b) + Gone(b, c)
  {
  }

  lemma FirstMore(members: map<Obj, seq<Ptr>>, p: Ptr, os: seq<Obj>, n: nat, more: seq<Obj>, m: nat)
    requires MemberOfFirst(members, p, os, n) && n <= |os| && n <= m
    ensures MemberOfFirst(members, p, os + more, m)
  {
    var j :| 0 <= j < n && os[j] in members && p in members[os[j]];
    assert (os + more)[j] == os[j];
  }

  lemma FirstAfter(a: State, b: State, p: Ptr, before: seq<Obj>, os: seq<Obj>, n: nat)
    requires MemberOfFirst(b.members, p, os, n) && n <= |os|
    requires forall o :: o in b.members ==> o in a.members && b.members[o] == a.members[o]
    ensures MemberOfFirst(a.members, p, before + os, |before| + n)
  {
    var j :| 0 <= j < n && os[j] in b.members && p in b.members[os[j]];
    assert (before + os)[|before| + j] == os[j];
  }

  // Cascades compose, when the second begins with the target of a member of the first.
  lemma CascadeThen(a: State, b: State, c: State, root: Obj, next: Obj, p: Ptr, stray: set<Ptr>)
    requires LessBut(a, b, root, stray) && Less(b, c, next)
    requires |Gone(a, b)| > 0 && p in a.target && a.target[p] == next
    ensures Cascade(a, Gone(a, b) + Gone(b, c), root)
  {
    var g, h := Gone(a, b), Gone(b, c);
    forall i | 0 <= i < |g + h| ensures Orphan(a, g + h, i) {
      if i < |g| {
        assert Orphan(a, g, i) && (g + h)[i] == g[i];
        forall q | q in a.target && a.target[q] == g[i] ensures MemberOfFirst(a.members, q, g + h, i) {
          FirstMore(a.members, q, g, i, h, i);
        }
      } else {
        var k := i - |g|;
        assert Orphan(b, h, k) && (g + h)[i] == h[k];
        forall q | q in a.target && a.target[q] == h[k] ensures MemberOfFirst(a.members, q, g + h, i) {
          if q in b.target {
            FirstAfter(a, b, q, g, h, k);
          } else {
            FirstMore(a.members, q, g, |g|, h, i);
          }
        }
        if k > 0 {
          var q :| q in b.target && b.target[q] == h[k];
          assert q in a.target && a.target[q] == h[k];
        }
      }
    }
    if |g + h| > 0 {
      assert (g + h)[0] == g[0];
    }
  }

  lemma LessThen(a: State, b: State, c: State, root: Obj, next: Obj, p: Ptr, stray: set<Ptr>)
    requires LessBut(a, b, root, stray) && Less(b, c, next)
    requires |Gone(a, b)| > 0 && p in a.target && a.target[p] == next
    ensures LessBut(a, c, root, stray)
  {
    CascadeThen(a, b, c, root, next, p, stray);
    PointersThen(a, b, c, root, next, stray);
    WentThen(a, b, c, root, next);
    LeftThen(a, b, c, stray);
    hide Went, Left;
  }

  lemma WentThen(a: State, b: State, c: State, root: Obj, next: Obj)
    requires Went(a, b, root) && Went(b, c, next) && Cascade(a, Gone(a, b) + Gone(b, c), root)
    requires c.count.Keys <= b.count.Keys <= a.count.Keys
    requires forall q :: q in a.target && q !in c.target ==> MemberOfFirst(a.members, q, Gone(a, c), |Gone(a, c)|)
    ensures Went(a, c, root)
  {
    hide Cascade, MemberOfFirst, Gone, EachOnce;
    GoneThen(a, b, c);
    GoneSum(Gone(a, b), Gone(b, c), a.count.Keys, b.count.Keys, c.count.Keys);
    OnceThen(Gone(a, b), Gone(b, c));
  }

  // What goes first is not there to go again.
  lemma GoneSum(g: seq<Obj>, h: seq<Obj>, a: set<Obj>, b: set<Obj>, c: set<Obj>)
    requires c <= b <= a
    requires (forall o :: o in g <==> o in a && o !in b) && forall o :: o in h <==> o in b && o !in c
    ensures (forall o :: o in g + h <==> o in a && o !in c) && forall o :: o in g ==> o !in h
  {
    forall o ensures o in g + h <==> o in a && o !in c {
      assert o in g + h <==> o in g || o in h;
    }
  }

  lemma OnceThen(g: seq<Obj>, h: seq<Obj>)
    requires EachOnce(g) && EachOnce(h) && forall o :: o in g ==> o !in h
    ensures EachOnce(g + h)
  {
    forall i, j | 0 <= i < j < |g + h| ensures (g + h)[i] != (g + h)[j] {
      if i < |g| <= j {
        assert g[i] in g && h[j - |g|] in h;
      }
    }
  }

  lemma LeftThen(a: State, b: State, c: State, stray: set<Ptr>)
    requires Left(a, b, stray) && Left(b, c, {})
    ensures Left(a, c, stray)
  {
    hide IsMember;
  }

  lemma PointersThen(a: State, b: State, c: State, root: Obj, next: Obj, stray: set<Ptr>)
    requires LessBut(a, b, root, stray) && Less(b, c, next)
    ensures forall q :: q in a.target && q !in c.target ==> MemberOfFirst(a.members, q, Gone(a, c), |Gone(a, c)|)
  {
    GoneThen(a, b, c);
    hide Cascade, IsMember;
    forall q | q in a.target && q !in c.target ensures MemberOfFirst(a.members, q, Gone(a, c), |Gone(a, c)|) {
      if q in b.target {
        FirstAfter(a, b, q, Gone(a, b), Gone(b, c), |Gone(b, c)|);
      } else {
        FirstMore(a.members, q, Gone(a, b), |Gone(a, b)|, Gone(b, c), |Gone(a, c)|);
      }
    }
  }

  // A count goes down as its extra is settled.
  lemma CountDown(s: State, o: Obj)
    requires Owing(s, o) && o in s.count
    ensures s.count[o] > 0 && Owing(Lowered(s, o), 0)
  {
  }

  // An object with no pointers is gone, and its members are pointers of nobody's.
  lemma ObjectGone(s: State, o: Obj)
    requires Owing(s, 0) && o in s.count && s.count[o] == 0
    ensures Owing(WithoutObject(s, o), 0) && Pending(WithoutObject(s, o), s.members[o], |s.members[o]|)
  {
    NoPointers(s, o);
  }

  lemma NoPointers(s: State, o: Obj)
    requires Owing(s, 0) && o in s.count && s.count[o] == 0
    ensures forall p :: p in s.target ==> s.target[p] != o
  {
    assert Pointers(s.target, o) == {};
    assert forall p :: p in s.target && s.target[p] == o ==> p in Pointers(s.target, o);
  }

  function WithoutObject(s: State, o: Obj): State {
    State(s.count - {o}, s.members - {o}, s.target, s.deleted + [o])
  }

  function Lowered(s: State, o: Obj): State
    requires o in s.count
  {
    s.(count := s.count[o := s.count[o] - 1])
  }

  // A pointer that is nobody's member is gone.
  lemma PointerLost(s: State, p: Ptr)
    requires Owing(s, 0) && p in s.target && !IsMember(s.members, p)
    ensures Owing(WithoutPointer(s, p), s.target[p])
  {
    forall o | o in s.count ensures s.count[o] == |Pointers(s.target - {p}, o)| + if o == s.target[p] then 1 else 0 {
      PointerGone(s.target, p, o);
    }
  }

  function WithoutPointer(s: State, p: Ptr): State {
    s.(target := s.target - {p})
  }

  lemma Same(a: State, root: Obj)
    ensures Less(a, a, root)
  {
  }

  // An object whose count went down has a pointer left, or is gone in the end.
  lemma DownLess(a: State, o: Obj, c: State)
    requires o in a.count && Less(Lowered(a, o), c, o) && (o in c.count ==> a.count[o] > 1)
    ensures Less(a, c, o)
  {
    var b := Lowered(a, o);
    assert b.count.Keys == a.count.Keys;
    assert forall i :: 0 <= i < |Gone(a, c)| ==> Orphan(b, Gone(a, c), i) ==> Orphan(a, Gone(a, c), i);
  }

  lemma GoneLess(a: State, o: Obj)
    requires Owing(a, 0) && o in a.count && a.count[o] == 0
    ensures Gone(a, WithoutObject(a, o)) == [o]
    ensures LessBut(a, WithoutObject(a, o), o, First(a.members[o], |a.members[o]|))
  {
    NoPointers(a, o);
    var b := WithoutObject(a, o);
    forall p | p in b.target && IsMember(a.members, p)
      ensures IsMember(b.members, p) || p in First(a.members[o], |a.members[o]|)
    {
      var x :| x in a.members && p in a.members[x];
      assert x != o ==> x in b.members && p in b.members[x];
    }
  }

  function First(ms: seq<Ptr>, i: nat): set<Ptr> {
    set j | 0 <= j < i && j < |ms| :: ms[j]
  }

  lemma FirstLess(ms: seq<Ptr>, i: nat)
    requires i < |ms| && forall j :: 0 <= j < i ==> ms[j] != ms[i]
    ensures First(ms, i + 1) - {ms[i]} == First(ms, i)
  {
  }

  // A member of the root, which is gone, may go.
  lemma PointerLess(a: State, s: State, root: Obj, p: Ptr, stray: set<Ptr>)
    requires LessBut(a, s, root, stray) && p in s.target
    requires root in Gone(a, s) && root in a.members && p in a.members[root]
    ensures LessBut(a, WithoutPointer(s, p), root, stray - {p}) && root in Gone(a, WithoutPointer(s, p))
  {
    hide Cascade, EachOnce, IsMember;
    assert Gone(a, WithoutPointer(s, p)) == Gone(a, s);
    var j :| 0 <= j < |Gone(a, s)| && Gone(a, s)[j] == root;
  }

  lemma StillFree(a: State, b: State, root: Obj, p: Ptr)
    requires Less(a, b, root) && p in a.target && !IsMember(a.members, p)
    ensures p in b.target && !IsMember(b.members, p) && b.target[p] == a.target[p]
  {
  }

  lemma {:induction false} FewerObjects(a: set<Obj>, b: set<Obj>)
    requires a <= b
    ensures |a| <= |b|
  {
    if x :| x in a {
      FewerObjects(a - {x}, b - {x});
    }
  }

  lemma FewerCounts(a: State, b: State, o: Obj, stray: set<Ptr>)
    requires LessBut(a, b, o, stray) && o in a.count && o !in b.count
    ensures |b.count| < |a.count|
  {
    FewerObjects(b.count.Keys, a.count.Keys - {o});
    assert |a.count| == |a.count.Keys| && |b.count| == |b.count.Keys|;
  }

  // The first i pointers of a deleted object's members are still there, and are nobody's.
  ghost predicate Pending(s: State, ms: seq<Ptr>, i: nat) {
    forall j :: 0 <= j < i && j < |ms| ==> ms[j] in s.target && !IsMember(s.members, ms[j])
  }

  lemma NoneLeft(a: State, b: State, root: Obj, ms: seq<Ptr>)
    requires LessBut(a, b, root, First(ms, 0))
    ensures Less(a, b, root)
  {
  }

  lemma PendingAt(s: State, ms: seq<Ptr>, i: nat)
    requires i < |ms| && Pending(s, ms, i + 1)
    ensures ms[i] in s.target && !IsMember(s.members, ms[i])
  {
  }

  // The next of them was let go.
  lemma PendingNext(a: State, s: State, b: State, o: Obj, ms: seq<Ptr>, i: nat)
    requires o in a.members && ms == a.members[o] && i < |ms| && Pending(s, ms, i + 1)
    requires ms[i] in s.target && LessBut(a, s, o, First(ms, i + 1)) && o in Gone(a, s)
    requires forall j :: 0 <= j < i ==> ms[j] != ms[i]
    requires Less(WithoutPointer(s, ms[i]), b, s.target[ms[i]])
    ensures LessBut(a, b, o, First(ms, i)) && o in Gone(a, b) && Pending(b, ms, i)
  {
    var s2 := WithoutPointer(s, ms[i]);
    MemberTarget(a, s, o, ms, i);
    hide Less, IsMember, LessBut, Gone, Pending, First;
    GoneStays(s2, b, s.target[ms[i]]);
    PointerLess(a, s, o, ms[i], First(ms, i + 1));
    FirstLess(ms, i);
    GoneThen2(a, s2, b, o, First(ms, i));
    LessThen(a, s2, b, o, s.target[ms[i]], ms[i], First(ms, i));
    PendingStays(s, b, ms, i);
  }

  lemma PendingStays(s: State, b: State, ms: seq<Ptr>, i: nat)
    requires i < |ms| && Pending(s, ms, i + 1) && (forall j :: 0 <= j < i ==> ms[j] != ms[i]) && ms[i] in s.target
    requires Less(WithoutPointer(s, ms[i]), b, s.target[ms[i]])
    ensures Pending(b, ms, i)
  {
    hide Less, LessBut, IsMember;
    forall j | 0 <= j < i ensures ms[j] in b.target && !IsMember(b.members, ms[j]) {
      StillFree(WithoutPointer(s, ms[i]), b, s.target[ms[i]], ms[j]);
    }
  }

  class Graph {
    var count: map<Obj, int>
    var members: map<Obj, seq<Ptr>>
    var target: map<Ptr, Obj>
    ghost var deleted: seq<Obj>

    ghost function Now(): State
      reads this
    {
      State(count, members, target, deleted)
    }

    ghost predicate Valid()
      reads this
    {
      Owing(Now(), 0)
    }

    constructor ()
      ensures Valid() && Now() == State(map[], map[], map[], [])
    {
      count, members, target, deleted := map[], map[], map[], [];
    }

    // decReferenceCount, for a pointer that is let go
    method Dec(o: Obj)
      requires Owing(Now(), o) && o in count
      modifies this
      ensures Valid() && Less(old(Now()), Now(), o)
      ensures o in count <==> old(count)[o] > 1
      ensures o in count ==> Now() == Lowered(old(Now()), o)
      decreases |count|, 2
    {
      hide Owing, Less, LessBut, IsMember;
      CountDown(Now(), o);
      ghost var before := Now();
      count := count[o := count[o] - 1];
      assert Now() == Lowered(before, o);
      Same(Now(), o);
      assert |count| == |before.count|;
      if count[o] == 0 {
        Delete(o);
      }
      DownLess(before, o, Now());
    }

    // delete: the destructors of the members, last first
    method Delete(o: Obj)
      requires Valid() && o in count && count[o] == 0
      modifies this
      ensures Valid() && Less(old(Now()), Now(), o) && o !in count
      decreases |count|, 1
    {
      hide Owing, Less, LessBut, IsMember, Gone;
      ghost var a := Now();
      HasMembers(a, o);
      var ms := members[o];
      ObjectGone(a, o);
      GoneLess(a, o);
      count, members, deleted := count - {o}, members - {o}, deleted + [o];
      assert Now() == WithoutObject(a, o);
      var i := |ms|;
      while i > 0
        invariant 0 <= i <= |ms| && Valid() && LessBut(a, Now(), o, First(ms, i)) && o in Gone(a, Now())
        invariant Pending(Now(), ms, i)
      {
        i := i - 1;
        ghost var s := Now();
        NotThere(a, s, o, First(ms, i + 1));
        FewerCounts(a, s, o, First(ms, i + 1));
        PendingAt(s, ms, i);
        LetGo(ms[i]);
        PendingNext(a, s, Now(), o, ms, i);
      }
      NoneLeft(a, Now(), o, ms);
      NotThere(a, Now(), o, First(ms, 0));
    }

    // ~RefCountedObjectPtr, of a pointer that is no object's member
    method LetGo(p: Ptr)
      requires Valid() && p in target && !IsMember(members, p)
      modifies this
      ensures Valid() && Less(WithoutPointer(old(Now()), p), Now(), old(target)[p])
      ensures old(target)[p] != 0 ==> (old(target)[p] in count <==> old(count)[old(target)[p]] > 1)
      ensures old(target)[p] != 0 && old(target)[p] in count ==>
                Now() == Lowered(WithoutPointer(old(Now()), p), old(target)[p])
      ensures old(target)[p] == 0 ==> Now() == WithoutPointer(old(Now()), p)
      decreases |count|, 3
    {
      hide Owing, Less, LessBut, IsMember;
      var t := target[p];
      PointerLost(Now(), p);
      TargetExists(Now(), p);
      target := target - {p};
      Same(Now(), t);
      if t != 0 {
        Dec(t);
      }
    }

    // A new object, with no pointers to it, and null pointers for members
    method NewObject(o: Obj, ps: seq<Ptr>)
      requires Valid() && CanMake(count, target, o, ps)
      modifies this
      ensures Valid() && count == old(count)[o := 0] && members == old(members)[o := ps] && deleted == old(deleted)
      ensures target == old(target) + NullPointers(ps)
    {
      ObjectMade(Now(), o, ps);
      count, members, target := count[o := 0], members[o := ps], target + NullPointers(ps);
    }

    // The constructors of a pointer, from null, an object, or another pointer's object
    method NewPointer(p: Ptr, o: Obj)
      requires Valid() && p !in target && (o == 0 || o in count)
      modifies this
      ensures Valid() && Now() == Raised(old(Now()), p, o)
    {
      PointerMade(Now(), p, o);
      if o != 0 {
        count := count[o := count[o] + 1];
      }
      target := target[p := o];
    }

    // operator=: the count of the new object is raised before the old object is let go. The pointer may be a member,
    // even of an object that goes with the old one; then it goes too.
    method Assign(p: Ptr, o: Obj)
      requires Valid() && p in target && (o == 0 || o in count)
      modifies this
      ensures Valid() && (old(target)[p] == o ==> Now() == old(Now()))
      ensures old(target)[p] != o ==> Less(Raised(old(Now()), p, o), Now(), old(target)[p])
      ensures old(target)[p] !in {0, o} ==> (old(target)[p] in count <==> old(count)[old(target)[p]] > 1)
      ensures old(target)[p] !in {0, o} && old(target)[p] in count ==>
                Now() == Lowered(Raised(old(Now()), p, o), old(target)[p])
      ensures old(target)[p] == 0 ==> Now() == Raised(old(Now()), p, o)
      ensures (p in target && o != 0 ==> o in count) && (!IsMember(old(members), p) ==> p in target)
    {
      ghost var a := Now();
      hide Owing, Less, LessBut, IsMember;
      TargetExists(a, p);
      if target[p] != o {
        PointerMoved(a, p, o);
        if o != 0 {
          count := count[o := count[o] + 1];
        }
        var oldObject := target[p];
        target := target[p := o];
        Same(Now(), oldObject);
        if oldObject != 0 {
          Dec(oldObject);
        }
        StillThere(Raised(a, p, o), Now(), oldObject, p);
      }
    }
  }

  predicate CanMake(count: map<Obj, int>, target: map<Ptr, Obj>, o: Obj, ps: seq<Ptr>) {
    && o != 0 && o !in count && (forall i :: 0 <= i < |ps| ==> ps[i] !in target)
    && forall i, j :: 0 <= i < j < |ps| ==> ps[i] != ps[j]
  }

  function NullPointers(ps: seq<Ptr>): map<Ptr, Obj> {
    map i | i in ps :: 0
  }

  // A pointer is made to refer to an object, whose count is raised.
  function Raised(s: State, p: Ptr, o: Obj): State
    requires o == 0 || o in s.count
  {
    s.(count := if o == 0 then s.count else s.count[o := s.count[o] + 1], target := s.target[p := o])
  }

  lemma ObjectMade(s: State, o: Obj, ps: seq<Ptr>)
    requires Owing(s, 0) && CanMake(s.count, s.target, o, ps)
    ensures Owing(State(s.count[o := 0], s.members[o := ps], s.target + NullPointers(ps), s.deleted), 0)
  {
    var t := s.target + NullPointers(ps);
    forall x: Obj | x != 0 ensures Pointers(t, x) == Pointers(s.target, x) {
    }
    assert Pointers(t, o) == {};
  }

  lemma PointerMade(s: State, p: Ptr, o: Obj)
    requires Owing(s, 0) && p !in s.target && (o == 0 || o in s.count)
    ensures Owing(Raised(s, p, o), 0)
  {
    forall x | x in s.count
      ensures |Pointers(s.target[p := o], x)| == |Pointers(s.target, x)| + if x == o then 1 else 0
    {
      PointerSet(s.target, p, o, x);
    }
  }

  // A pointer moves from one object to another: the first has one count too many until it is let go.
  lemma PointerMoved(s: State, p: Ptr, o: Obj)
    requires Owing(s, 0) && p in s.target && (o == 0 || o in s.count) && s.target[p] != o
    ensures Owing(Raised(s, p, o), s.target[p])
    ensures s.target[p] == 0 || s.target[p] in s.count
  {
    forall x | x in s.count
      ensures |Pointers(s.target[p := o], x)| ==
              |Pointers(s.target, x)| + (if x == o then 1 else 0) - (if x == s.target[p] then 1 else 0)
    {
      PointerGone(s.target, p, x);
      PointerSet(s.target - {p}, p, o, x);
      assert (s.target - {p})[p := o] == s.target[p := o];
    }
  }

  lemma StillThere(a: State, c: State, root: Obj, p: Ptr)
    requires Less(a, c, root) && Owing(c, 0) && p in a.target
    ensures p in c.target ==> c.target[p] == a.target[p] && (a.target[p] != 0 ==> a.target[p] in c.count)
    ensures !IsMember(a.members, p) ==> p in c.target
  {
  }

  lemma NotThere(a: State, b: State, root: Obj, stray: set<Ptr>)
    requires LessBut(a, b, root, stray) && root in Gone(a, b)
    ensures root !in b.count && root in a.count
  {
  }

  lemma GoneThen2(a: State, b: State, c: State, o: Obj, stray: set<Ptr>)
    requires LessBut(a, b, o, stray) && o in Gone(a, b) && c.deleted == b.deleted + Gone(b, c)
    ensures o in Gone(a, c) && |Gone(a, b)| > 0
  {
    GoneThen(a, b, c);
  }

  lemma MemberTarget(a: State, s: State, o: Obj, ms: seq<Ptr>, i: nat)
    requires LessBut(a, s, o, First(ms, i + 1)) && i < |ms| && Pending(s, ms, i + 1)
    ensures ms[i] in a.target && ms[i] in s.target && a.target[ms[i]] == s.target[ms[i]]
  {
  }

  lemma GoneStays(a: State, b: State, root: Obj)
    requires Less(a, b, root)
    ensures b.deleted == a.deleted + Gone(a, b)
  {
  }

  lemma TargetExists(s: State, p: Ptr)
    requires Owing(s, 0) && p in s.target
    ensures s.target[p] == 0 || s.target[p] in s.count
  {
  }

  lemma HasMembers(s: State, o: Obj)
    requires Owing(s, 0) && o in s.count
    ensures o in s.members && forall i, j :: 0 <= i < j < |s.members[o]| ==> s.members[o][i] != s.members[o][j]
  {
  }

  // ---- Exactly what goes ----

  // No object but those of the set has all its pointers in members of objects of the set. The root needs no pointer.
  ghost predicate Closed(s: State, root: Obj, os: set<Obj>) {
    forall o :: o in s.count && (o == root || HasPointer(s, o)) && AllWithin(s, o, os) ==> o in os
  }

  ghost predicate HasPointer(s: State, o: Obj) {
    exists p :: p in s.target && s.target[p] == o
  }

  ghost predicate MemberOf(members: map<Obj, seq<Ptr>>, p: Ptr, os: set<Obj>) {
    exists o :: o in os && o in members && p in members[o]
  }

  ghost predicate AllWithin(s: State, o: Obj, os: set<Obj>) {
    forall p :: p in s.target && s.target[p] == o ==> MemberOf(s.members, p, os)
  }

  function Elements(os: seq<Obj>): set<Obj> {
    set o | o in os
  }

  // The objects deleted with a pointer are the least set so closed: an object goes if and only if no pointer to it
  // would stay.
  lemma GoneExactly(a: State, b: State, root: Obj)
    requires Owing(a, root) && Less(a, b, root) && Owing(b, 0)
    ensures Closed(a, root, Elements(Gone(a, b)))
    ensures forall os {:trigger Closed(a, root, os)} :: Closed(a, root, os) ==> Elements(Gone(a, b)) <= os
  {
    var gone := Gone(a, b);
    forall o | o in a.count && (o == root || HasPointer(a, o)) && AllWithin(a, o, Elements(gone)) ensures o in gone {
      if o in b.count {
        StaysWithPointer(a, b, root, o);
      }
    }
    forall os | Closed(a, root, os) ensures Elements(gone) <= os {
      GoneLeast(a, gone, root, os, |gone|);
    }
  }

  lemma StaysWithPointer(a: State, b: State, root: Obj, o: Obj)
    requires Owing(a, root) && Less(a, b, root) && Owing(b, 0)
    requires o in b.count && (o == root || HasPointer(a, o))
    ensures !AllWithin(a, o, Elements(Gone(a, b)))
  {
    assert a.count[o] > 0 by {
      if p :| p in a.target && a.target[p] == o {
        assert p in Pointers(a.target, o);
      }
    }
    assert Pointers(b.target, o) != {};
    var p :| p in Pointers(b.target, o);
    if x :| x in Elements(Gone(a, b)) && x in a.members && p in a.members[x] {
      assert IsMember(a.members, p);
      var y :| y in b.members && p in b.members[y];
      OneOwner(a, p, x, y);
    }
  }

  lemma OneOwner(s: State, p: Ptr, x: Obj, y: Obj)
    requires MembersOk(s.members, s.target)
    requires x in s.members && y in s.members && p in s.members[x] && p in s.members[y]
    ensures x == y
  {
    var i, j :| 0 <= i < |s.members[x]| && 0 <= j < |s.members[y]| && s.members[x][i] == p && s.members[y][j] == p;
  }

  lemma {:induction false} GoneLeast(a: State, gone: seq<Obj>, root: Obj, os: set<Obj>, n: nat)
    requires Cascade(a, gone, root) && Closed(a, root, os) && n <= |gone| && forall o :: o in gone ==> o in a.count
    ensures forall i :: 0 <= i < n ==> gone[i] in os
  {
    if n > 0 {
      GoneLeast(a, gone, root, os, n - 1);
      assert Orphan(a, gone, n - 1);
      forall p | p in a.target && a.target[p] == gone[n - 1] ensures MemberOf(a.members, p, os) {
        var j :| 0 <= j < n - 1 && gone[j] in a.members && p in a.members[gone[j]];
      }
      assert AllWithin(a, gone[n - 1], os);
    }
  }

  // A deleted object had a count above zero: a new one, to which no pointer was made yet, never goes.
  lemma DeletedWereCounted(a: State, b: State, root: Obj, o: Obj)
    requires Owing(a, root) && Less(a, b, root) && o in a.count && o !in b.count
    ensures a.count[o] > 0
  {
    var i :| 0 <= i < |Gone(a, b)| && Gone(a, b)[i] == o;
    assert Orphan(a, Gone(a, b), i);
    if i > 0 {
      var p :| p in a.target && a.target[p] == o;
      assert p in Pointers(a.target, o);
    }
  }

  // ---- Nothing is kept without a reason ----

  // One object has a member pointer to another.
  ghost predicate Owns(s: State, o: Obj, x: Obj) {
    o in s.members && exists p :: p in s.members[o] && p in s.target && s.target[p] == x
  }

  ghost predicate OwnedPath(s: State, path: seq<Obj>) {
    forall i {:trigger path[i]} :: 0 < i < |path| ==> Owns(s, path[i - 1], path[i])
  }

  // An object that the program itself holds: through a pointer of its own, or, when no pointer refers to it, as it
  // made it.
  ghost predicate Held(s: State, o: Obj) {
    o in s.count && (s.count[o] == 0 || exists p :: p in s.target && s.target[p] == o && !IsMember(s.members, p))
  }

  // A chain of members from an object that the program holds.
  ghost predicate Chain(s: State, path: seq<Obj>, x: Obj) {
    |path| > 0 && Held(s, path[0]) && path[|path| - 1] == x && OwnedPath(s, path)
  }

  ghost predicate Reached(s: State, x: Obj) {
    exists path :: Chain(s, path, x)
  }

  lemma ChainMore(s: State, path: seq<Obj>, o: Obj, x: Obj)
    requires Chain(s, path, o) && Owns(s, o, x)
    ensures Chain(s, path + [x], x)
  {
    var longer := path + [x];
    forall i {:trigger longer[i]} | 0 < i < |longer| ensures Owns(s, longer[i - 1], longer[i]) {
      if i < |path| {
        assert longer[i] == path[i] && longer[i - 1] == path[i - 1];
      }
    }
  }

  // When the objects are ranked, each above those its members refer to, every object is owned, through some chain of
  // members, by one that the program holds.
  lemma {:induction false} NoLeak(s: State, rank: Obj -> nat, bound: nat, x: Obj)
    requires Owing(s, 0) && x in s.count
    requires forall o, y :: o in s.count && Owns(s, o, y) && y != 0 ==> rank(y) < rank(o)
    requires forall o :: o in s.count ==> rank(o) <= bound
    ensures Reached(s, x)
    decreases bound - rank(x)
  {
    if Held(s, x) {
      assert Chain(s, [x], x);
    } else {
      var o := OwnerOf(s, x);
      NoLeak(s, rank, bound, o);
      var path :| Chain(s, path, o);
      ChainMore(s, path, o, x);
    }
  }

  lemma OwnerOf(s: State, x: Obj) returns (o: Obj)
    requires Owing(s, 0) && x in s.count && !Held(s, x)
    ensures o in s.count && Owns(s, o, x)
  {
    assert s.count[x] == |Pointers(s.target, x)| && s.count[x] != 0;
    var p :| p in Pointers(s.target, x);
    o :| o in s.members && p in s.members[o];
  }

  // Objects with counts above zero, to which only members of objects of the same set refer.
  ghost predicate Isolated(s: State, c: set<Obj>) {
    && c <= s.count.Keys && (forall o :: o in c ==> s.count[o] > 0)
    && forall p :: p in s.target && s.target[p] in c ==> MemberOf(s.members, p, c)
  }

  // An object is owned through no chain from one that the program holds if and only if it lies in such a set.
  lemma LeakedExactly(s: State, x: Obj)
    requires Owing(s, 0) && x in s.count
    ensures !Reached(s, x) <==> exists c :: x in c && Isolated(s, c)
  {
    if !Reached(s, x) {
      UnreachedIsolated(s);
    }
    forall c, path | x in c && Isolated(s, c) ensures !Chain(s, path, x) {
      if Chain(s, path, x) {
        HeldOutside(s, c, path[0]);
        PathWithin(s, c, path, 0);
      }
    }
  }

  lemma HeldOutside(s: State, c: set<Obj>, o: Obj)
    requires Isolated(s, c) && Held(s, o)
    ensures o !in c
  {
    if s.count[o] > 0 {
      var p :| p in s.target && s.target[p] == o && !IsMember(s.members, p);
      assert !MemberOf(s.members, p, c);
    }
  }

  lemma OwnerOutside(s: State, c: set<Obj>, p: Ptr, o: Obj)
    requires MembersOk(s.members, s.target) && Isolated(s, c) && o in s.members && p in s.members[o] && o !in c
    ensures p in s.target && s.target[p] !in c
  {
    var i :| 0 <= i < |s.members[o]| && s.members[o][i] == p;
    forall x | x in c && x in s.members ensures p !in s.members[x] {
      forall j | 0 <= j < |s.members[x]| ensures s.members[x][j] != p {
      }
    }
  }

  ghost function Unreached(s: State): set<Obj> {
    set x | x in s.count && !Reached(s, x)
  }

  lemma UnreachedIsolated(s: State)
    requires Owing(s, 0)
    ensures Isolated(s, Unreached(s))
  {
    forall x | x in Unreached(s) ensures !Held(s, x) {
      assert Held(s, x) ==> Chain(s, [x], x);
    }
    forall x | x in Unreached(s) ensures s.count[x] > 0 {
      assert s.count[x] == |Pointers(s.target, x)|;
    }
    forall p | p in s.target && s.target[p] in Unreached(s) ensures MemberOf(s.members, p, Unreached(s)) {
      var o :| o in s.members && p in s.members[o];
      if Reached(s, o) {
        var path :| Chain(s, path, o);
        ChainMore(s, path, o, s.target[p]);
      }
      assert o in Unreached(s);
    }
  }

  // Chains do not enter such a set.
  lemma {:induction false} PathWithin(s: State, c: set<Obj>, path: seq<Obj>, i: nat)
    requires Owing(s, 0) && Isolated(s, c) && OwnedPath(s, path) && i < |path| && path[|path| - 1] in c
    ensures path[i] in c
    decreases |path| - i
  {
    if i < |path| - 1 {
      PathWithin(s, c, path, i + 1);
      assert Owns(s, path[(i + 1) - 1], path[i + 1]);
      var p :| p in s.members[path[i]] && p in s.target && s.target[p] == path[i + 1];
      if path[i] !in c {
        OwnerOutside(s, c, p, path[i]);
      }
    }
  }

  // ---- Such a set stays for good ----

  // The set is as it was.
  ghost predicate Stays(a: State, b: State, c: set<Obj>) {
    Isolated(b, c) && forall o :: o in c ==> o in a.members && o in b.members && b.members[o] == a.members[o]
  }

  lemma {:induction false} NoneGoes(a: State, gone: seq<Obj>, root: Obj, c: set<Obj>, n: nat)
    requires MembersOk(a.members, a.target) && Cascade(a, gone, root) && Isolated(a, c) && root !in c && n <= |gone|
    ensures forall i :: 0 <= i < n ==> gone[i] !in c
  {
    if n > 0 {
      NoneGoes(a, gone, root, c, n - 1);
      assert Orphan(a, gone, n - 1);
      if n > 1 {
        var p :| p in a.target && a.target[p] == gone[n - 1];
        var j :| 0 <= j < n - 1 && gone[j] in a.members && p in a.members[gone[j]];
        OwnerOutside(a, c, p, gone[j]);
      }
    }
  }

  // It survives when a pointer to an object outside it is let go.
  lemma LessStays(a: State, b: State, root: Obj, c: set<Obj>)
    requires Owing(a, root) && Less(a, b, root) && Owing(b, 0) && Isolated(a, c) && root !in c
    ensures Stays(a, b, c)
  {
    NoneGoes(a, Gone(a, b), root, c, |Gone(a, b)|);
    forall o | o in c ensures o in b.count {
      assert o !in Gone(a, b);
    }
    forall p | p in b.target && b.target[p] in c ensures MemberOf(b.members, p, c) {
      var o :| o in c && o in a.members && p in a.members[o];
      assert o in b.members && p in b.members[o];
    }
  }

  // ---- Any run over a graph ----

  datatype Op = Make(o: Obj, ps: seq<Ptr>) | Refer(p: Ptr, o: Obj) | Drop(p: Ptr) | Set(p: Ptr, o: Obj)

  predicate CanDo(count: map<Obj, int>, members: map<Obj, seq<Ptr>>, target: map<Ptr, Obj>, op: Op) {
    match op
    case Make(o, ps) => CanMake(count, target, o, ps)
    case Refer(p, o) => p !in target && (o == 0 || o in count)
    case Drop(p) => p in target && !IsMember(members, p)
    case Set(p, o) => p in target && (o == 0 || o in count)
  }

  ghost predicate Did(a: State, op: Op, b: State)
    requires CanDo(a.count, a.members, a.target, op)
  {
    match op
    case Make(o, ps) =>
      b == State(a.count[o := 0], a.members[o := ps], a.target + NullPointers(ps), a.deleted)
    case Refer(p, o) => b == Raised(a, p, o)
    case Drop(p) => Less(WithoutPointer(a, p), b, a.target[p])
    case Set(p, o) => if a.target[p] == o then b == a else Less(Raised(a, p, o), b, a.target[p])
  }

  ghost predicate Stepped(a: State, op: Op, b: State) {
    Owing(a, 0) && Owing(b, 0) && if CanDo(a.count, a.members, a.target, op) then Did(a, op, b) else b == a
  }

  method Perform(graph: Graph, op: Op)
    requires graph.Valid()
    modifies graph
    ensures Stepped(old(graph.Now()), op, graph.Now())
  {
    hide Owing, Less, IsMember;
    if CanDo(graph.count, graph.members, graph.target, op) {
      match op
      case Make(o, ps) => graph.NewObject(o, ps);
      case Refer(p, o) => graph.NewPointer(p, o);
      case Drop(p) => graph.LetGo(p);
      case Set(p, o) => graph.Assign(p, o);
    }
  }

  ghost predicate Steps(ops: seq<Op>, states: seq<State>) {
    |states| == |ops| + 1 && forall i {:trigger ops[i]} :: 0 <= i < |ops| ==> Stepped(states[i], ops[i], states[i + 1])
  }

  // Whatever is made, referred to, assigned and let go, in whatever order, each count is right after each step.
  method Run(ops: seq<Op>) returns (graph: Graph, ghost states: seq<State>)
    ensures fresh(graph) && graph.Valid() && Steps(ops, states)
    ensures states[0] == State(map[], map[], map[], []) && states[|ops|] == graph.Now()
  {
    graph := new Graph();
    states := [graph.Now()];
    for i := 0 to |ops|
      invariant fresh(graph) && graph.Valid() && Steps(ops[..i], states)
      invariant states[0] == State(map[], map[], map[], []) && states[i] == graph.Now()
    {
      hide Stepped;
      ghost var before := states;
      Perform(graph, ops[i]);
      states := states + [graph.Now()];
      forall j | 0 <= j < i + 1 ensures Stepped(states[j], ops[..i + 1][j], states[j + 1]) {
        if j < i {
          assert ops[..i + 1][j] == ops[..i][j] && states[j] == before[j] && states[j + 1] == before[j + 1];
        }
      }
    }
    assert ops[..|ops|] == ops;
  }

  // The operation names no object of the set, and no member of one.
  ghost predicate Outside(members: map<Obj, seq<Ptr>>, op: Op, c: set<Obj>) {
    match op
    case Make(_, _) => true
    case Refer(_, o) => o !in c
    case Drop(_) => true
    case Set(p, o) => o !in c && !MemberOf(members, p, c)
  }

  lemma StepStays(a: State, op: Op, b: State, c: set<Obj>)
    requires Stepped(a, op, b) && Isolated(a, c) && Outside(a.members, op, c)
    ensures Stays(a, b, c)
  {
    hide Owing, Less, Isolated, MemberOf, IsMember;
    OwingIs(a);
    if CanDo(a.count, a.members, a.target, op) {
      match op
      case Make(o, ps) => MadeStays(a, o, ps, c);
      case Refer(p, o) => RaisedStays(a, p, o, c);
      case Drop(p) =>
        FreeTarget(a, p, c);
        PointerLost(a, p);
        FewerIsolated(a, p, c);
        LessStays(WithoutPointer(a, p), b, a.target[p], c);
      case Set(p, o) =>
        if a.target[p] != o {
          FreeTarget(a, p, c);
          PointerMoved(a, p, o);
          RaisedStays(a, p, o, c);
          LessStays(Raised(a, p, o), b, a.target[p], c);
        } else {
          SameStays(a, c);
        }
    } else {
      SameStays(a, c);
    }
  }

  lemma OwingIs(s: State)
    requires Owing(s, 0)
    ensures s.members.Keys == s.count.Keys && MembersOk(s.members, s.target) && 0 !in s.count
  {
  }

  lemma SameStays(a: State, c: set<Obj>)
    requires Isolated(a, c) && a.members.Keys == a.count.Keys
    ensures Stays(a, a, c)
  {
  }

  // A pointer that is no member of an object of the set refers to none of them.
  lemma FreeTarget(a: State, p: Ptr, c: set<Obj>)
    requires Isolated(a, c) && p in a.target && (!IsMember(a.members, p) || !MemberOf(a.members, p, c))
    ensures a.target[p] !in c && !MemberOf(a.members, p, c)
  {
  }

  lemma FewerIsolated(a: State, p: Ptr, c: set<Obj>)
    requires Isolated(a, c)
    ensures Isolated(WithoutPointer(a, p), c)
  {
  }

  lemma RaisedStays(a: State, p: Ptr, o: Obj, c: set<Obj>)
    requires Isolated(a, c) && a.members.Keys == a.count.Keys && o !in c && (o == 0 || o in a.count)
    ensures Stays(a, Raised(a, p, o), c)
  {
  }

  lemma MadeStays(a: State, o: Obj, ps: seq<Ptr>, c: set<Obj>)
    requires Isolated(a, c) && a.members.Keys == a.count.Keys && CanMake(a.count, a.target, o, ps) && 0 !in a.count
    ensures Stays(a, State(a.count[o := 0], a.members[o := ps], a.target + NullPointers(ps), a.deleted), c)
  {
    var b := State(a.count[o := 0], a.members[o := ps], a.target + NullPointers(ps), a.deleted);
    forall p | p in b.target && b.target[p] in c ensures MemberOf(b.members, p, c) {
      var x :| x in c && x in a.members && p in a.members[x];
      assert x in b.members && p in b.members[x];
    }
  }

  // Whatever the program does that names none of its objects, it stays.
  lemma {:induction false} CycleStays(ops: seq<Op>, states: seq<State>, i: nat, j: nat, c: set<Obj>)
    requires Steps(ops, states) && i <= j <= |ops| && Isolated(states[i], c)
    requires forall k :: i <= k < j ==> Outside(states[i].members, ops[k], c)
    ensures Stays(states[i], states[j], c) || (i == j && Isolated(states[j], c))
  {
    if i < j {
      CycleStays(ops, states, i, j - 1, c);
      assert Stepped(states[j - 1], ops[j - 1], states[j]);
      assert Outside(states[j - 1].members, ops[j - 1], c);
      StepStays(states[j - 1], ops[j - 1], states[j], c);
    }
  }

  // Two objects with a member each, and a pointer of the program's to the first.
  method MakePair() returns (graph: Graph)
    ensures fresh(graph) && graph.Valid() && graph.members == map[1 := [10], 2 := [20]]
    ensures graph.count == map[1 := 1, 2 := 0] && graph.target == map[10 := 0, 20 := 0, 100 := 1]
  {
    hide Owing;
    graph := new Graph();
    graph.NewObject(1, [10]);
    assert graph.target == map[10 := 0];
    graph.NewObject(2, [20]);
    assert graph.target == map[10 := 0, 20 := 0];
    graph.NewPointer(100, 1);
  }

  // Each is made the other's member.
  method MakeHeldCycle() returns (graph: Graph)
    ensures fresh(graph) && graph.Valid() && graph.members == map[1 := [10], 2 := [20]]
    ensures graph.count == map[1 := 2, 2 := 1] && graph.target == map[10 := 2, 20 := 1, 100 := 1]
  {
    hide Owing, Less, IsMember;
    graph := MakePair();
    graph.Assign(10, 2);
    assert graph.count == map[1 := 1, 2 := 1] && graph.target == map[10 := 2, 20 := 0, 100 := 1];
    graph.Assign(20, 1);
  }

  // Two objects that refer to each other, let go of by the program.
  method MakeCycle() returns (graph: Graph)
    ensures fresh(graph) && graph.Valid() && graph.count == map[1 := 1, 2 := 1] && Isolated(graph.Now(), {1, 2})
    ensures !Reached(graph.Now(), 1) && !Reached(graph.Now(), 2)
  {
    hide Owing, Less, Isolated, Reached, IsMember;
    graph := MakeHeldCycle();
    NotMember(graph.members);
    graph.LetGo(100);
    assert graph.target == map[10 := 2, 20 := 1];
    CycleLeaked(graph.Now());
  }

  lemma CycleLeaked(s: State)
    requires s.count == map[1 := 1, 2 := 1] && s.members == map[1 := [10], 2 := [20]]
    requires s.target == map[10 := 2, 20 := 1] && Owing(s, 0)
    ensures Isolated(s, {1, 2}) && !Reached(s, 1) && !Reached(s, 2)
  {
    CycleIsolated(s);
    LeakedExactly(s, 1);
    LeakedExactly(s, 2);
  }

  lemma NotMember(members: map<Obj, seq<Ptr>>)
    requires members == map[1 := [10], 2 := [20]]
    ensures !IsMember(members, 100)
  {
  }

  lemma CycleIsolated(s: State)
    requires s.count == map[1 := 1, 2 := 1] && s.members == map[1 := [10], 2 := [20]]
    requires s.target == map[10 := 2, 20 := 1]
    ensures Isolated(s, {1, 2})
  {
    assert 10 in s.members[1] && 20 in s.members[2];
  }
}
