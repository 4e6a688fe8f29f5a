// The searches of tmalloc_large and tmalloc_small: best fit in the tries, by
// a walk down one path, one walk down the leftmost children of one subtree,
// and comparisons of remainders in unsigned 64-bit arithmetic.
module TreeSearch {
  import opened TreeIndex
  import opened TriePath
  import opened BinMap
  import opened TreeBins

  // Unsigned subtraction.
  function Minus(a: nat, b: nat): nat {
    (a - b) % TWO64
  }

  // The best chunk seen so far and its remainder; with none, the remainder is the negated request.
  ghost predicate Best(t: Trie, nb: nat, v: Addr, rsize: nat) {
    nb + rsize <= TWO64 &&
    if v == NULL then rsize == TWO64 - nb
    else v in t.at && v in t.node && t.node[v].size >= nb && rsize == t.node[v].size - nb
  }

  // a fits the request no better than the remainder found so far.
  ghost predicate Covered(s: nat, nb: nat, rsize: nat) {
    s < nb || nb + rsize <= s
  }

  // Every chunk that fits is covered, lies below p, or is larger than everything below p.
  ghost predicate Pending(t: Trie, nb: nat, rsize: nat, p: Path) {
    forall a :: a in t.at && a in t.node ==>
      Covered(t.node[a].size, nb, rsize) || Extends(t.at[a], p) || t.node[a].size >= End(p)
  }

  ghost predicate AllCovered(t: Trie, nb: nat, rsize: nat) {
    forall a :: a in t.at && a in t.node ==> Covered(t.node[a].size, nb, rsize)
  }

  ghost predicate AllFit(t: Trie, nb: nat, p: Path) {
    forall a :: a in t.at && a in t.node && Extends(t.at[a], p) ==> t.node[a].size >= nb
  }

  // The unsigned comparison of remainders never prefers a chunk that is too small.
  lemma RemainderTest(t: Trie, nb: nat, v: Addr, rsize: nat, s: nat)
    requires Best(t, nb, v, rsize) && nb < TWO64 && s < TWO64
    ensures Minus(s, nb) < rsize <==> nb <= s < nb + rsize
    ensures nb <= s ==> Minus(s, nb) == s - nb
  {
    if s < nb {
      assert Minus(s, nb) == TWO64 + s - nb;
    }
  }

  lemma VisitKeeps(t: Trie, nb: nat, rsize: nat, rsize': nat, p: Path)
    requires Pending(t, nb, rsize, p) && rsize' <= rsize
    ensures Pending(t, nb, rsize', p)
  {
  }

  // Walking to the leftmost child keeps the smallest chunk in reach.
  lemma WalkLeft(t: Trie, nb: nat, rsize: nat, p: Path, h: Addr)
    requires Ok(t) && Pending(t, nb, rsize, p) && AllFit(t, nb, p)
    requires h in t.at && h in t.node && t.at[h] == p && rsize + nb <= t.node[h].size
    ensures Lo(p) in t.rings ==> Pending(t, nb, rsize, Lo(p)) && AllFit(t, nb, Lo(p))
    ensures Lo(p) !in t.rings && Hi(p) in t.rings ==> Pending(t, nb, rsize, Hi(p)) && AllFit(t, nb, Hi(p))
    ensures IsLeaf(t.rings, p) ==> AllCovered(t, nb, rsize)
  {
    hide Ok, Covered, Fits;
    Halves(p);
    forall a | a in t.at && a in t.node
      ensures Extends(t.at[a], Lo(p)) || Extends(t.at[a], Hi(p)) ==> Extends(t.at[a], p)
    {
      ExtendsTransitiveChild(t.at[a], p);
    }
    if Lo(p) in t.rings {
      forall a | a in t.at && a in t.node
        ensures Covered(t.node[a].size, nb, rsize) || Extends(t.at[a], Lo(p)) || t.node[a].size >= End(Lo(p))
      {
        SideOf(t, nb, rsize, p, h, a);
      }
    } else if Hi(p) in t.rings {
      forall a | a in t.at && a in t.node
        ensures Covered(t.node[a].size, nb, rsize) || Extends(t.at[a], Hi(p)) || t.node[a].size >= End(Hi(p))
      {
        SideOf(t, nb, rsize, p, h, a);
      }
    } else {
      forall a | a in t.at && a in t.node ensures Covered(t.node[a].size, nb, rsize) {
        SideOf(t, nb, rsize, p, h, a);
      }
    }
  }

  lemma ExtendsTransitiveChild(q: Path, p: Path)
    ensures Extends(q, Lo(p)) || Extends(q, Hi(p)) ==> Extends(q, p)
  {
    assert Extends(Lo(p), p) && Extends(Hi(p), p);
    if Extends(q, Lo(p)) {
      ExtendsTransitive(q, Lo(p), p);
    } else if Extends(q, Hi(p)) {
      ExtendsTransitive(q, Hi(p), p);
    }
  }

  // Where a chunk that is pending at p stands once the head h of p has been visited.
  lemma SideOf(t: Trie, nb: nat, rsize: nat, p: Path, h: Addr, a: Addr)
    requires Ok(t) && Pending(t, nb, rsize, p) && a in t.at && a in t.node
    requires h in t.at && h in t.node && t.at[h] == p && rsize + nb <= t.node[h].size
    ensures Covered(t.node[a].size, nb, rsize)
            || (Extends(t.at[a], Lo(p)) && Lo(p) in t.rings)
            || (Extends(t.at[a], Hi(p)) && Hi(p) in t.rings && t.node[a].size >= Base(Hi(p)))
  {
    OkParts(t);
    if Extends(t.at[a], p) && t.at[a] != p {
      ExtendsChild(t.at[a], p);
      if Extends(t.at[a], Lo(p)) {
        ClosedUp(t.rings, t.at[a], Lo(p));
      } else {
        ClosedUp(t.rings, t.at[a], Hi(p));
        ExtendsHolds(t.at[a], Hi(p), t.node[a].size);
      }
    }
  }

  // ---- The first phase of tmalloc_large: down the bin of the request ----

  // rst is the deepest right subtree passed by, at position rp; it holds only sizes above the request, and
  // every chunk that fits and is not below the current position lies in it or is larger than all it holds.
  ghost predicate Passed(t: Trie, p: Path, rst: Addr, rp: Path) {
    rst != NULL ==> rp in t.rings && |t.rings[rp]| > 0 && rst == t.rings[rp][0] && Base(rp) >= End(p)
  }

  ghost predicate Remaining(t: Trie, nb: nat, rsize: nat, p: Path, rst: Addr, rp: Path, i: nat) {
    forall a :: a in t.at && a in t.node ==>
      || Covered(t.node[a].size, nb, rsize)
      || Extends(t.at[a], p)
      || (rst != NULL && Extends(t.at[a], rp))
      || t.node[a].size >= (if rst != NULL then End(rp) else End(Root(i)))
  }

  lemma RemainingStart(t: Trie, nb: nat)
    requires Ok(t) && MIN_LARGE_SIZE <= nb < TWO64
    ensures BinOfSize(nb) < NTREEBINS
    ensures Remaining(t, nb, TWO64 - nb, Root(BinOfSize(nb)), NULL, Root(0), BinOfSize(nb))
  {
    var i := BinOfSize(nb);
    BinRange(nb);
    forall a | a in t.at && a in t.node
      ensures Covered(t.node[a].size, nb, TWO64 - nb) || Extends(t.at[a], Root(i)) || t.node[a].size >= End(Root(i))
    {
      OtherBin(t, nb, a);
    }
  }

  // A chunk of another bin is too small, or larger than every size of the bin of the request.
  lemma OtherBin(t: Trie, nb: nat, a: Addr)
    requires Ok(t) && MIN_LARGE_SIZE <= nb < TWO64 && a in t.at && a in t.node
    ensures var i := BinOfSize(nb);
      t.node[a].size < nb || Extends(t.at[a], Root(i)) || (Bin(t.at[a]) > i && t.node[a].size >= End(Root(i)))
  {
    OkParts(t);
    var s, i := t.node[a].size, BinOfSize(nb);
    ExtendsRoot(t.at[a]);
    BinRange(s);
    if BinOfSize(s) < i {
      LaterBinIsLarger(s, nb);
    } else if BinOfSize(s) > i {
      BinEnd(i, s);
    }
  }

  lemma BinEnd(i: nat, s: nat)
    requires s >= MIN_LARGE_SIZE && i < BinOfSize(s) < NTREEBINS
    ensures s >= End(Root(i))
  {
    BinRange(s);
    MinSizeStep(i);
    if i + 1 < BinOfSize(s) {
      MinSizeMonotone(i + 1, BinOfSize(s));
    }
  }

  // One level down for the request: what was below the old position and is not below the new one is either
  // too small or in the right subtree now passed by.
  lemma DownStep(t: Trie, nb: nat, rsize: nat, p: Path, h: Addr, rst: Addr, rp: Path, i: nat)
    requires Ok(t) && Remaining(t, nb, rsize, p, rst, rp, i) && Passed(t, p, rst, rp)
    requires Holds(p, nb) && Bits(p) >= 1 && End(p) <= End(Root(i))
    requires h in t.at && h in t.node && t.at[h] == p && Covered(t.node[h].size, nb, rsize)
    ensures var right := GoesRight(p, nb);
      var c := Child(p, right);
      var newRst := if !right && Hi(p) in t.rings then Head(t.rings, Hi(p)) else rst;
      var newRp := if !right && Hi(p) in t.rings then Hi(p) else rp;
      && Remaining(t, nb, rsize, c, newRst, newRp, i) && Passed(t, c, newRst, newRp) && End(c) <= End(Root(i))
  {
    hide Ok;
    OkParts(t);
    Halves(p);
    var right := GoesRight(p, nb);
    var c := Child(p, right);
    var newRst := if !right && Hi(p) in t.rings then Head(t.rings, Hi(p)) else rst;
    var newRp := if !right && Hi(p) in t.rings then Hi(p) else rp;
    ChildHolds(p, nb);
    if Hi(p) in t.rings {
      HeadNotNull(t, Hi(p));
    }
    forall a | a in t.at && a in t.node
      ensures || Covered(t.node[a].size, nb, rsize) || Extends(t.at[a], c)
              || (newRst != NULL && Extends(t.at[a], newRp))
              || t.node[a].size >= (if newRst != NULL then End(newRp) else End(Root(i)))
    {
      DownStepOne(t, nb, rsize, p, h, rst, rp, i, a);
    }
  }

  lemma HeadNotNull(t: Trie, q: Path)
    requires Ok(t) && q in t.rings
    ensures |t.rings[q]| > 0 && Head(t.rings, q) == t.rings[q][0] != NULL
    ensures t.rings[q][0] in t.at && t.rings[q][0] in t.node && t.at[t.rings[q][0]] == q
  {
    assert t.rings[q][0] in t.at;
  }

  lemma DownStepOne(t: Trie, nb: nat, rsize: nat, p: Path, h: Addr, rst: Addr, rp: Path, i: nat, a: Addr)
    requires Indexed(t.rings, t.at, t.pos) && Closed(t.rings) && Sized(t.node, t.at)
    requires Remaining(t, nb, rsize, p, rst, rp, i) && Passed(t, p, rst, rp)
    requires Holds(p, nb) && Bits(p) >= 1 && End(p) <= End(Root(i))
    requires h in t.at && h in t.node && t.at[h] == p && Covered(t.node[h].size, nb, rsize)
    requires a in t.at && a in t.node
    requires Hi(p) in t.rings ==> Head(t.rings, Hi(p)) != NULL
    ensures var right := GoesRight(p, nb);
      var c := Child(p, right);
      var newRst := if !right && Hi(p) in t.rings then Head(t.rings, Hi(p)) else rst;
      var newRp := if !right && Hi(p) in t.rings then Hi(p) else rp;
      || Covered(t.node[a].size, nb, rsize) || Extends(t.at[a], c)
      || (newRst != NULL && Extends(t.at[a], newRp))
      || t.node[a].size >= (if newRst != NULL then End(newRp) else End(Root(i)))
  {
    Halves(p);
    ChildHolds(p, nb);
    var s := t.node[a].size;
    if Extends(t.at[a], p) {
      if t.at[a] != p {
        ExtendsChild(t.at[a], p);
        if Extends(t.at[a], Lo(p)) {
          ExtendsHolds(t.at[a], Lo(p), s);
        } else {
          ClosedUp(t.rings, t.at[a], Hi(p));
        }
      }
    } else if rst != NULL && Extends(t.at[a], rp) {
      ExtendsHolds(t.at[a], rp, s);
    }
  }

  // The subtree passed by last holds the smallest chunks that fit, once nothing is left below the position.
  lemma PassedIsPending(t: Trie, nb: nat, rsize: nat, p: Path, rst: Addr, rp: Path, i: nat)
    requires Ok(t) && Remaining(t, nb, rsize, p, rst, rp, i) && Passed(t, p, rst, rp)
    requires p !in t.rings && Holds(p, nb)
    ensures rst != NULL ==> Pending(t, nb, rsize, rp) && AllFit(t, nb, rp)
    ensures rst == NULL ==> forall a :: a in t.at && a in t.node ==>
              Covered(t.node[a].size, nb, rsize) || t.node[a].size >= End(Root(i))
  {
    OkParts(t);
    hide Ok;
    forall a | a in t.at && a in t.node && Extends(t.at[a], p) ensures false {
      ClosedUp(t.rings, t.at[a], p);
    }
    if rst != NULL {
      forall a | a in t.at && a in t.node && Extends(t.at[a], rp) ensures t.node[a].size >= nb {
        ExtendsHolds(t.at[a], rp, t.node[a].size);
      }
    }
  }

  // What a visit to the tree node h at position p leaves: the better of it and the best so far.
  lemma Visit(t: Trie, nb: nat, v: Addr, rsize: nat, p: Path, h: Addr)
    requires Ok(t) && Best(t, nb, v, rsize) && nb < TWO64
    requires p in t.rings && h == t.rings[p][0]
    ensures h in t.at && h in t.node && t.at[h] == p && h != NULL && t.node[h].size < TWO64
    ensures Holds(p, t.node[h].size)
    ensures var trem := Minus(t.node[h].size, nb);
      var better := trem < rsize;
      var v', rsize' := if better then h else v, if better then trem else rsize;
      && Best(t, nb, v', rsize') && rsize' <= rsize && Covered(t.node[h].size, nb, rsize')
      && (better ==> nb + rsize' == t.node[h].size)
      && (rsize' == 0 ==> AllCovered(t, nb, rsize'))
  {
    HeadNotNull(t, p);
    OkParts(t);
    hide Ok;
    RemainderTest(t, nb, v, rsize, t.node[h].size);
  }

  lemma RemainingLess(t: Trie, nb: nat, rsize: nat, rsize': nat, p: Path, rst: Addr, rp: Path, i: nat)
    requires Remaining(t, nb, rsize, p, rst, rp, i) && rsize' <= rsize
    ensures Remaining(t, nb, rsize', p, rst, rp, i)
  {
  }

  lemma EndOfRoot(p: Path, i: nat, s: nat)
    requires Holds(p, s) && Bin(p) == i
    ensures s < End(Root(i))
  {
    ExtendsRoot(p);
    ExtendsHolds(p, Root(i), s);
  }

  // The first loop of tmalloc_large.
  method SearchBin(m: TreeBins, nb: nat, i: nat)
    returns (t: Addr, v: Addr, rsize: nat, ghost p: Path, ghost steps: nat)
    requires m.Valid() && MIN_LARGE_SIZE <= nb < TWO64 && i == BinOfSize(nb) && i < NTREEBINS
    requires m.treebins[i] != NULL
    ensures steps <= RootBits(i) + 1
    ensures Best(m.View(), nb, v, rsize) && (v != NULL ==> nb + rsize < End(Root(i)))
    ensures v == NULL ==> rsize == TWO64 - nb
    ensures t == NULL ==> forall a :: a in m.at && a in m.node ==>
              Covered(m.node[a].size, nb, rsize) || m.node[a].size >= End(Root(i))
    ensures t != NULL ==>
              && p in m.rings && |m.rings[p]| > 0 && t == m.rings[p][0]
              && Pending(m.View(), nb, rsize, p) && (AllFit(m.View(), nb, p) || AllCovered(m.View(), nb, rsize))
  {
    RootHead(m.View(), i);
    RootHolds(nb);
    RemainingStart(m.View(), nb);
    hide Ok, Best, Remaining, Pending, AllFit, Covered, AllCovered, Base, Width;
    v, rsize, t := NULL, TWO64 - nb, m.treebins[i];
    NoneBest(m.View(), nb);
    var sizebits := ShiftLeft(nb, LeftShift(i));
    var rst := NULL;
    ghost var rp := Root(0);
    p, steps := Root(i), 0;
    while true
      invariant p in m.rings && |m.rings[p]| > 0 && t == m.rings[p][0] && Bin(p) == i
      invariant Holds(p, nb) && sizebits == Key(p, nb) && End(p) <= End(Root(i))
      invariant Best(m.View(), nb, v, rsize) && (v != NULL ==> nb + rsize < End(Root(i))) && rsize > 0
      invariant v == NULL ==> rsize == TWO64 - nb
      invariant Remaining(m.View(), nb, rsize, p, rst, rp, i) && Passed(m.View(), p, rst, rp)
      invariant steps == Depth(p)
      decreases RootBits(i) - Depth(p)
    {
      steps := steps + 1;
      PathHolds(m.View(), p);
      Visit(m.View(), nb, v, rsize, p, t);
      EndOfRoot(p, i, m.node[t].size);
      var trem := Minus(m.node[t].size, nb);
      if trem < rsize {
        RemainingLess(m.View(), nb, rsize, trem, p, rst, rp, i);
        v, rsize := t, trem;
        if rsize == 0 {
          CoveredIsPending(m.View(), nb, rsize, p);
          return;
        }
      }
      NotEqualLeft(m.View(), nb, v, rsize, p, t);
      t, rst, p, rp := MoveDown(m, nb, rsize, t, sizebits, rst, p, rp, i);
      if t == NULL {
        PassedIsPending(m.View(), nb, rsize, p, rst, rp, i);
        t := rst;
        p := rp;
        return;
      }
      PathHolds(m.View(), p);
      sizebits := 2 * sizebits % TWO64;
    }
  }

  // One step down for the request, remembering the right subtree passed by.
  method MoveDown(m: TreeBins, nb: nat, rsize: nat, t: Addr, sizebits: nat, rst: Addr, ghost p: Path,
      ghost rp: Path, i: nat)
    returns (c: Addr, rst': Addr, ghost p': Path, ghost rp': Path)
    requires m.Valid() && p in m.rings && |m.rings[p]| > 0 && t == m.rings[p][0]
    requires t in m.at && t in m.node && m.at[t] == p && Covered(m.node[t].size, nb, rsize)
    requires Holds(p, nb) && Bits(p) >= 1 && Bin(p) == i < NTREEBINS && sizebits == Key(p, nb) && End(p) <= End(Root(i))
    requires Remaining(m.View(), nb, rsize, p, rst, rp, i) && Passed(m.View(), p, rst, rp)
    ensures Holds(p', nb) && Bin(p') == i && Depth(p') == Depth(p) + 1 && End(p') <= End(Root(i))
    ensures Key(p', nb) == 2 * sizebits % TWO64 && ChildWord(m.rings, p', c)
    ensures Remaining(m.View(), nb, rsize, p', rst', rp', i) && Passed(m.View(), p', rst', rp')
  {
    hide Ok, Remaining, Covered, Base, Width;
    HeadWords(m.View(), p);
    KeyDecides(p, nb);
    DownStep(m.View(), nb, rsize, p, t, rst, rp, i);
    ChildHolds(p, nb);
    rst', rp' := rst, rp;
    var rt := m.node[t].right;
    var right := TopBit(sizebits) == 1;
    c := if right then m.node[t].right else m.node[t].left;
    assert rt != NULL && rt != c <==> !right && Hi(p) in m.rings;
    if rt != NULL && rt != c {
      rst' := rt;
      rp' := Hi(p);
    }
    p' := Child(p, right);
  }

  lemma RootHead(t: Trie, i: nat)
    requires Ok(t) && i < NTREEBINS
    ensures |t.treebins| == NTREEBINS
    ensures t.treebins[i] != NULL <==> Root(i) in t.rings
    ensures Root(i) in t.rings ==> |t.rings[Root(i)]| > 0 && t.treebins[i] == t.rings[Root(i)][0]
    ensures Marked(t.treemap, i) <==> Root(i) in t.rings
  {
    if Root(i) in t.rings {
      assert t.rings[Root(i)][0] in t.at;
    }
  }

  lemma NoneBest(t: Trie, nb: nat)
    requires nb <= TWO64
    ensures Best(t, nb, NULL, TWO64 - nb)
  {
  }

  lemma CoveredIsPending(t: Trie, nb: nat, rsize: nat, p: Path)
    requires AllCovered(t, nb, rsize)
    ensures Pending(t, nb, rsize, p)
  {
  }

  // A node of another size than the request: a bit is left to tell them apart.
  lemma NotEqualLeft(t: Trie, nb: nat, v: Addr, rsize: nat, p: Path, h: Addr)
    requires Ok(t) && h in t.at && h in t.node && t.at[h] == p && Holds(p, nb)
    requires Best(t, nb, v, rsize) && Covered(t.node[h].size, nb, rsize) && rsize > 0
    ensures Bits(p) >= 1
  {
    OkParts(t);
    BitLeft(p, nb, t.node[h].size);
  }

  // ---- The second phase: the smallest chunk of a tree or subtree ----

  // leftmost_child
  method LeftmostChild(m: TreeBins, t: Addr, ghost p: Path) returns (c: Addr, ghost q: Path)
    requires m.Valid() && p in m.rings && |m.rings[p]| > 0 && t == m.rings[p][0]
    ensures if Lo(p) in m.rings then q == Lo(p) else q == Hi(p)
    ensures ChildWord(m.rings, q, c)
  {
    hide Ok;
    HeadWords(m.View(), p);
    if m.node[t].left != NULL {
      c, q := m.node[t].left, Lo(p);
    } else {
      c, q := m.node[t].right, Hi(p);
    }
  }

  // The second loop of tmalloc_large.
  method WalkToSmallest(m: TreeBins, nb: nat, t0: Addr, v0: Addr, rsize0: nat, ghost p0: Path)
    returns (v: Addr, rsize: nat, ghost steps: nat)
    requires m.Valid() && nb < TWO64 && Best(m.View(), nb, v0, rsize0)
    requires p0 in m.rings && |m.rings[p0]| > 0 && t0 == m.rings[p0][0]
    requires Pending(m.View(), nb, rsize0, p0) && (AllFit(m.View(), nb, p0) || AllCovered(m.View(), nb, rsize0))
    ensures Best(m.View(), nb, v, rsize) && AllCovered(m.View(), nb, rsize)
    ensures Depth(p0) + steps <= RootBits(Bin(p0)) + 1
  {
    hide Ok, Best, Pending, AllFit, Covered, AllCovered, Bits;
    HeadNotNull(m.View(), p0);
    PathHolds(m.View(), p0);
    v, rsize, steps := v0, rsize0, 0;
    var t := t0;
    ghost var p := p0;
    while t != NULL
      invariant Best(m.View(), nb, v, rsize)
      invariant t != NULL ==> p in m.rings && |m.rings[p]| > 0 && t == m.rings[p][0]
      invariant t != NULL ==> Pending(m.View(), nb, rsize, p)
      invariant t != NULL ==> AllFit(m.View(), nb, p) || AllCovered(m.View(), nb, rsize)
      invariant t == NULL ==> AllCovered(m.View(), nb, rsize)
      invariant Depth(p) == Depth(p0) + steps && Bin(p) == Bin(p0) && Depth(p) <= RootBits(Bin(p)) + 1
      decreases t != NULL, RootBits(Bin(p)) - Depth(p)
    {
      steps := steps + 1;
      PathHolds(m.View(), p);
      Visit(m.View(), nb, v, rsize, p, t);
      ghost var h, r := t, rsize;
      var trem := Minus(m.node[t].size, nb);
      if trem < rsize {
        rsize := trem;
        v := t;
      }
      ghost var q;
      t, q := LeftmostChild(m, t, p);
      WalkStep(m.View(), nb, r, rsize, p, h, q);
      if t != NULL {
        PathHolds(m.View(), q);
      }
      p := q;
    }
  }

  lemma WalkStep(t: Trie, nb: nat, rsize: nat, rsize': nat, p: Path, h: Addr, q: Path)
    requires Ok(t) && Pending(t, nb, rsize, p) && (AllFit(t, nb, p) || AllCovered(t, nb, rsize)) && rsize' <= rsize
    requires p in t.rings && |t.rings[p]| > 0 && h == t.rings[p][0] && h in t.at && h in t.node && t.at[h] == p
    requires Covered(t.node[h].size, nb, rsize')
    requires if Lo(p) in t.rings then q == Lo(p) else q == Hi(p)
    ensures q in t.rings ==> Pending(t, nb, rsize', q) && (AllFit(t, nb, q) || AllCovered(t, nb, rsize'))
    ensures q !in t.rings ==> AllCovered(t, nb, rsize')
  {
    if AllCovered(t, nb, rsize) {
      assert AllCovered(t, nb, rsize');
    } else {
      assert Extends(p, p) && t.node[h].size >= nb;
      VisitKeeps(t, nb, rsize, rsize', p);
      WalkLeft(t, nb, rsize', p, h);
    }
  }

  // The root of the next non-empty bin, for a request that no chunk of its own bin fits.
  lemma NextBinPending(t: Trie, nb: nat, f: nat)
    requires Ok(t) && MIN_LARGE_SIZE <= nb < TWO64 && BinOfSize(nb) < f < NTREEBINS
    requires forall a :: a in t.at && a in t.node ==>
               Covered(t.node[a].size, nb, TWO64 - nb) || t.node[a].size >= End(Root(BinOfSize(nb)))
    requires forall j: nat :: BinOfSize(nb) < j < f ==> !Marked(t.treemap, j)
    ensures Pending(t, nb, TWO64 - nb, Root(f)) && AllFit(t, nb, Root(f))
  {
    OkParts(t);
    hide Ok;
    forall a | a in t.at && a in t.node
      ensures Covered(t.node[a].size, nb, TWO64 - nb) || Extends(t.at[a], Root(f)) || t.node[a].size >= End(Root(f))
      ensures Extends(t.at[a], Root(f)) ==> t.node[a].size >= nb
    {
      LaterBin(t, nb, f, a);
    }
  }

  lemma FitsOf(t: Trie, a: Addr)
    requires Ok(t) && a in t.at && a in t.node
    ensures t.at[a] in t.rings && Closed(t.rings)
    ensures MIN_LARGE_SIZE <= t.node[a].size < TWO64
    ensures BinOfSize(t.node[a].size) == Bin(t.at[a]) && Holds(t.at[a], t.node[a].size)
  {
  }

  lemma LaterBin(t: Trie, nb: nat, f: nat, a: Addr)
    requires Ok(t) && MIN_LARGE_SIZE <= nb < TWO64 && BinOfSize(nb) < f < NTREEBINS && a in t.at && a in t.node
    requires forall j: nat :: BinOfSize(nb) < j < f ==> !Marked(t.treemap, j)
    requires Covered(t.node[a].size, nb, TWO64 - nb) || t.node[a].size >= End(Root(BinOfSize(nb)))
    ensures Extends(t.at[a], Root(f)) ==> t.node[a].size >= nb
    ensures Covered(t.node[a].size, nb, TWO64 - nb) || Extends(t.at[a], Root(f)) || t.node[a].size >= End(Root(f))
  {
    hide Ok, MinSize, End, Marked;
    FitsOf(t, a);
    var s, j := t.node[a].size, Bin(t.at[a]);
    BinRange(s);
    BinRange(nb);
    ExtendsRoot(t.at[a]);
    if Extends(t.at[a], Root(f)) {
      ExtendsBin(t.at[a], Root(f));
    }
    if j > BinOfSize(nb) {
      LaterBinIsLarger(nb, s);
      ClosedUp(t.rings, t.at[a], Root(j));
      RootHead(t, j);
      if j > f {
        BinEnd(f, s);
      }
    } else if j == BinOfSize(nb) {
      EndOfRoot(t.at[a], j, s);
    } else {
      LaterBinIsLarger(s, nb);
    }
  }

  // The search of tmalloc_large: the smallest chunk that fits, or none when there is none. It visits at most one node
  // for each bit in which the sizes of a bin may differ, in each of two walks.
  method FindBestFit(m: TreeBins, nb: nat) returns (v: Addr, rsize: nat, ghost steps: nat)
    requires m.Valid() && MIN_LARGE_SIZE <= nb < TWO64
    ensures v == NULL ==> rsize == TWO64 - nb && forall a :: a in m.Contents() ==> m.Contents()[a] < nb
    ensures v != NULL ==>
              && v in m.Contents() && m.Contents()[v] == nb + rsize
              && forall a :: a in m.Contents() && m.Contents()[a] >= nb ==> m.Contents()[v] <= m.Contents()[a]
    ensures steps <= 2 * (RootBits(NTREEBINS - 1) + 1)
  {
    hide Ok, Best, Pending, AllFit, Covered, AllCovered, End;
    ghost var t0 := m.View();
    var i := m.BinFor(nb);
    RootHead(t0, i);
    v, rsize, steps := NULL, TWO64 - nb, 0;
    NoneBest(t0, nb);
    var t := NULL;
    ghost var p := Root(0);
    if m.treebins[i] != NULL {
      t, v, rsize, p, steps := SearchBin(m, nb, i);
    } else {
      EmptyBinCovered(t0, nb);
    }
    if t == NULL && v == NULL {
      t, p := NextTree(m, nb, i, rsize);
    }
    if t != NULL {
      ghost var more;
      v, rsize, more := WalkToSmallest(m, nb, t, v, rsize, p);
      BitsBound(t0, p);
      steps := steps + more;
    } else if v != NULL {
      VisitedIsBest(t0, nb, v, rsize, i);
    }
    BestIsBest(t0, nb, v, rsize);
  }

  lemma BitsBound(t: Trie, p: Path)
    requires Ok(t) && p in t.rings
    ensures RootBits(Bin(p)) <= RootBits(NTREEBINS - 1)
  {
    PathHolds(t, p);
  }

  lemma EmptyBinCovered(t: Trie, nb: nat)
    requires Ok(t) && MIN_LARGE_SIZE <= nb < TWO64 && BinOfSize(nb) < NTREEBINS && Root(BinOfSize(nb)) !in t.rings
    ensures forall a :: a in t.at && a in t.node ==>
              Covered(t.node[a].size, nb, TWO64 - nb) || t.node[a].size >= End(Root(BinOfSize(nb)))
  {
    OkParts(t);
    hide Ok;
    var i := BinOfSize(nb);
    forall a | a in t.at && a in t.node
      ensures Covered(t.node[a].size, nb, TWO64 - nb) || t.node[a].size >= End(Root(i))
    {
      OtherBin(t, nb, a);
      if Extends(t.at[a], Root(i)) {
        ClosedUp(t.rings, t.at[a], Root(i));
      }
    }
  }

  // No chunk of the bin fits: the next bin with any has only larger ones.
  method NextTree(m: TreeBins, nb: nat, i: nat, ghost rsize: nat) returns (t: Addr, ghost p: Path)
    requires m.Valid() && MIN_LARGE_SIZE <= nb < TWO64 && i == BinOfSize(nb) && i < NTREEBINS
    requires rsize == TWO64 - nb
    requires forall a :: a in m.at && a in m.node ==>
               Covered(m.node[a].size, nb, rsize) || m.node[a].size >= End(Root(i))
    ensures t == NULL ==> AllCovered(m.View(), nb, rsize)
    ensures t != NULL ==>
              && p in m.rings && |m.rings[p]| > 0 && t == m.rings[p][0]
              && Pending(m.View(), nb, rsize, p) && AllFit(m.View(), nb, p)
  {
    hide Ok, Pending, AllFit, Covered, End, LeftMap, FirstIndex, Marked;
    NextLeft(m.treemap, i);
    var leftbits := LeftMap(m.treemap, i);
    t, p := NULL, Root(0);
    if leftbits != 0 {
      var f := FirstIndex(leftbits);
      RootHead(m.View(), f);
      NextBinPending(m.View(), nb, f);
      t := m.treebins[f];
      p := Root(f);
    } else {
      NoLaterBin(m.View(), nb);
    }
  }

  lemma NoLaterBin(t: Trie, nb: nat)
    requires Ok(t) && MIN_LARGE_SIZE <= nb < TWO64 && BinOfSize(nb) < NTREEBINS
    requires forall a :: a in t.at && a in t.node ==>
               Covered(t.node[a].size, nb, TWO64 - nb) || t.node[a].size >= End(Root(BinOfSize(nb)))
    requires forall j: nat :: BinOfSize(nb) < j < NTREEBINS ==> !Marked(t.treemap, j)
    ensures AllCovered(t, nb, TWO64 - nb)
  {
    OkParts(t);
    hide Ok;
    forall a | a in t.at && a in t.node ensures Covered(t.node[a].size, nb, TWO64 - nb) {
      var s, j := t.node[a].size, Bin(t.at[a]);
      ExtendsRoot(t.at[a]);
      ClosedUp(t.rings, t.at[a], Root(j));
      BinRange(s);
      RootHead(t, j);
      if j == BinOfSize(nb) {
        EndOfRoot(t.at[a], j, s);
      } else {
        LaterBinIsLarger(s, nb);
      }
    }
  }

  lemma VisitedIsBest(t: Trie, nb: nat, v: Addr, rsize: nat, i: nat)
    requires nb + rsize < End(Root(i))
    requires forall a :: a in t.at && a in t.node ==>
        Covered(t.node[a].size, nb, rsize) || t.node[a].size >= End(Root(i))
    ensures AllCovered(t, nb, rsize)
  {
  }

  lemma BestIsBest(t: Trie, nb: nat, v: Addr, rsize: nat)
    requires Ok(t) && Best(t, nb, v, rsize) && AllCovered(t, nb, rsize)
    ensures var c := Chunks(t.node, t.at);
      && (v == NULL ==> rsize == TWO64 - nb && forall a :: a in c ==> c[a] < nb)
      && (v != NULL ==> v in c && c[v] == nb + rsize && forall a :: a in c && c[a] >= nb ==> c[v] <= c[a])
  {
    OkParts(t);
  }

  // ---- tmalloc_small ----

  lemma LeastBinPending(t: Trie, nb: nat, rsize: nat, f: nat)
    requires Ok(t) && nb < MIN_LARGE_SIZE && f < NTREEBINS
    requires forall j: nat :: j < f ==> !Marked(t.treemap, j)
    ensures Pending(t, nb, rsize, Root(f)) && AllFit(t, nb, Root(f))
  {
    hide Ok, Marked, End;
    forall a | a in t.at && a in t.node
      ensures t.node[a].size >= nb
      ensures Extends(t.at[a], Root(f)) || t.node[a].size >= End(Root(f))
    {
      LeastBin(t, f, a);
    }
  }

  lemma LeastBin(t: Trie, f: nat, a: Addr)
    requires Ok(t) && f < NTREEBINS && a in t.at && a in t.node
    requires forall j: nat :: j < f ==> !Marked(t.treemap, j)
    ensures t.node[a].size >= MIN_LARGE_SIZE
    ensures Extends(t.at[a], Root(f)) || t.node[a].size >= End(Root(f))
  {
    hide Ok, Marked, End, Holds;
    var j := Bin(t.at[a]);
    FitsOf(t, a);
    ExtendsRoot(t.at[a]);
    ClosedUp(t.rings, t.at[a], Root(j));
    BinRange(t.node[a].size);
    RootHead(t, j);
    if j > f {
      BinEnd(f, t.node[a].size);
    }
  }

  // The search of tmalloc_small: the smallest of all chunks in the treebins.
  method FindSmallest(m: TreeBins, nb: nat) returns (v: Addr, rsize: nat, ghost steps: nat)
    requires m.Valid() && nb < MIN_LARGE_SIZE && m.treemap != 0
    ensures v in m.Contents() && m.Contents()[v] == nb + rsize
    ensures forall a :: a in m.Contents() ==> m.Contents()[v] <= m.Contents()[a]
    ensures steps <= RootBits(FirstIndex(m.treemap)) + 1
  {
    hide Ok, Best, Pending, AllFit, Covered, AllCovered, Bits, Marked, FirstIndex;
    FirstIndexIsLowest(m.treemap);
    var i := FirstIndex(m.treemap);
    RootHead(m.View(), i);
    var t := m.treebins[i];
    ghost var p := Root(i);
    LeastBinPending(m.View(), nb, TWO64 - nb, i);
    NoneBest(m.View(), nb);
    Visit(m.View(), nb, NULL, TWO64 - nb, p, t);
    AlwaysBetter(m.View(), nb, t);
    v, rsize := t, Minus(m.node[t].size, nb);
    ghost var r := TWO64 - nb;
    steps := 0;
    while true
      invariant Best(m.View(), nb, v, rsize) && v != NULL && rsize <= r
      invariant p in m.rings && |m.rings[p]| > 0 && t == m.rings[p][0]
      invariant t in m.at && t in m.node && m.at[t] == p && Covered(m.node[t].size, nb, rsize)
      invariant Pending(m.View(), nb, r, p) && (AllFit(m.View(), nb, p) || AllCovered(m.View(), nb, r))
      invariant steps == Depth(p) && Bin(p) == i
      decreases RootBits(Bin(p)) - Depth(p)
    {
      steps := steps + 1;
      ghost var h := t;
      ghost var q;
      PathHolds(m.View(), p);
      t, q := LeftmostChild(m, t, p);
      WalkStep(m.View(), nb, r, rsize, p, h, q);
      if t == NULL {
        SmallestIsSmallest(m.View(), nb, v, rsize);
        return;
      }
      PathHolds(m.View(), q);
      Visit(m.View(), nb, v, rsize, q, t);
      p, r := q, rsize;
      var trem := Minus(m.node[t].size, nb);
      if trem < rsize {
        rsize := trem;
        v := t;
      }
    }
  }

  lemma AlwaysBetter(t: Trie, nb: nat, h: Addr)
    requires Ok(t) && nb < MIN_LARGE_SIZE && h in t.at && h in t.node
    ensures Minus(t.node[h].size, nb) < TWO64 - nb
  {
    hide Ok, Holds;
    FitsOf(t, h);
    MinusLess(t.node[h].size, nb);
  }

  lemma MinusLess(s: nat, nb: nat)
    requires nb <= s < TWO64
    ensures Minus(s, nb) == s - nb
  {
  }

  lemma SmallestIsSmallest(t: Trie, nb: nat, v: Addr, rsize: nat)
    requires Ok(t) && nb < MIN_LARGE_SIZE && v != NULL && Best(t, nb, v, rsize) && AllCovered(t, nb, rsize)
    ensures var c := Chunks(t.node, t.at);
      v in c && c[v] == nb + rsize && forall a :: a in c ==> c[v] <= c[a]
  {
    var c := Chunks(t.node, t.at);
    forall a | a in c ensures c[v] <= c[a] {
      FitsOf(t, a);
    }
  }
}
