// The treebins: 32 tries of free chunks keyed on size. Each trie node heads a
// ring of chunks of one size. The links of the nodes are the program's state;
// the rings at trie positions are the ghost view that the invariants relate
// them to.
module TreeBins {
  import opened TreeIndex
  import opened TriePath
  import opened BinMap

  type Addr = nat
  const NULL: Addr := 0

  // What a parent word holds: a tree node, a slot of the treebins array (for a root), or null (for a chained chunk).
  datatype Parent = NoParent | BinSlot(bin: nat) | TreeNode(node: Addr)

  // The words of a free large chunk that the treebins use.
  datatype Node = Node(size: nat, fd: Addr, bk: Addr, left: Addr, right: Addr, parent: Parent, index: nat)

  type Nodes = map<Addr, Node>
  type Rings = map<Path, seq<Addr>>

  // Rings are kept in bk order, the tree node first.
  function After(r: seq<Addr>, k: nat): Addr
    requires k < |r|
  {
    if k + 1 < |r| then r[k + 1] else r[0]
  }

  function Before(r: seq<Addr>, k: nat): Addr
    requires k < |r|
  {
    if k > 0 then r[k - 1] else r[|r| - 1]
  }

  function Head(rings: Rings, p: Path): Addr {
    if p in rings && |rings[p]| > 0 then rings[p][0] else NULL
  }

  function UpLink(rings: Rings, p: Path): Parent {
    if p.Root? then BinSlot(p.bin) else TreeNode(Head(rings, p.up))
  }

  // Every chunk is in one place of one ring.
  ghost predicate Indexed(rings: Rings, at: map<Addr, Path>, pos: map<Addr, nat>) {
    && (forall p :: p in rings ==> |rings[p]| > 0)
    && (forall p, k :: p in rings && 0 <= k < |rings[p]| ==>
          && rings[p][k] in at && rings[p][k] in pos
          && at[rings[p][k]] == p && pos[rings[p][k]] == k)
    && (forall a :: a in at ==> a in pos && at[a] in rings && pos[a] < |rings[at[a]]| && rings[at[a]][pos[a]] == a)
  }

  // Positions in use are closed under going up.
  ghost predicate Closed(rings: Rings) {
    forall p :: p in rings ==> if p.Root? then p.bin < NTREEBINS else p.up in rings
  }

  ghost predicate RingLinks(node: Nodes, rings: Rings, at: map<Addr, Path>, pos: map<Addr, nat>)
    requires Indexed(rings, at, pos)
  {
    forall a :: a in at ==>
      && a != NULL && a in node
      && node[a].fd == Before(rings[at[a]], pos[a]) && node[a].bk == After(rings[at[a]], pos[a])
  }

  // Tree links of one chunk: a ring head carries them, a chained chunk has none.
  ghost predicate TreeLinks(n: Node, rings: Rings, p: Path, k: nat) {
    && n.index == Bin(p)
    && n.left == (if k == 0 then Head(rings, Lo(p)) else NULL)
    && n.right == (if k == 0 then Head(rings, Hi(p)) else NULL)
    && n.parent == (if k == 0 then UpLink(rings, p) else NoParent)
  }

  ghost predicate Shaped(node: Nodes, rings: Rings, at: map<Addr, Path>, pos: map<Addr, nat>)
    requires Indexed(rings, at, pos)
  {
    forall a :: a in at ==> a in node && TreeLinks(node[a], rings, at[a], pos[a])
  }

  // A size that may stand at a position: a large size of the position's bin that agrees with every bit inspected.
  ghost predicate Fits(p: Path, s: nat) {
    MIN_LARGE_SIZE <= s < TWO64 && BinOfSize(s) == Bin(p) && Holds(p, s)
  }

  // The size of each chunk fits its position, and there is one position per size.
  ghost predicate Sized(node: Nodes, at: map<Addr, Path>) {
    && (forall a :: a in at ==> a in node && Fits(at[a], node[a].size))
    && (forall a, b :: a in at && b in at ==> (node[a].size == node[b].size <==> at[a] == at[b]))
  }

  ghost predicate Rooted(treebins: seq<Addr>, treemap: bv32, rings: Rings) {
    && |treebins| == NTREEBINS
    && forall i: nat :: i < NTREEBINS ==>
         treebins[i] == Head(rings, Root(i)) && (Marked(treemap, i) <==> Root(i) in rings)
  }

  // The words of the treebins together with the ghost view of them.
  datatype Trie = Trie(node: Nodes, treebins: seq<Addr>, treemap: bv32,
                       rings: Rings, at: map<Addr, Path>, pos: map<Addr, nat>)

  ghost predicate Ok(t: Trie) {
    match t
    case Trie(node, treebins, treemap, rings, at, pos) =>
      && Indexed(rings, at, pos) && Closed(rings)
      && RingLinks(node, rings, at, pos) && Shaped(node, rings, at, pos)
      && Sized(node, at) && Rooted(treebins, treemap, rings)
  }

  ghost function Chunks(node: Nodes, at: map<Addr, Path>): map<Addr, nat> {
    map a | a in at && a in node :: node[a].size
  }

  // One position per size: a size on the way down p is met at p or further down, never beside it.
  ghost predicate OnlyBelow(node: Nodes, at: map<Addr, Path>, p: Path, s: nat) {
    forall a :: a in at && a in node && node[a].size == s ==> Extends(at[a], p)
  }

  lemma BelowRoot(node: Nodes, at: map<Addr, Path>, s: nat)
    requires Sized(node, at)
    ensures OnlyBelow(node, at, Root(BinOfSize(s)), s)
  {
    forall a | a in at && a in node && node[a].size == s ensures Extends(at[a], Root(BinOfSize(s))) {
      ExtendsRoot(at[a]);
    }
  }

  lemma BelowChild(node: Nodes, at: map<Addr, Path>, p: Path, s: nat, t: Addr)
    requires Sized(node, at) && OnlyBelow(node, at, p, s)
    requires Holds(p, s) && Bits(p) >= 1
    requires t in at && at[t] == p && node[t].size != s
    ensures OnlyBelow(node, at, Child(p, GoesRight(p, s)), s)
  {
    ChildHolds(p, s);
    forall a | a in at && a in node && node[a].size == s ensures Extends(at[a], Child(p, GoesRight(p, s))) {
      ExtendsChild(at[a], p);
      var wrong := Child(p, !GoesRight(p, s));
      if Extends(at[a], wrong) {
        ExtendsHolds(at[a], wrong, s);
      }
    }
  }

  lemma {:induction false} ClosedUp(rings: Rings, q: Path, p: Path)
    requires Closed(rings) && q in rings && Extends(q, p)
    ensures p in rings
  {
    if q != p {
      ClosedUp(rings, q.up, p);
    }
  }

  lemma NoneBelow(node: Nodes, rings: Rings, at: map<Addr, Path>, pos: map<Addr, nat>, c: Path, s: nat)
    requires Indexed(rings, at, pos) && Closed(rings) && OnlyBelow(node, at, c, s) && c !in rings
    ensures forall a :: a in at && a in node ==> node[a].size != s
  {
    forall a | a in at && a in node ensures node[a].size != s {
      if node[a].size == s {
        ClosedUp(rings, at[a], c);
      }
    }
  }

  // One level of a descent for size s: the shifted key picks the child that keeps to the size.
  lemma DescendStep(node: Nodes, at: map<Addr, Path>, p: Path, s: nat, t: Addr)
    requires Sized(node, at) && OnlyBelow(node, at, p, s) && Holds(p, s) && Bin(p) < NTREEBINS
    requires t in at && at[t] == p && node[t].size != s
    ensures var right := TopBit(Key(p, s)) == 1;
      && Holds(Child(p, right), s) && OnlyBelow(node, at, Child(p, right), s)
      && Bits(p) >= 1 && Bits(Child(p, right)) < Bits(p) && Bin(Child(p, right)) == Bin(p)
      && Key(Child(p, right), s) == 2 * Key(p, s) % TWO64
  {
    BitLeft(p, s, node[t].size);
    KeyDecides(p, s);
    ChildHolds(p, s);
    BelowChild(node, at, p, s, t);
  }

  // A new ring of one chunk at a free position just below a position in use (or at the root of an empty bin).
  ghost predicate FreeSlot(rings: Rings, c: Path) {
    c !in rings && if c.Root? then c.bin < NTREEBINS else c.up in rings
  }

  lemma AddRing(rings: Rings, at: map<Addr, Path>, pos: map<Addr, nat>, c: Path, x: Addr)
    requires Indexed(rings, at, pos) && Closed(rings) && FreeSlot(rings, c) && x !in at
    ensures Indexed(rings[c := [x]], at[x := c], pos[x := 0]) && Closed(rings[c := [x]])
    ensures forall q :: q != c ==> Head(rings[c := [x]], q) == Head(rings, q)
    ensures Head(rings[c := [x]], Lo(c)) == NULL && Head(rings[c := [x]], Hi(c)) == NULL
  {
  }

  function WithChild(n: Node, right: bool, x: Addr): Node {
    if right then n.(right := x) else n.(left := x)
  }

  // The node words after the chunk x of size s is linked in as a leaf at position c.
  function LeafLinked(node: Nodes, rings: Rings, c: Path, x: Addr, s: nat): Nodes {
    var t := if c.Root? then NULL else Head(rings, c.up);
    var withChild := if !c.Root? && t in node then node[t := WithChild(node[t], c.Hi?, x)] else node;
    withChild[x := Node(s, x, x, NULL, NULL, UpLink(rings, c), Bin(c))]
  }

  lemma LeafLinkedSteps(node: Nodes, rings: Rings, p: Path, right: bool, x: Addr, s: nat, t: Addr)
    requires t == Head(rings, p) && t in node && x in node && x != t
    requires node[x].size == s && node[x].index == Bin(p) && node[x].left == node[x].right == NULL
    ensures var n := node[t := WithChild(node[t], right, x)];
      n[x := n[x].(parent := TreeNode(t), fd := x, bk := x)] == LeafLinked(node, rings, Child(p, right), x, s)
  {
  }

  lemma LeafLinksKept(node: Nodes, rings: Rings, at: map<Addr, Path>, pos: map<Addr, nat>, c: Path, x: Addr, s: nat)
    requires Indexed(rings, at, pos) && Closed(rings) && RingLinks(node, rings, at, pos) && Shaped(node, rings, at, pos)
    requires FreeSlot(rings, c) && x !in at && x != NULL
    requires Indexed(rings[c := [x]], at[x := c], pos[x := 0])
    ensures RingLinks(LeafLinked(node, rings, c, x, s), rings[c := [x]], at[x := c], pos[x := 0])
  {
  }

  // Tree links of a chunk not at the parent position are not touched by the new ring.
  lemma OtherTreeLinks(n: Node, rings: Rings, c: Path, x: Addr, p: Path, k: nat)
    requires TreeLinks(n, rings, p, k) && c !in rings && p in rings
    requires !c.Root? ==> p != c.up || k > 0
    requires !p.Root? ==> p.up in rings
    ensures TreeLinks(n, rings[c := [x]], p, k)
  {
    assert Lo(p) != c || k > 0;
    assert Hi(p) != c || k > 0;
  }

  lemma ParentTreeLinks(n: Node, rings: Rings, c: Path, x: Addr)
    requires !c.Root? && c !in rings && TreeLinks(n, rings, c.up, 0)
    requires !c.up.Root? ==> c.up.up in rings
    ensures TreeLinks(WithChild(n, c.Hi?, x), rings[c := [x]], c.up, 0)
  {
  }

  lemma LeafShapeKept(node: Nodes, rings: Rings, at: map<Addr, Path>, pos: map<Addr, nat>, c: Path, x: Addr, s: nat)
    requires Indexed(rings, at, pos) && Closed(rings) && Shaped(node, rings, at, pos)
    requires FreeSlot(rings, c) && x !in at && x != NULL
    requires Indexed(rings[c := [x]], at[x := c], pos[x := 0])
    ensures Shaped(LeafLinked(node, rings, c, x, s), rings[c := [x]], at[x := c], pos[x := 0])
  {
    var node', rings', at', pos' := LeafLinked(node, rings, c, x, s), rings[c := [x]], at[x := c], pos[x := 0];
    forall a | a in at' ensures a in node' && TreeLinks(node'[a], rings', at'[a], pos'[a]) {
      if a == x {
        assert Lo(c) !in rings && Hi(c) !in rings;
      } else if !c.Root? && a == Head(rings, c.up) {
        assert at[a] == c.up && pos[a] == 0;
        ParentTreeLinks(node[a], rings, c, x);
      } else {
        assert rings[at[a]][pos[a]] == a;
        OtherTreeLinks(node[a], rings, c, x, at[a], pos[a]);
      }
    }
  }

  lemma LeafSizes(node: Nodes, rings: Rings, at: map<Addr, Path>, pos: map<Addr, nat>, c: Path, x: Addr, s: nat)
    requires Indexed(rings, at, pos) && Shaped(node, rings, at, pos) && x !in at && FreeSlot(rings, c)
    ensures x in LeafLinked(node, rings, c, x, s) && LeafLinked(node, rings, c, x, s)[x].size == s
    ensures forall a :: a in at ==>
              a in LeafLinked(node, rings, c, x, s) && LeafLinked(node, rings, c, x, s)[a].size == node[a].size
  {
  }

  lemma NewSizeKept(node: Nodes, node': Nodes, at: map<Addr, Path>, c: Path, x: Addr)
    requires Sized(node, at) && x !in at
    requires forall a :: a in at ==> a in node' && node'[a].size == node[a].size
    requires x in node' && Fits(c, node'[x].size)
    requires forall a :: a in at ==> node[a].size != node'[x].size && at[a] != c
    ensures Sized(node', at[x := c])
  {
  }

  ghost function WithLeaf(t: Trie, c: Path, x: Addr, s: nat): Trie {
    Trie(LeafLinked(t.node, t.rings, c, x, s),
         if c.Root? && c.bin < |t.treebins| then t.treebins[c.bin := x] else t.treebins,
         if c.Root? && c.bin < 32 then Mark(t.treemap, c.bin) else t.treemap,
         t.rings[c := [x]], t.at[x := c], t.pos[x := 0])
  }

  lemma LeafKept(t: Trie, c: Path, x: Addr, s: nat)
    requires Ok(t) && FreeSlot(t.rings, c) && Fits(c, s)
    requires x !in t.at && x != NULL && forall a :: a in t.at ==> t.node[a].size != s
    ensures Ok(WithLeaf(t, c, x, s))
  {
    var Trie(node, treebins, treemap, rings, at, pos) := t;
    AddRing(rings, at, pos, c, x);
    LeafLinksKept(node, rings, at, pos, c, x, s);
    LeafShapeKept(node, rings, at, pos, c, x, s);
    LeafSizes(node, rings, at, pos, c, x, s);
    NewSizeKept(node, LeafLinked(node, rings, c, x, s), at, c, x);
    LeafRooted(t, c, x, s);
  }

  lemma LeafChunks(node: Nodes, rings: Rings, at: map<Addr, Path>, pos: map<Addr, nat>, c: Path, x: Addr, s: nat)
    requires Indexed(rings, at, pos) && Shaped(node, rings, at, pos) && x !in at && FreeSlot(rings, c)
    ensures Chunks(LeafLinked(node, rings, c, x, s), at[x := c]) == Chunks(node, at)[x := s]
  {
    LeafSizes(node, rings, at, pos, c, x, s);
  }

  lemma LeafRooted(t: Trie, c: Path, x: Addr, s: nat)
    requires Rooted(t.treebins, t.treemap, t.rings) && FreeSlot(t.rings, c)
    ensures var t' := WithLeaf(t, c, x, s); Rooted(t'.treebins, t'.treemap, t'.rings)
  {
    if c.Root? {
      MarkAll(t.treemap, c.bin);
    }
  }

  // A chunk of a size already present joins the ring of that size, last in bk order.
  function ChainLinked(node: Nodes, r: seq<Addr>, p: Path, x: Addr, s: nat): Nodes
    requires |r| > 0
  {
    var t, f := r[0], r[|r| - 1];
    var n1 := if t in node then node[t := node[t].(fd := x)] else node;
    var n2 := if f in n1 then n1[f := n1[f].(bk := x)] else n1;
    n2[x := Node(s, f, t, NULL, NULL, NoParent, Bin(p))]
  }

  lemma ChainIndexed(rings: Rings, at: map<Addr, Path>, pos: map<Addr, nat>, p: Path, x: Addr)
    requires Indexed(rings, at, pos) && Closed(rings) && p in rings && x !in at
    ensures Indexed(rings[p := rings[p] + [x]], at[x := p], pos[x := |rings[p]|])
    ensures Closed(rings[p := rings[p] + [x]])
    ensures forall q :: Head(rings[p := rings[p] + [x]], q) == Head(rings, q)
  {
  }

  lemma AppendNeighbours(r: seq<Addr>, x: Addr, k: nat)
    requires k < |r|
    ensures Before(r + [x], k) == (if k == 0 then x else Before(r, k))
    ensures After(r + [x], k) == (if k + 1 == |r| then x else After(r, k))
  {
  }

  lemma ChainWords(node: Nodes, r: seq<Addr>, p: Path, x: Addr, s: nat, a: Addr)
    requires |r| > 0 && a in node && a != x && r[0] in node && r[|r| - 1] in node
    ensures a in ChainLinked(node, r, p, x, s)
    ensures ChainLinked(node, r, p, x, s)[a] ==
            node[a].(fd := if a == r[0] then x else node[a].fd, bk := if a == r[|r| - 1] then x else node[a].bk)
  {
  }

  lemma ChainRingLinks(node: Nodes, rings: Rings, at: map<Addr, Path>, pos: map<Addr, nat>, p: Path, x: Addr, s: nat)
    requires Indexed(rings, at, pos) && RingLinks(node, rings, at, pos)
    requires p in rings && x !in at && x != NULL
    requires Indexed(rings[p := rings[p] + [x]], at[x := p], pos[x := |rings[p]|])
    ensures RingLinks(ChainLinked(node, rings[p], p, x, s),
                      rings[p := rings[p] + [x]], at[x := p], pos[x := |rings[p]|])
  {
    var r := rings[p];
    var node', r' := ChainLinked(node, r, p, x, s), r + [x];
    assert r[0] in at && r[|r| - 1] in at;
    forall a | a in at
      ensures a in node' && at[a] != p ==> a in node' && node'[a].fd == node[a].fd && node'[a].bk == node[a].bk
      ensures a in node' && at[a] == p ==> node'[a].fd == Before(r', pos[a]) && node'[a].bk == After(r', pos[a])
      ensures a in node'
    {
      ChainLinksAt(node, rings, at, pos, p, x, s, a);
    }
    hide Before, After;
    ChainEnd(node, r, p, x, s);
    hide ChainLinked;
  }

  // The links of a chunk that was there, and of the new one.
  lemma ChainLinksAt(node: Nodes, rings: Rings, at: map<Addr, Path>, pos: map<Addr, nat>, p: Path, x: Addr, s: nat,
      a: Addr)
    requires Indexed(rings, at, pos) && RingLinks(node, rings, at, pos)
    requires p in rings && x !in at && x != NULL && a in at
    ensures var node', r' := ChainLinked(node, rings[p], p, x, s), rings[p] + [x];
      && a in node'
      && if at[a] == p then node'[a].fd == Before(r', pos[a]) && node'[a].bk == After(r', pos[a])
         else node'[a].fd == node[a].fd && node'[a].bk == node[a].bk
  {
    var r := rings[p];
    assert r[0] in at && r[|r| - 1] in at;
    ChainWords(node, r, p, x, s, a);
    if at[a] == p {
      AppendNeighbours(r, x, pos[a]);
    }
  }

  lemma ChainEnd(node: Nodes, r: seq<Addr>, p: Path, x: Addr, s: nat)
    requires |r| > 0 && x !in r && r[0] in node && r[|r| - 1] in node
    ensures var node', r' := ChainLinked(node, r, p, x, s), r + [x];
      x in node' && node'[x].fd == Before(r', |r|) && node'[x].bk == After(r', |r|)
  {
  }

  lemma ChainShaped(node: Nodes, rings: Rings, at: map<Addr, Path>, pos: map<Addr, nat>, p: Path, x: Addr, s: nat)
    requires Indexed(rings, at, pos) && Shaped(node, rings, at, pos) && p in rings && x !in at
    requires Indexed(rings[p := rings[p] + [x]], at[x := p], pos[x := |rings[p]|])
    requires forall q :: Head(rings[p := rings[p] + [x]], q) == Head(rings, q)
    ensures Shaped(ChainLinked(node, rings[p], p, x, s), rings[p := rings[p] + [x]], at[x := p], pos[x := |rings[p]|])
  {
  }

  lemma ChainSizes(node: Nodes, rings: Rings, at: map<Addr, Path>, pos: map<Addr, nat>, p: Path, x: Addr, s: nat)
    requires Indexed(rings, at, pos) && RingLinks(node, rings, at, pos) && p in rings && x !in at
    ensures var node' := ChainLinked(node, rings[p], p, x, s);
      && x in node' && node'[x].size == s
      && forall a :: a in at ==> a in node' && node'[a].size == node[a].size
  {
    var r := rings[p];
    assert r[0] in at && r[|r| - 1] in at;
    forall a | a in at
      ensures a in ChainLinked(node, r, p, x, s) && ChainLinked(node, r, p, x, s)[a].size == node[a].size
    {
      ChainWords(node, r, p, x, s, a);
    }
  }

  lemma SameSizeKept(node: Nodes, node': Nodes, at: map<Addr, Path>, t: Addr, x: Addr)
    requires Sized(node, at) && x !in at && t in at
    requires forall a :: a in at ==> a in node' && node'[a].size == node[a].size
    requires x in node' && node'[x].size == node[t].size
    ensures Sized(node', at[x := at[t]])
  {
  }

  lemma ChunksAdded(node: Nodes, node': Nodes, at: map<Addr, Path>, p: Path, x: Addr)
    requires x !in at && x in node'
    requires forall a :: a in at ==> a in node && a in node' && node'[a].size == node[a].size
    ensures Chunks(node', at[x := p]) == Chunks(node, at)[x := node'[x].size]
  {
  }

  ghost function WithChained(t: Trie, p: Path, x: Addr, s: nat): Trie
    requires p in t.rings && |t.rings[p]| > 0
  {
    t.(node := ChainLinked(t.node, t.rings[p], p, x, s),
       rings := t.rings[p := t.rings[p] + [x]], at := t.at[x := p], pos := t.pos[x := |t.rings[p]|])
  }

  lemma ChainKept(t: Trie, p: Path, x: Addr, s: nat)
    requires Ok(t) && p in t.rings && x !in t.at && x != NULL
    requires t.rings[p][0] in t.node && t.node[t.rings[p][0]].size == s
    ensures Ok(WithChained(t, p, x, s))
    ensures Chunks(WithChained(t, p, x, s).node, WithChained(t, p, x, s).at) == Chunks(t.node, t.at)[x := s]
  {
    var Trie(node, treebins, treemap, rings, at, pos) := t;
    var node' := ChainLinked(node, rings[p], p, x, s);
    ChainIndexed(rings, at, pos, p, x);
    ChainRingLinks(node, rings, at, pos, p, x, s);
    ChainShaped(node, rings, at, pos, p, x, s);
    ChainSizes(node, rings, at, pos, p, x, s);
    SameSizeKept(node, node', at, rings[p][0], x);
    ChunksAdded(node, node', at, p, x);
  }

  // Words of chunks outside a set are left alone.
  ghost predicate Untouched(node: Nodes, node': Nodes, s: set<Addr>) {
    forall a :: a !in s ==> (a in node <==> a in node') && (a in node ==> node'[a] == node[a])
  }

  lemma LeafUntouched(node: Nodes, rings: Rings, at: map<Addr, Path>, pos: map<Addr, nat>, c: Path, x: Addr, s: nat)
    requires Indexed(rings, at, pos) && FreeSlot(rings, c)
    ensures Untouched(node, LeafLinked(node, rings, c, x, s), at.Keys + {x})
  {
  }

  lemma ChainUntouched(node: Nodes, rings: Rings, at: map<Addr, Path>, pos: map<Addr, nat>, p: Path, x: Addr, s: nat)
    requires Indexed(rings, at, pos) && p in rings
    ensures |rings[p]| > 0 && Untouched(node, ChainLinked(node, rings[p], p, x, s), at.Keys + {x})
  {
    var r := rings[p];
    assert r[0] in at && r[|r| - 1] in at;
  }

  // Writing the words of a chunk that is not in a bin changes nothing that the invariants speak of.
  lemma FreshWords(t: Trie, x: Addr, n: Node)
    requires Ok(t) && x !in t.at
    ensures Ok(t.(node := t.node[x := n])) && Chunks(t.node[x := n], t.at) == Chunks(t.node, t.at)
  {
    SameWords(t, t.node[x := n]);
  }

  lemma SameWords(t: Trie, node': Nodes)
    requires Ok(t)
    requires forall a :: a in t.at && a in t.node ==> a in node' && node'[a] == t.node[a]
    ensures Ok(t.(node := node')) && Chunks(node', t.at) == Chunks(t.node, t.at)
  {
    assert RingLinks(node', t.rings, t.at, t.pos);
    assert Shaped(node', t.rings, t.at, t.pos);
    SameSizes(t.node, node', t.at);
  }

  lemma SameSizes(node: Nodes, node': Nodes, at: map<Addr, Path>)
    requires Sized(node, at)
    requires forall a :: a in at ==> a in node' && node'[a].size == node[a].size
    ensures Sized(node', at) && Chunks(node', at) == Chunks(node, at)
  {
  }

  lemma UntouchedTwice(n1: Nodes, n2: Nodes, n3: Nodes, s: set<Addr>, x: Addr)
    requires n1.Keys + {x} == n2.Keys && forall a :: a in n1 && a != x ==> n2[a] == n1[a]
    requires Untouched(n2, n3, s + {x})
    ensures Untouched(n1, n3, s + {x})
  {
  }

  lemma RootPresent(t: Trie, i: nat)
    requires Ok(t) && i < NTREEBINS && Marked(t.treemap, i)
    ensures Root(i) in t.rings
  {
  }

  lemma KeysAreChunks(t: Trie)
    requires Ok(t)
    ensures Chunks(t.node, t.at).Keys == t.at.Keys
  {
  }

  lemma EmptyBin(t: Trie, i: nat, s: nat)
    requires Ok(t) && i < NTREEBINS && !Marked(t.treemap, i) && BinOfSize(s) == i
    ensures Root(i) !in t.rings
    ensures forall a :: a in t.at ==> t.node[a].size != s
  {
    forall a | a in t.at ensures t.node[a].size != s {
      ExtendsRoot(t.at[a]);
      if Root(Bin(t.at[a])) == Root(i) {
        ClosedUp(t.rings, t.at[a], Root(i));
      }
    }
  }

  lemma LeafAdded(t: Trie, c: Path, x: Addr, s: nat)
    requires Ok(t) && FreeSlot(t.rings, c) && Fits(c, s)
    requires x !in t.at && x != NULL && forall a :: a in t.at ==> t.node[a].size != s
    ensures var t' := WithLeaf(t, c, x, s);
      Ok(t') && Chunks(t'.node, t'.at) == Chunks(t.node, t.at)[x := s] && Untouched(t.node, t'.node, t.at.Keys + {x})
  {
    LeafKept(t, c, x, s);
    LeafChunks(t.node, t.rings, t.at, t.pos, c, x, s);
    LeafUntouched(t.node, t.rings, t.at, t.pos, c, x, s);
  }

  lemma ChainAdded(t: Trie, p: Path, x: Addr, s: nat)
    requires Ok(t) && p in t.rings && x !in t.at && x != NULL
    requires t.rings[p][0] in t.node && t.node[t.rings[p][0]].size == s
    ensures var t' := WithChained(t, p, x, s);
      Ok(t') && Chunks(t'.node, t'.at) == Chunks(t.node, t.at)[x := s] && Untouched(t.node, t'.node, t.at.Keys + {x})
  {
    ChainKept(t, p, x, s);
    ChainUntouched(t.node, t.rings, t.at, t.pos, p, x, s);
  }

  // ---- Unlinking ----

  ghost predicate IsLeaf(rings: Rings, q: Path) {
    q in rings && Lo(q) !in rings && Hi(q) !in rings
  }

  function Without(at: map<Addr, Path>, q: Path): map<Addr, Path> {
    map a | a in at && at[a] != q :: at[a]
  }

  // The node words after the child slot of position q is cleared.
  function SlotCleared(node: Nodes, rings: Rings, q: Path): Nodes {
    var t := if q.Root? then NULL else Head(rings, q.up);
    if !q.Root? && t in node then node[t := WithChild(node[t], q.Hi?, NULL)] else node
  }

  // The trie without the ring of a leaf position. The ring's own words stay as they are.
  ghost function WithoutLeaf(t: Trie, q: Path): Trie {
    Trie(SlotCleared(t.node, t.rings, q),
         if q.Root? && q.bin < |t.treebins| then t.treebins[q.bin := NULL] else t.treebins,
         if q.Root? && q.bin < 32 then Clear(t.treemap, q.bin) else t.treemap,
         t.rings - {q}, Without(t.at, q), t.pos)
  }

  lemma RemoveRing(rings: Rings, at: map<Addr, Path>, pos: map<Addr, nat>, q: Path)
    requires Indexed(rings, at, pos) && Closed(rings) && IsLeaf(rings, q)
    ensures Indexed(rings - {q}, Without(at, q), pos) && Closed(rings - {q})
    ensures forall p :: p != q ==> Head(rings - {q}, p) == Head(rings, p)
  {
    var rings', at' := rings - {q}, Without(at, q);
    forall p | p in rings' && !p.Root? ensures p.up in rings' {
      assert p.up == q ==> p == Lo(q) || p == Hi(q);
    }
  }

  lemma LeafRemovedLinks(node: Nodes, rings: Rings, at: map<Addr, Path>, pos: map<Addr, nat>, q: Path)
    requires Indexed(rings, at, pos) && RingLinks(node, rings, at, pos) && q in rings
    requires Indexed(rings - {q}, Without(at, q), pos)
    ensures RingLinks(SlotCleared(node, rings, q), rings - {q}, Without(at, q), pos)
  {
  }

  lemma OtherLinksWithout(n: Node, rings: Rings, q: Path, p: Path, k: nat)
    requires TreeLinks(n, rings, p, k) && p != q && IsLeaf(rings, q) && p in rings
    requires !q.Root? ==> p != q.up || k > 0
    ensures TreeLinks(n, rings - {q}, p, k)
  {
  }

  lemma ParentLinksWithout(n: Node, rings: Rings, q: Path)
    requires !q.Root? && IsLeaf(rings, q) && TreeLinks(n, rings, q.up, 0)
    ensures TreeLinks(WithChild(n, q.Hi?, NULL), rings - {q}, q.up, 0)
  {
    if !q.up.Root? {
      assert Depth(q) == Depth(q.up.up) + 2;
    }
  }

  lemma LeafRemovedShape(node: Nodes, rings: Rings, at: map<Addr, Path>, pos: map<Addr, nat>, q: Path)
    requires Indexed(rings, at, pos) && Closed(rings) && Shaped(node, rings, at, pos) && IsLeaf(rings, q)
    requires Indexed(rings - {q}, Without(at, q), pos)
    ensures Shaped(SlotCleared(node, rings, q), rings - {q}, Without(at, q), pos)
  {
    var node', rings', at' := SlotCleared(node, rings, q), rings - {q}, Without(at, q);
    forall a | a in at' ensures a in node' && TreeLinks(node'[a], rings', at'[a], pos[a]) {
      if !q.Root? && a == Head(rings, q.up) {
        assert at[a] == q.up && pos[a] == 0;
        ParentLinksWithout(node[a], rings, q);
      } else {
        assert rings[at[a]][pos[a]] == a;
        OtherLinksWithout(node[a], rings, q, at[a], pos[a]);
      }
    }
  }

  lemma SubsetSizes(node: Nodes, node': Nodes, at: map<Addr, Path>, at': map<Addr, Path>)
    requires Sized(node, at)
    requires forall a :: a in at' ==> a in at && at'[a] == at[a] && a in node' && node'[a].size == node[a].size
    ensures Sized(node', at')
  {
  }

  lemma LeafRemovedSizes(node: Nodes, rings: Rings, at: map<Addr, Path>, q: Path)
    requires Sized(node, at)
    ensures Sized(SlotCleared(node, rings, q), Without(at, q))
  {
    SubsetSizes(node, SlotCleared(node, rings, q), at, Without(at, q));
  }

  lemma LeafRemovedRooted(t: Trie, q: Path)
    requires Rooted(t.treebins, t.treemap, t.rings) && Closed(t.rings) && q in t.rings
    ensures var t' := WithoutLeaf(t, q); Rooted(t'.treebins, t'.treemap, t'.rings)
  {
    if q.Root? {
      ClearAll(t.treemap, q.bin);
    }
  }

  lemma LeafRemoved(t: Trie, q: Path)
    requires Ok(t) && IsLeaf(t.rings, q)
    ensures Ok(WithoutLeaf(t, q))
  {
    var Trie(node, treebins, treemap, rings, at, pos) := t;
    RemoveRing(rings, at, pos, q);
    LeafRemovedLinks(node, rings, at, pos, q);
    LeafRemovedShape(node, rings, at, pos, q);
    LeafRemovedSizes(node, rings, at, q);
    LeafRemovedRooted(t, q);
  }

  // The relinking at the end of unlink_large_chunk: r takes the place of the tree node x.
  function ParentRelinked(node: Nodes, x: Addr, r: Addr): Nodes
    requires x in node
  {
    var xp := node[x].parent;
    if xp.TreeNode? && xp.node in node then
      node[xp.node := if node[xp.node].left == x then node[xp.node].(left := r) else node[xp.node].(right := r)]
    else node
  }

  function ChildRelinked(node: Nodes, r: Addr, c: Addr, right: bool): Nodes {
    if c != NULL && r in node && c in node then
      var n := node[r := WithChild(node[r], right, c)];
      n[c := n[c].(parent := TreeNode(r))]
    else node
  }

  // Relinking a child of r changes no other node's links to its children.
  lemma ChildKeeps()
    ensures forall node: Nodes, r, c, right {:trigger ChildRelinked(node, r, c, right)} ::
              && ChildRelinked(node, r, c, right).Keys == node.Keys
              && forall x :: x in node && x != r ==>
                   ChildRelinked(node, r, c, right)[x].right == node[x].right
  {
  }

  function Relinked(node: Nodes, x: Addr, r: Addr): Nodes
    requires x in node
  {
    var n1 := ParentRelinked(node, x, r);
    if r in n1 && x in n1 then
      var n2 := n1[r := n1[r].(parent := node[x].parent)];
      var n3 := ChildRelinked(n2, r, node[x].left, false);
      ChildRelinked(n3, r, node[x].right, true)
    else n1
  }

  // A chunk of a ring that is to stand at position p: linked into the ring s, without tree links yet.
  ghost predicate SpareChunk(n: Node, s: seq<Addr>, p: Path, k: nat)
    requires k < |s|
  {
    && n.fd == Before(s, k) && n.bk == After(s, k) && n.index == Bin(p)
    && n.left == n.right == NULL && (k > 0 ==> n.parent == NoParent)
  }

  // Another ring of one size to stand at position p.
  ghost predicate SpareRing(node: Nodes, s: seq<Addr>, p: Path) {
    && |s| > 0 && s[0] in node
    && (forall j, k :: 0 <= j < k < |s| ==> s[j] != s[k])
    && (forall k :: 0 <= k < |s| ==>
          s[k] != NULL && s[k] in node && SpareChunk(node[s[k]], s, p, k) && node[s[k]].size == node[s[0]].size)
    && Fits(p, node[s[0]].size)
  }

  // The new index of chunks when the ring at p is replaced by s.
  ghost predicate Replaced(at: map<Addr, Path>, pos: map<Addr, nat>, at': map<Addr, Path>, pos': map<Addr, nat>,
                           p: Path, s: seq<Addr>)
  {
    && (forall a :: a in at' <==> (a in at && at[a] != p) || a in s)
    && (forall a :: a in at && at[a] != p ==> a !in s && at'[a] == at[a] && a in pos && a in pos' && pos'[a] == pos[a])
    && (forall k :: 0 <= k < |s| ==> at'[s[k]] == p && s[k] in pos' && pos'[s[k]] == k)
  }

  lemma ReplacedIndex(rings: Rings, at: map<Addr, Path>, pos: map<Addr, nat>,
                      at': map<Addr, Path>, pos': map<Addr, nat>, p: Path, s: seq<Addr>)
    requires Indexed(rings, at, pos) && Closed(rings) && p in rings && |s| > 0
    requires Replaced(at, pos, at', pos', p, s)
    ensures Indexed(rings[p := s], at', pos') && Closed(rings[p := s])
    ensures forall q :: q != p ==> Head(rings[p := s], q) == Head(rings, q)
  {
    var rings' := rings[p := s];
    forall q, k | q in rings' && 0 <= k < |rings'[q]|
      ensures rings'[q][k] in at' && rings'[q][k] in pos' && at'[rings'[q][k]] == q && pos'[rings'[q][k]] == k
    {
      if q != p {
        assert rings[q][k] in at;
      }
    }
    forall a | a in at'
      ensures a in pos' && at'[a] in rings' && pos'[a] < |rings'[at'[a]]| && rings'[at'[a]][pos'[a]] == a
    {
      if a in s {
        var k :| 0 <= k < |s| && s[k] == a;
      }
    }
  }

  // The words around a tree node x that is about to be replaced.
  ghost predicate Neighbourhood(node: Nodes, x: Addr, r: Addr) {
    && x in node && r in node && x != r && r != NULL
    && var n := node[x];
       && (n.left != NULL ==> n.left in node && n.left != x && n.left != r && n.left != n.right)
       && (n.right != NULL ==> n.right in node && n.right != x && n.right != r)
       && (n.parent.TreeNode? ==>
             && n.parent.node in node && n.parent.node != r && n.parent.node != x
             && n.parent.node != n.left && n.parent.node != n.right)
  }

  lemma RelinkedWords(node: Nodes, x: Addr, r: Addr, a: Addr)
    requires Neighbourhood(node, x, r) && a in node
    requires node[r].left == node[r].right == NULL
    ensures a in Relinked(node, x, r)
    ensures var n, n', nx := node[a], Relinked(node, x, r)[a], node[x];
      n' == if a == r then n.(parent := nx.parent, left := nx.left, right := nx.right)
            else if a != NULL && (a == nx.left || a == nx.right) then n.(parent := TreeNode(r))
            else if nx.parent == TreeNode(a) then (if n.left == x then n.(left := r) else n.(right := r))
            else n
  {
  }

  // x, r and the neighbours of x are at different places.
  lemma PlacesDiffer(node: Nodes, rings: Rings, at: map<Addr, Path>, pos: map<Addr, nat>, p: Path, r: Addr)
    requires Indexed(rings, at, pos) && Closed(rings) && Shaped(node, rings, at, pos)
    requires NULL !in at && p in rings && r in node && r != NULL && r != rings[p][0] && (r in at ==> at[r] == p)
    ensures Neighbourhood(node, rings[p][0], r)
  {
    var x := rings[p][0];
    assert x in at && at[x] == p && pos[x] == 0;
    if Lo(p) in rings {
      assert rings[Lo(p)][0] in at;
    }
    if Hi(p) in rings {
      assert rings[Hi(p)][0] in at;
    }
    if !p.Root? {
      assert rings[p.up][0] in at;
      assert Depth(p) == Depth(p.up) + 1;
      assert Depth(Lo(p)) == Depth(Hi(p)) == Depth(p) + 1;
    }
  }

  // Ring links everywhere but at position p.
  ghost predicate RingLinksBut(node: Nodes, rings: Rings, at: map<Addr, Path>, pos: map<Addr, nat>, p: Path)
    requires Indexed(rings, at, pos)
  {
    forall a :: a in at && at[a] != p ==>
      && a != NULL && a in node
      && node[a].fd == Before(rings[at[a]], pos[a]) && node[a].bk == After(rings[at[a]], pos[a])
  }

  lemma ReplacedRingLinks(node: Nodes, node': Nodes, rings: Rings, at: map<Addr, Path>, pos: map<Addr, nat>,
                          at': map<Addr, Path>, pos': map<Addr, nat>, p: Path, s: seq<Addr>)
    requires Indexed(rings, at, pos) && RingLinksBut(node, rings, at, pos, p) && p in rings
    requires SpareRing(node, s, p) && Replaced(at, pos, at', pos', p, s) && Indexed(rings[p := s], at', pos')
    requires forall a :: a in at' && a in node ==> a in node' && node'[a].fd == node[a].fd && node'[a].bk == node[a].bk
    ensures RingLinks(node', rings[p := s], at', pos')
  {
    forall a | a in at'
      ensures a != NULL && a in node'
      ensures node'[a].fd == Before(rings[p := s][at'[a]], pos'[a])
          && node'[a].bk == After(rings[p := s][at'[a]], pos'[a])
    {
      if a in s {
        var k :| 0 <= k < |s| && s[k] == a;
      }
    }
  }

  function Redirected(n: Node, p: Path, r: Addr, q: Path, k: nat): Node {
    if k == 0 && (q == Lo(p) || q == Hi(p)) then n.(parent := TreeNode(r))
    else if k == 0 && !p.Root? && q == p.up then WithChild(n, p.Hi?, r)
    else n
  }

  // Tree links away from position p: they change only where they point to the head of p.
  lemma LinksAroundReplaced(n: Node, rings: Rings, p: Path, s: seq<Addr>, q: Path, k: nat)
    requires TreeLinks(n, rings, q, k) && p in rings && |rings[p]| > 0 && |s| > 0 && q != p
    ensures TreeLinks(Redirected(n, p, s[0], q, k), rings[p := s], q, k)
  {
    assert Depth(Lo(p)) == Depth(Hi(p)) == Depth(p) + 1;
    if !p.Root? {
      assert Depth(p) == Depth(p.up) + 1;
      assert Depth(q) == if q.Root? then 0 else Depth(q.up) + 1;
    }
  }

  lemma ReplacedMember(node: Nodes, rings: Rings, at: map<Addr, Path>, pos: map<Addr, nat>, p: Path,
      s: seq<Addr>, k: nat)
    requires Indexed(rings, at, pos) && Shaped(node, rings, at, pos)
    requires p in rings && SpareRing(node, s, p) && k < |s| && Neighbourhood(node, rings[p][0], s[0])
    requires s[k] !in at || at[s[k]] == p
    requires rings[p][0] !in s
    ensures s[k] in Relinked(node, rings[p][0], s[0])
    ensures TreeLinks(Relinked(node, rings[p][0], s[0])[s[k]], rings[p := s], p, k)
  {
    var x := rings[p][0];
    assert x in at && at[x] == p && pos[x] == 0;
    RelinkedWords(node, x, s[0], s[k]);
    NotNeighbour(node, rings, at, pos, p, s[k]);
    assert Depth(Lo(p)) == Depth(Hi(p)) == Depth(p) + 1;
    if !p.Root? {
      assert Depth(p) == Depth(p.up) + 1;
    }
  }

  // A chunk at p or outside the trie is no neighbour of the head of p.
  lemma NotNeighbour(node: Nodes, rings: Rings, at: map<Addr, Path>, pos: map<Addr, nat>, p: Path, a: Addr)
    requires Indexed(rings, at, pos) && Shaped(node, rings, at, pos) && p in rings && rings[p][0] in node
    requires a !in at || at[a] == p
    ensures a != NULL ==> a != node[rings[p][0]].left && a != node[rings[p][0]].right
    ensures Closed(rings) ==> node[rings[p][0]].parent != TreeNode(a)
  {
    var x := rings[p][0];
    assert x in at && at[x] == p && pos[x] == 0;
    if Lo(p) in rings {
      assert rings[Lo(p)][0] in at;
    }
    if Hi(p) in rings {
      assert rings[Hi(p)][0] in at;
    }
    if !p.Root? && p.up in rings {
      assert rings[p.up][0] in at;
      assert Depth(p) == Depth(p.up) + 1;
    }
  }

  // A chunk elsewhere in the trie: it is redirected exactly when it is a neighbour of the head of p.
  lemma ReplacedOther(node: Nodes, rings: Rings, at: map<Addr, Path>, pos: map<Addr, nat>, p: Path,
      s: seq<Addr>, a: Addr)
    requires Indexed(rings, at, pos) && Closed(rings) && Shaped(node, rings, at, pos) && NULL !in at
    requires p in rings && SpareRing(node, s, p) && Neighbourhood(node, rings[p][0], s[0])
    requires a in at && at[a] != p && a !in s
    ensures a in Relinked(node, rings[p][0], s[0])
    ensures TreeLinks(Relinked(node, rings[p][0], s[0])[a], rings[p := s], at[a], pos[a])
  {
    var x, r := rings[p][0], s[0];
    assert x in at && at[x] == p && pos[x] == 0;
    RelinkedWords(node, x, r, a);
    LinksAroundReplaced(node[a], rings, p, s, at[a], pos[a]);
    NeighbourIs(node, rings, at, pos, p, a);
  }

  lemma NeighbourIs(node: Nodes, rings: Rings, at: map<Addr, Path>, pos: map<Addr, nat>, p: Path, a: Addr)
    requires Indexed(rings, at, pos) && Closed(rings) && Shaped(node, rings, at, pos) && NULL !in at
    requires p in rings && a in at && at[a] != p && rings[p][0] in node
    ensures var nx := node[rings[p][0]];
      && (a == nx.left <==> pos[a] == 0 && at[a] == Lo(p))
      && (a == nx.right <==> pos[a] == 0 && at[a] == Hi(p))
      && (nx.parent == TreeNode(a) <==> pos[a] == 0 && !p.Root? && at[a] == p.up)
    ensures pos[a] == 0 && !p.Root? && at[a] == p.up ==> (node[a].left == rings[p][0] <==> p.Lo?)
  {
    var x := rings[p][0];
    assert x in at && at[x] == p && pos[x] == 0;
    assert rings[at[a]][pos[a]] == a;
    if Lo(p) in rings {
      assert rings[Lo(p)][0] in at;
    }
    if Hi(p) in rings {
      assert rings[Hi(p)][0] in at;
    }
    if !p.Root? {
      assert rings[p.up][0] in at;
      if Lo(p.up) in rings {
        assert rings[Lo(p.up)][0] in at;
      }
    }
  }

  lemma ReplacedShape(node: Nodes, rings: Rings, at: map<Addr, Path>, pos: map<Addr, nat>,
                      at': map<Addr, Path>, pos': map<Addr, nat>, p: Path, s: seq<Addr>)
    requires Indexed(rings, at, pos) && Closed(rings) && Shaped(node, rings, at, pos) && NULL !in at
    requires p in rings && SpareRing(node, s, p) && rings[p][0] !in s
    requires Replaced(at, pos, at', pos', p, s) && Indexed(rings[p := s], at', pos')
    requires s[0] in at ==> at[s[0]] == p
    ensures Shaped(Relinked(node, rings[p][0], s[0]), rings[p := s], at', pos')
  {
    var x, r := rings[p][0], s[0];
    var node', rings' := Relinked(node, x, r), rings[p := s];
    PlacesDiffer(node, rings, at, pos, p, r);
    forall a | a in at' ensures a in node' && TreeLinks(node'[a], rings', at'[a], pos'[a]) {
      if a in s {
        var k :| 0 <= k < |s| && s[k] == a;
        ReplacedMember(node, rings, at, pos, p, s, k);
      } else {
        ReplacedOther(node, rings, at, pos, p, s, a);
      }
    }
  }

  lemma ReplacedSizes(node: Nodes, node': Nodes, at: map<Addr, Path>, pos: map<Addr, nat>,
                      at': map<Addr, Path>, pos': map<Addr, nat>, p: Path, s: seq<Addr>)
    requires Sized(node, at) && SpareRing(node, s, p) && Replaced(at, pos, at', pos', p, s)
    requires forall a :: a in at && at[a] != p ==> node[a].size != node[s[0]].size
    requires forall a :: a in at' && a in node ==> a in node' && node'[a].size == node[a].size
    ensures Sized(node', at')
  {
    forall a | a in at'
      ensures a in node && a in node' && Fits(at'[a], node'[a].size)
      ensures at'[a] == p <==> node'[a].size == node[s[0]].size
    {
      if a in s {
        var k :| 0 <= k < |s| && s[k] == a;
      }
    }
  }

  lemma RelinkedSameWords(node: Nodes, rings: Rings, at: map<Addr, Path>, pos: map<Addr, nat>, p: Path, s: seq<Addr>,
                          at': map<Addr, Path>, pos': map<Addr, nat>)
    requires Indexed(rings, at, pos) && Closed(rings) && Shaped(node, rings, at, pos) && NULL !in at
    requires p in rings && SpareRing(node, s, p) && rings[p][0] !in s && (s[0] in at ==> at[s[0]] == p)
    ensures rings[p][0] in node
    ensures var node' := Relinked(node, rings[p][0], s[0]);
      forall a :: a in node ==>
        a in node' && node'[a].size == node[a].size && node'[a].fd == node[a].fd && node'[a].bk == node[a].bk
  {
    PlacesDiffer(node, rings, at, pos, p, s[0]);
    forall a | a in node
      ensures var node' := Relinked(node, rings[p][0], s[0]);
        a in node' && node'[a].size == node[a].size && node'[a].fd == node[a].fd && node'[a].bk == node[a].bk
    {
      RelinkedWords(node, rings[p][0], s[0], a);
    }
  }

  ghost function WithRing(t: Trie, p: Path, s: seq<Addr>, at': map<Addr, Path>, pos': map<Addr, nat>): Trie
    requires p in t.rings && |t.rings[p]| > 0 && t.rings[p][0] in t.node && |s| > 0
  {
    Trie(Relinked(t.node, t.rings[p][0], s[0]),
         if p.Root? && p.bin < |t.treebins| then t.treebins[p.bin := s[0]] else t.treebins,
         t.treemap, t.rings[p := s], at', pos')
  }

  // A trie in order but for the ring links at p, whose ring is to be replaced.
  ghost predicate OkBut(t: Trie, p: Path) {
    match t
    case Trie(node, treebins, treemap, rings, at, pos) =>
      && Indexed(rings, at, pos) && Closed(rings) && p in rings && NULL !in at
      && RingLinksBut(node, rings, at, pos, p) && Shaped(node, rings, at, pos)
      && Sized(node, at) && Rooted(treebins, treemap, rings) && rings[p][0] in node
  }

  lemma RingReplaced(t: Trie, p: Path, s: seq<Addr>, at': map<Addr, Path>, pos': map<Addr, nat>)
    requires OkBut(t, p) && SpareRing(t.node, s, p) && Replaced(t.at, t.pos, at', pos', p, s)
    requires t.rings[p][0] !in s && (s[0] in t.at ==> t.at[s[0]] == p)
    requires forall a :: a in t.at && t.at[a] != p ==> t.node[a].size != t.node[s[0]].size
    ensures Ok(WithRing(t, p, s, at', pos'))
  {
    var Trie(node, treebins, treemap, rings, at, pos) := t;
    var node' := Relinked(node, rings[p][0], s[0]);
    ReplacedIndex(rings, at, pos, at', pos', p, s);
    RelinkedSameWords(node, rings, at, pos, p, s, at', pos');
    ReplacedRingLinks(node, node', rings, at, pos, at', pos', p, s);
    ReplacedShape(node, rings, at, pos, at', pos', p, s);
    ReplacedSizes(node, node', at, pos, at', pos', p, s);
    RootedReplaced(t, p, s, at', pos');
  }

  lemma RootedReplaced(t: Trie, p: Path, s: seq<Addr>, at': map<Addr, Path>, pos': map<Addr, nat>)
    requires Rooted(t.treebins, t.treemap, t.rings) && Closed(t.rings)
    requires p in t.rings && |t.rings[p]| > 0 && t.rings[p][0] in t.node && |s| > 0
    ensures var t' := WithRing(t, p, s, at', pos'); Rooted(t'.treebins, t'.treemap, t'.rings)
  {
  }

  // ---- Taking a chunk out of a ring of several ----

  function Cut(r: seq<Addr>, k: nat): seq<Addr>
    requires k < |r|
  {
    r[..k] + r[k + 1..]
  }

  function CutWords(node: Nodes, x: Addr): Nodes
    requires x in node
  {
    var f, b := node[x].fd, node[x].bk;
    var n := if f in node then node[f := node[f].(bk := b)] else node;
    if b in n then n[b := n[b].(fd := f)] else n
  }

  function CutAt(at: map<Addr, Path>, x: Addr): map<Addr, Path> {
    map a | a in at && a != x :: at[a]
  }

  function CutPos(at: map<Addr, Path>, pos: map<Addr, nat>, p: Path, k: nat): map<Addr, nat> {
    map a | a in pos :: if a in at && at[a] == p && pos[a] > k then pos[a] - 1 else pos[a]
  }

  lemma CutNeighbours(r: seq<Addr>, k: nat, j: nat)
    requires |r| >= 2 && k < |r| && j < |r| && j != k
    requires forall i, j :: 0 <= i < j < |r| ==> r[i] != r[j]
    ensures var j' := if j > k then j - 1 else j;
      && Cut(r, k)[j'] == r[j]
      && Before(Cut(r, k), j') == (if r[j] == After(r, k) then Before(r, k) else Before(r, j))
      && After(Cut(r, k), j') == (if r[j] == Before(r, k) then After(r, k) else After(r, j))
  {
  }

  lemma CutWord(node: Nodes, x: Addr, a: Addr)
    requires x in node && node[x].fd in node && node[x].bk in node && a in node
    ensures a in CutWords(node, x)
    ensures CutWords(node, x)[a] ==
            node[a].(bk := if a == node[x].fd then node[x].bk else node[a].bk,
                     fd := if a == node[x].bk then node[x].fd else node[a].fd)
  {
  }

  lemma RingDistinct(rings: Rings, at: map<Addr, Path>, pos: map<Addr, nat>, p: Path)
    requires Indexed(rings, at, pos) && p in rings
    ensures forall i, j :: 0 <= i < j < |rings[p]| ==> rings[p][i] != rings[p][j]
  {
    forall i, j | 0 <= i < j < |rings[p]| ensures rings[p][i] != rings[p][j] {
      assert pos[rings[p][i]] == i && pos[rings[p][j]] == j;
    }
  }

  lemma CutIndexed(rings: Rings, at: map<Addr, Path>, pos: map<Addr, nat>, p: Path, k: nat)
    requires Indexed(rings, at, pos) && Closed(rings) && p in rings && k < |rings[p]| && |rings[p]| >= 2
    ensures Replaced(at, pos, CutAt(at, rings[p][k]), CutPos(at, pos, p, k), p, Cut(rings[p], k))
  {
    var r := rings[p];
    var x, r', at', pos' := r[k], Cut(r, k), CutAt(at, r[k]), CutPos(at, pos, p, k);
    RingDistinct(rings, at, pos, p);
    forall j | 0 <= j < |r'| ensures r'[j] in at' && at'[r'[j]] == p && r'[j] in pos' && pos'[r'[j]] == j {
      assert r'[j] == r[if j < k then j else j + 1];
    }
    forall a | a in at && at[a] == p && a != x ensures a in r' {
      var j := pos[a];
      assert r'[if j < k then j else j - 1] == a;
    }
    assert forall a :: a in r' ==> a in at && at[a] == p;
  }

  lemma CutRingLinks(node: Nodes, rings: Rings, at: map<Addr, Path>, pos: map<Addr, nat>, p: Path, k: nat, j: nat)
    requires Indexed(rings, at, pos) && RingLinks(node, rings, at, pos) && p in rings
    requires k < |rings[p]| && |rings[p]| >= 2 && j < |rings[p]| && j != k
    ensures var r := rings[p];
      var node', r', j' := CutWords(node, r[k]), Cut(r, k), if j > k then j - 1 else j;
      r'[j'] == r[j] && r[j] in node' && node'[r[j]].fd == Before(r', j') && node'[r[j]].bk == After(r', j')
  {
    var r := rings[p];
    RingDistinct(rings, at, pos, p);
    assert r[k] in at && r[j] in at && After(r, k) in at && Before(r, k) in at;
    CutNeighbours(r, k, j);
    CutWord(node, r[k], r[j]);
  }

  // ---- The three ways unlink_large_chunk ends ----

  // The tree links and sizes of all chunks survive a cut.
  lemma CutSameWords(node: Nodes, rings: Rings, at: map<Addr, Path>, pos: map<Addr, nat>, p: Path, k: nat)
    requires Indexed(rings, at, pos) && RingLinks(node, rings, at, pos) && p in rings && k < |rings[p]|
    ensures rings[p][k] in node
    ensures forall a :: a in node ==>
              var n' := CutWords(node, rings[p][k]);
              a in n' && n'[a] == node[a].(fd := n'[a].fd, bk := n'[a].bk)
    ensures forall a :: a in node && (a !in at || at[a] != p) ==> CutWords(node, rings[p][k])[a] == node[a]
  {
    var r := rings[p];
    var x := r[k];
    assert x in at && After(r, k) in at && Before(r, k) in at;
    forall a | a in node
      ensures var n' := CutWords(node, x);
        && a in n' && n'[a] == node[a].(fd := n'[a].fd, bk := n'[a].bk)
        && (a !in at || at[a] != p ==> n'[a] == node[a])
    {
      CutWord(node, x, a);
    }
  }

  // A trie after the fd/bk links around the k-th chunk of ring p were joined.
  ghost function WithCutWords(t: Trie, p: Path, k: nat): Trie
    requires p in t.rings && k < |t.rings[p]| && t.rings[p][k] in t.node
  {
    t.(node := CutWords(t.node, t.rings[p][k]))
  }

  lemma CutOkBut(t: Trie, p: Path, k: nat)
    requires Ok(t) && p in t.rings && k < |t.rings[p]|
    ensures t.rings[p][k] in t.node && OkBut(WithCutWords(t, p, k), p)
    ensures Chunks(CutWords(t.node, t.rings[p][k]), t.at) == Chunks(t.node, t.at)
  {
    var Trie(node, treebins, treemap, rings, at, pos) := t;
    CutSameWords(node, rings, at, pos, p, k);
    var node' := CutWords(node, rings[p][k]);
    assert RingLinksBut(node', rings, at, pos, p);
    assert Shaped(node', rings, at, pos);
    SameSizes(node, node', at);
    assert rings[p][0] in at;
  }

  // Case 1: a chained chunk goes; its ring closes around it.
  ghost function WithoutChained(t: Trie, p: Path, k: nat): Trie
    requires p in t.rings && k < |t.rings[p]| && t.rings[p][k] in t.node
  {
    t.(node := CutWords(t.node, t.rings[p][k]), rings := t.rings[p := Cut(t.rings[p], k)],
       at := CutAt(t.at, t.rings[p][k]), pos := CutPos(t.at, t.pos, p, k))
  }

  lemma ChainedCutLinks(node: Nodes, rings: Rings, at: map<Addr, Path>, pos: map<Addr, nat>, p: Path, k: nat)
    requires Indexed(rings, at, pos) && RingLinks(node, rings, at, pos) && p in rings
    requires k < |rings[p]| && |rings[p]| >= 2
    requires Indexed(rings[p := Cut(rings[p], k)], CutAt(at, rings[p][k]), CutPos(at, pos, p, k))
    ensures rings[p][k] in node
    ensures RingLinks(CutWords(node, rings[p][k]), rings[p := Cut(rings[p], k)],
                      CutAt(at, rings[p][k]), CutPos(at, pos, p, k))
  {
    var r := rings[p];
    var node', rings', at', pos' := CutWords(node, r[k]), rings[p := Cut(r, k)], CutAt(at, r[k]), CutPos(at, pos, p, k);
    CutSameWords(node, rings, at, pos, p, k);
    forall a | a in at'
      ensures a != NULL && a in node'
      ensures node'[a].fd == Before(rings'[at'[a]], pos'[a]) && node'[a].bk == After(rings'[at'[a]], pos'[a])
    {
      if at[a] == p {
        CutRingLinks(node, rings, at, pos, p, k, pos[a]);
      }
    }
  }

  lemma ChainedCutShape(node: Nodes, rings: Rings, at: map<Addr, Path>, pos: map<Addr, nat>, p: Path, k: nat)
    requires Indexed(rings, at, pos) && RingLinks(node, rings, at, pos) && Shaped(node, rings, at, pos)
    requires p in rings && 0 < k < |rings[p]|
    requires Indexed(rings[p := Cut(rings[p], k)], CutAt(at, rings[p][k]), CutPos(at, pos, p, k))
    ensures rings[p][k] in node
    ensures Shaped(CutWords(node, rings[p][k]), rings[p := Cut(rings[p], k)],
                   CutAt(at, rings[p][k]), CutPos(at, pos, p, k))
  {
    CutSameWords(node, rings, at, pos, p, k);
    HeadKept(rings, p, k);
    var rings' := rings[p := Cut(rings[p], k)];
    forall a | a in at && a != rings[p][k]
      ensures TreeLinks(CutWords(node, rings[p][k])[a], rings', at[a], CutPos(at, pos, p, k)[a])
    {
      assert rings[at[a]][pos[a]] == a;
    }
  }

  lemma HeadKept(rings: Rings, p: Path, k: nat)
    requires p in rings && 0 < k < |rings[p]|
    ensures forall q :: Head(rings[p := Cut(rings[p], k)], q) == Head(rings, q)
  {
  }

  lemma ChainedRemoved(t: Trie, p: Path, k: nat)
    requires Ok(t) && p in t.rings && 0 < k < |t.rings[p]|
    ensures t.rings[p][k] in t.node && Ok(WithoutChained(t, p, k))
  {
    var Trie(node, treebins, treemap, rings, at, pos) := t;
    CutIndexed(rings, at, pos, p, k);
    ReplacedIndex(rings, at, pos, CutAt(at, rings[p][k]), CutPos(at, pos, p, k), p, Cut(rings[p], k));
    ChainedCutLinks(node, rings, at, pos, p, k);
    ChainedCutShape(node, rings, at, pos, p, k);
    CutSameWords(node, rings, at, pos, p, k);
    SubsetSizes(node, CutWords(node, rings[p][k]), at, CutAt(at, rings[p][k]));
    HeadKept(rings, p, k);
  }

  // Case 2: the tree node goes and the oldest chained chunk, its bk neighbour, takes its place.
  lemma CutSpareChunk(node: Nodes, rings: Rings, at: map<Addr, Path>, pos: map<Addr, nat>, p: Path, k: nat)
    requires Indexed(rings, at, pos) && RingLinks(node, rings, at, pos) && Shaped(node, rings, at, pos)
    requires p in rings && 0 < k < |rings[p]|
    ensures rings[p][0] in node && rings[p][k] in at && rings[p][k] != NULL
    ensures var a, s, node' := rings[p][k], Cut(rings[p], 0), CutWords(node, rings[p][0]);
      && s[k - 1] == a && a in node && a in node'
      && SpareChunk(node'[a], s, p, k - 1) && node'[a].size == node[a].size
  {
    var r := rings[p];
    CutSameWords(node, rings, at, pos, p, 0);
    CutRingLinks(node, rings, at, pos, p, 0, k);
    assert r[k] in at && at[r[k]] == p && pos[r[k]] == k;
  }

  lemma CutSpareRing(t: Trie, p: Path)
    requires Ok(t) && p in t.rings && |t.rings[p]| >= 2
    ensures t.rings[p][0] in t.node && SpareRing(CutWords(t.node, t.rings[p][0]), Cut(t.rings[p], 0), p)
  {
    var Trie(node, treebins, treemap, rings, at, pos) := t;
    hide Ok, SpareChunk, CutWords, Fits, Sized, Shaped, RingLinks, Rooted, Closed, Indexed, Bin;
    OkParts(t);
    SameSizeRing(node, rings, at, pos, p);
    RingDistinct(rings, at, pos, p);
    var s := Cut(rings[p], 0);
    CutSpareChunk(node, rings, at, pos, p, 1);
    var node' := CutWords(node, rings[p][0]);
    forall k | 0 <= k < |s|
      ensures s[k] != NULL && s[k] in node' && SpareChunk(node'[s[k]], s, p, k)
      ensures node'[s[k]].size == node[rings[p][0]].size
    {
      CutSpareChunk(node, rings, at, pos, p, k + 1);
    }
  }

  lemma OkParts(t: Trie)
    requires Ok(t)
    ensures Indexed(t.rings, t.at, t.pos) && Closed(t.rings)
    ensures RingLinks(t.node, t.rings, t.at, t.pos) && Shaped(t.node, t.rings, t.at, t.pos)
    ensures Sized(t.node, t.at) && Rooted(t.treebins, t.treemap, t.rings)
  {
  }

  lemma SameSizeRing(node: Nodes, rings: Rings, at: map<Addr, Path>, pos: map<Addr, nat>, p: Path)
    requires Indexed(rings, at, pos) && Sized(node, at) && p in rings
    ensures |rings[p]| > 0 && rings[p][0] in node && Fits(p, node[rings[p][0]].size)
    ensures forall k :: 0 <= k < |rings[p]| ==>
              rings[p][k] in at && rings[p][k] in node && node[rings[p][k]].size == node[rings[p][0]].size
  {
    assert rings[p][0] in at;
  }

  ghost function WithoutHead(t: Trie, p: Path): Trie
    requires p in t.rings && |t.rings[p]| >= 2 && t.rings[p][0] in t.node
  {
    var x := t.rings[p][0];
    var cut := WithCutWords(t, p, 0);
    if x in cut.node then WithRing(cut, p, Cut(t.rings[p], 0), CutAt(t.at, x), CutPos(t.at, t.pos, p, 0)) else cut
  }

  lemma HeadRemoved(t: Trie, p: Path)
    requires Ok(t) && p in t.rings && |t.rings[p]| >= 2
    ensures t.rings[p][0] in t.node && Ok(WithoutHead(t, p))
  {
    hide Ok, OkBut, SpareRing;
    CutOkBut(t, p, 0);
    CutSpareRing(t, p);
    HeadCutFacts(t, p);
    var cut := WithCutWords(t, p, 0);
    RingReplaced(cut, p, Cut(t.rings[p], 0), CutAt(t.at, t.rings[p][0]), CutPos(t.at, t.pos, p, 0));
  }

  lemma HeadCutFacts(t: Trie, p: Path)
    requires Ok(t) && p in t.rings && |t.rings[p]| >= 2
    ensures t.rings[p][0] in t.node && t.rings[p][0] in CutWords(t.node, t.rings[p][0])
    ensures var s := Cut(t.rings[p], 0);
      && |s| > 0 && t.rings[p][0] !in s && s[0] in t.at && t.at[s[0]] == p
      && Replaced(t.at, t.pos, CutAt(t.at, t.rings[p][0]), CutPos(t.at, t.pos, p, 0), p, s)
      && s[0] in CutWords(t.node, t.rings[p][0])
      && forall a :: a in t.at && t.at[a] != p ==>
           a in CutWords(t.node, t.rings[p][0])
           && CutWords(t.node, t.rings[p][0])[a].size != CutWords(t.node, t.rings[p][0])[s[0]].size
  {
    CutIndexed(t.rings, t.at, t.pos, p, 0);
    CutSameWords(t.node, t.rings, t.at, t.pos, p, 0);
    RingDistinct(t.rings, t.at, t.pos, p);
    assert t.rings[p][1] in t.at;
  }

  // Case 3: the last chunk of its size inside the tree goes, and the ring of a leaf below takes its place.
  ghost function WithoutInner(t: Trie, p: Path, q: Path): Trie
    requires p in t.rings && q in t.rings && |t.rings[p]| > 0 && |t.rings[q]| > 0 && p != q && t.rings[p][0] in t.node
  {
    var cut := WithoutLeaf(t, q);
    WithRing(cut, p, t.rings[q], Moved(t.at, p, q), t.pos)
  }

  function Moved(at: map<Addr, Path>, p: Path, q: Path): map<Addr, Path> {
    map a | a in at && at[a] != p :: if at[a] == q then p else at[a]
  }

  lemma MovedIndex(rings: Rings, at: map<Addr, Path>, pos: map<Addr, nat>, p: Path, q: Path)
    requires Indexed(rings, at, pos) && p in rings && q in rings && p != q
    ensures Replaced(Without(at, q), pos, Moved(at, p, q), pos, p, rings[q])
  {
    var s := rings[q];
    forall a | a in at && at[a] == q ensures a in s {
      assert s[pos[a]] == a;
    }
  }

  lemma FitsAbove(q: Path, p: Path, s: nat)
    requires Extends(q, p) && Fits(q, s)
    ensures Fits(p, s)
  {
    ExtendsHolds(q, p, s);
    ExtendsBin(q, p);
  }

  lemma LeafSpareRing(t: Trie, p: Path, q: Path)
    requires Ok(t) && IsLeaf(t.rings, q) && p in t.rings && p != q && Extends(q, p)
    ensures SpareRing(SlotCleared(t.node, t.rings, q), t.rings[q], p)
  {
    var Trie(node, treebins, treemap, rings, at, pos) := t;
    hide Ok, SpareChunk, SlotCleared, Fits, Sized, Shaped, RingLinks, Rooted, Closed, Indexed, Bin;
    OkParts(t);
    RingDistinct(rings, at, pos, q);
    SameSizeRing(node, rings, at, pos, q);
    FitsAbove(q, p, node[rings[q][0]].size);
    SlotClearedWords(node, rings, at, pos, q);
    forall k | 0 <= k < |rings[q]|
      ensures SpareChunk(node[rings[q][k]], rings[q], p, k) && rings[q][k] != NULL
    {
      LeafSpareChunk(node, rings, at, pos, p, q, k);
    }
  }

  lemma LeafSpareChunk(node: Nodes, rings: Rings, at: map<Addr, Path>, pos: map<Addr, nat>, p: Path, q: Path, k: nat)
    requires Indexed(rings, at, pos) && RingLinks(node, rings, at, pos) && Shaped(node, rings, at, pos)
    requires IsLeaf(rings, q) && Extends(q, p) && k < |rings[q]|
    ensures rings[q][k] in node && rings[q][k] != NULL && SpareChunk(node[rings[q][k]], rings[q], p, k)
  {
    ExtendsBin(q, p);
    assert rings[q][k] in at && at[rings[q][k]] == q && pos[rings[q][k]] == k;
  }

  lemma SlotClearedWords(node: Nodes, rings: Rings, at: map<Addr, Path>, pos: map<Addr, nat>, q: Path)
    requires Indexed(rings, at, pos) && Closed(rings) && q in rings
    ensures forall a :: a in node ==>
              var n' := SlotCleared(node, rings, q);
              && a in n' && n'[a].size == node[a].size && n'[a].fd == node[a].fd && n'[a].bk == node[a].bk
              && (a in at && at[a] == q ==> n'[a] == node[a])
  {
    if !q.Root? {
      assert Depth(q) == Depth(q.up) + 1;
      assert rings[q.up][0] in at;
    }
  }

  lemma InnerFacts(t: Trie, p: Path, q: Path)
    requires Ok(t) && IsLeaf(t.rings, q) && p in t.rings && p != q
    ensures |t.rings[p]| > 0 && |t.rings[q]| > 0 && t.rings[p][0] in t.node
    ensures var cut, s := WithoutLeaf(t, q), t.rings[q];
      && p in cut.rings && cut.rings[p] == t.rings[p] && t.rings[p][0] in cut.node
      && t.rings[p][0] !in s && s[0] !in cut.at && s[0] in cut.node
      && forall a :: a in cut.at && cut.at[a] != p ==> a in cut.node && cut.node[a].size != cut.node[s[0]].size
  {
    hide Ok, SlotCleared, Fits, Rooted, RingLinks, Shaped, Closed, Bin;
    OkParts(t);
    SlotClearedWords(t.node, t.rings, t.at, t.pos, q);
    assert t.rings[p][0] in t.at && t.rings[q][0] in t.at;
  }

  lemma OkIsOkBut(t: Trie, p: Path)
    requires Ok(t) && p in t.rings
    ensures OkBut(t, p)
  {
    assert t.rings[p][0] in t.at;
  }

  lemma InnerRemoved(t: Trie, p: Path, q: Path)
    requires Ok(t) && IsLeaf(t.rings, q) && p in t.rings && p != q && Extends(q, p)
    ensures |t.rings[p]| > 0 && |t.rings[q]| > 0 && t.rings[p][0] in t.node && Ok(WithoutInner(t, p, q))
  {
    InnerFacts(t, p, q);
    IndexOf(t);
    MovedIndex(t.rings, t.at, t.pos, p, q);
    hide Ok, OkBut, SpareRing;
    LeafRemoved(t, q);
    LeafSpareRing(t, p, q);
    var cut := WithoutLeaf(t, q);
    OkIsOkBut(cut, p);
    RingReplaced(cut, p, t.rings[q], Moved(t.at, p, q), t.pos);
  }

  lemma IndexOf(t: Trie)
    requires Ok(t)
    ensures Indexed(t.rings, t.at, t.pos) && Closed(t.rings)
  {
  }

  // The child words of the tree node at a position.
  ghost predicate ChildWord(rings: Rings, c: Path, a: Addr) {
    if c in rings then a != NULL && |rings[c]| > 0 && a == rings[c][0] else a == NULL
  }

  lemma HeadWords(t: Trie, q: Path)
    requires Ok(t) && q in t.rings
    ensures |t.rings[q]| > 0 && t.rings[q][0] in t.node && t.rings[q][0] != NULL
    ensures ChildWord(t.rings, Lo(q), t.node[t.rings[q][0]].left)
    ensures ChildWord(t.rings, Hi(q), t.node[t.rings[q][0]].right)
    ensures t.node[t.rings[q][0]].left == t.node[t.rings[q][0]].right ==> t.node[t.rings[q][0]].left == NULL
  {
    assert t.rings[q][0] in t.at;
    if Lo(q) in t.rings {
      assert t.rings[Lo(q)][0] in t.at;
    }
    if Hi(q) in t.rings {
      assert t.rings[Hi(q)][0] in t.at;
    }
  }

  // What Relink asks of the words of a tree node x, and what its parent word says about p.
  ghost predicate ReadyToRelink(node: Nodes, treebins: seq<Addr>, p: Path, x: Addr, r: Addr) {
    && x in node && node[x].parent != NoParent && node[x].index == Bin(p) < |treebins| == 32
    && (treebins[node[x].index] == x <==> p.Root?)
    && (if p.Root? then !node[x].parent.TreeNode? && Bin(p) == p.bin
        else node[x].parent.TreeNode? && node[x].parent.node in node && node[x].parent.node != x)
    && (r != NULL ==> r in node && r != x)
    && (node[x].left != NULL ==> node[x].left in node && node[x].left != x)
    && (node[x].right != NULL ==> node[x].right in node && node[x].right != x)
  }

  lemma RelinkReady(t: Trie, p: Path, r: Addr)
    requires OkBut(t, p) && |t.rings[p]| > 0
    requires r != NULL ==> r in t.node && r != t.rings[p][0]
    ensures ReadyToRelink(t.node, t.treebins, p, t.rings[p][0], r)
  {
    var x := t.rings[p][0];
    assert x in t.at && t.at[x] == p && t.pos[x] == 0;
    if Lo(p) in t.rings {
      assert t.rings[Lo(p)][0] in t.at;
    }
    if Hi(p) in t.rings {
      assert t.rings[Hi(p)][0] in t.at;
    }
    if !p.Root? {
      assert t.rings[p.up][0] in t.at;
      assert Depth(p) == Depth(p.up) + 1;
    }
    BinOfRoot(t.rings, p);
    if Root(Bin(p)) in t.rings {
      assert t.rings[Root(Bin(p))][0] in t.at;
    }
  }

  lemma {:induction false} BinOfRoot(rings: Rings, p: Path)
    requires Closed(rings) && p in rings
    ensures Bin(p) < NTREEBINS
  {
    if !p.Root? {
      BinOfRoot(rings, p.up);
    }
  }

  lemma RingWords(t: Trie, p: Path, k: nat)
    requires Ok(t) && p in t.rings && k < |t.rings[p]|
    ensures var a, r := t.rings[p][k], t.rings[p];
      && a in t.node && a in t.at && t.at[a] == p && t.pos[a] == k
      && t.node[a].fd in t.node && t.node[a].bk in t.node
      && t.node[a].bk == After(r, k) && t.node[a].bk != NULL && (t.node[a].bk == a <==> |r| == 1)
      && (t.node[a].parent == NoParent <==> k > 0)
      && (t.node[a].parent != NoParent && |r| >= 2 ==> t.node[a].bk == Cut(r, k)[0])
      && a in CutWords(t.node, a) && t.node[a].bk in CutWords(t.node, a)
  {
    var a, r := t.rings[p][k], t.rings[p];
    RingDistinct(t.rings, t.at, t.pos, p);
    assert a in t.at && After(r, k) in t.at && Before(r, k) in t.at;
    CutWord(t.node, a, a);
    CutWord(t.node, a, t.node[a].bk);
  }

  // Clearing the slot of a leaf through its parent word is clearing it by position.
  lemma LeafSlot(t: Trie, p: Path)
    requires Ok(t) && p in t.rings
    ensures |t.rings[p]| > 0 && t.rings[p][0] in t.node
    ensures ParentRelinked(t.node, t.rings[p][0], NULL) == SlotCleared(t.node, t.rings, p)
  {
    hide Ok, Sized, Rooted, ParentRelinked, SlotCleared;
    OkParts(t);
    assert t.rings[p][0] in t.at;
    ParentSlot(t.node, t.rings, t.at, t.pos, p);
  }

  lemma ParentSlot(node: Nodes, rings: Rings, at: map<Addr, Path>, pos: map<Addr, nat>, p: Path)
    requires Indexed(rings, at, pos) && Closed(rings) && Shaped(node, rings, at, pos) && NULL !in at
    requires p in rings && rings[p][0] in node
    ensures ParentRelinked(node, rings[p][0], NULL) == SlotCleared(node, rings, p)
  {
    var x := rings[p][0];
    assert x in at && at[x] == p && pos[x] == 0;
    if !p.Root? {
      var a := rings[p.up][0];
      assert a in at && at[a] == p.up && pos[a] == 0;
      assert Depth(p) == Depth(p.up) + 1;
      NeighbourIs(node, rings, at, pos, p, a);
    }
  }

  lemma HolderSlot(t: Trie, q: Path)
    requires Ok(t) && q in t.rings && !q.Root? && q.up in t.rings
    ensures |t.rings[q.up]| > 0 && t.rings[q.up][0] in t.node
    ensures SlotCleared(t.node, t.rings, q) ==
            t.node[t.rings[q.up][0] := WithChild(t.node[t.rings[q.up][0]], q.Hi?, NULL)]
  {
    hide Sized, Rooted;
    assert t.rings[q.up][0] in t.at;
  }

  // ---- What unlinking does to the chunks held and to the words of others ----

  ghost predicate Gone(t: Trie, t': Trie, x: Addr) {
    && Ok(t') && Chunks(t'.node, t'.at) == Chunks(t.node, t.at) - {x}
    && Untouched(t.node, t'.node, t.at.Keys)
  }

  lemma ChunksRemoved(node: Nodes, node': Nodes, at: map<Addr, Path>, at': map<Addr, Path>, x: Addr)
    requires at'.Keys == at.Keys - {x}
    requires forall a :: a in at ==> a in node && a in node' && node'[a].size == node[a].size
    ensures Chunks(node', at') == Chunks(node, at) - {x}
  {
  }

  lemma CutUntouched(node: Nodes, rings: Rings, at: map<Addr, Path>, pos: map<Addr, nat>, p: Path, k: nat)
    requires Indexed(rings, at, pos) && RingLinks(node, rings, at, pos) && p in rings && k < |rings[p]|
    ensures rings[p][k] in node && Untouched(node, CutWords(node, rings[p][k]), at.Keys)
  {
    assert rings[p][k] in at && After(rings[p], k) in at && Before(rings[p], k) in at;
  }

  function Neighbours(node: Nodes, x: Addr): set<Addr>
    requires x in node
  {
    {node[x].left, node[x].right} - {NULL} + if node[x].parent.TreeNode? then {node[x].parent.node} else {}
  }

  lemma RelinkedOnly(node: Nodes, x: Addr, r: Addr)
    requires x in node
    ensures Untouched(node, Relinked(node, x, r), Neighbours(node, x) + {r})
  {
  }

  lemma RelinkedUntouched(node: Nodes, rings: Rings, at: map<Addr, Path>, pos: map<Addr, nat>, p: Path, r: Addr)
    requires Indexed(rings, at, pos) && Closed(rings) && Shaped(node, rings, at, pos) && p in rings
    ensures rings[p][0] in node && Untouched(node, Relinked(node, rings[p][0], r), at.Keys + {r})
  {
    hide Relinked;
    var x := rings[p][0];
    assert x in at && at[x] == p && pos[x] == 0;
    assert Neighbours(node, x) <= at.Keys by {
      if Lo(p) in rings {
        assert rings[Lo(p)][0] in at;
      }
      if Hi(p) in rings {
        assert rings[Hi(p)][0] in at;
      }
      if !p.Root? {
        assert rings[p.up][0] in at;
      }
    }
    RelinkedOnly(node, x, r);
  }

  lemma UntouchedTransitive(n1: Nodes, n2: Nodes, n3: Nodes, s: set<Addr>, s2: set<Addr>)
    requires Untouched(n1, n2, s) && Untouched(n2, n3, s2) && s2 <= s
    ensures Untouched(n1, n3, s)
  {
  }

  lemma SlotUntouched(node: Nodes, rings: Rings, at: map<Addr, Path>, pos: map<Addr, nat>, q: Path)
    requires Indexed(rings, at, pos) && Closed(rings) && q in rings
    ensures Untouched(node, SlotCleared(node, rings, q), at.Keys)
  {
    if !q.Root? {
      assert rings[q.up][0] in at;
    }
  }

  lemma ChainedGone(t: Trie, p: Path, k: nat)
    requires Ok(t) && p in t.rings && 0 < k < |t.rings[p]|
    ensures t.rings[p][k] in t.node && Gone(t, WithoutChained(t, p, k), t.rings[p][k])
  {
    hide Ok, OkBut, Untouched, Chunks, Fits, Sized, Shaped, RingLinks, RingLinksBut, Rooted, Closed, Indexed, CutWords;
    ChainedRemoved(t, p, k);
    OkParts(t);
    RingWords(t, p, k);
    CutUntouched(t.node, t.rings, t.at, t.pos, p, k);
    CutSameWords(t.node, t.rings, t.at, t.pos, p, k);
    ChunksRemoved(t.node, CutWords(t.node, t.rings[p][k]), t.at, CutAt(t.at, t.rings[p][k]), t.rings[p][k]);
  }

  lemma LeafGone(t: Trie, p: Path)
    requires Ok(t) && IsLeaf(t.rings, p) && |t.rings[p]| == 1
    ensures Gone(t, WithoutLeaf(t, p), t.rings[p][0])
  {
    hide Ok, OkBut, Untouched, Chunks, Fits, Sized, Shaped, RingLinks, RingLinksBut, Rooted, Closed, Indexed,
      SlotCleared;
    LeafRemoved(t, p);
    OkParts(t);
    SlotUntouched(t.node, t.rings, t.at, t.pos, p);
    SlotClearedWords(t.node, t.rings, t.at, t.pos, p);
    ChunksRemoved(t.node, SlotCleared(t.node, t.rings, p), t.at, Without(t.at, p), t.rings[p][0]);
  }

  lemma HeadGone(t: Trie, p: Path)
    requires Ok(t) && p in t.rings && |t.rings[p]| >= 2
    ensures t.rings[p][0] in t.node && Gone(t, WithoutHead(t, p), t.rings[p][0])
  {
    hide Ok, OkBut, Untouched, Chunks, CutWords, Relinked, SpareRing, Fits, Sized, Shaped, RingLinks, Indexed, Rooted,
      Closed;
    HeadRemoved(t, p);
    HeadCutFacts(t, p);
    OkParts(t);
    HeadWordsKept(t, p);
    var s := Cut(t.rings[p], 0);
    var node' := Relinked(CutWords(t.node, t.rings[p][0]), t.rings[p][0], s[0]);
    ChunksRemoved(t.node, node', t.at, CutAt(t.at, t.rings[p][0]), t.rings[p][0]);
  }

  lemma BinnedWords(t: Trie)
    requires Ok(t)
    ensures forall a :: a in t.at ==> a in t.node
  {
  }

  lemma HeadWordsKept(t: Trie, p: Path)
    requires Ok(t) && p in t.rings && |t.rings[p]| >= 2
    ensures var x, s := t.rings[p][0], Cut(t.rings[p], 0);
      && x in t.node && x in t.at && x in CutWords(t.node, x)
      && var node' := Relinked(CutWords(t.node, x), x, s[0]);
         && Untouched(t.node, node', t.at.Keys)
         && forall a :: a in t.at ==> a in t.node && a in node' && node'[a].size == t.node[a].size
  {
    hide Ok, OkBut, Untouched, CutWords, Relinked, SpareRing, Fits, Sized, Rooted, Shaped, RingLinks, Indexed, Closed;
    OkParts(t);
    BinnedWords(t);
    RingWords(t, p, 0);
    HeadCutFacts(t, p);
    CutOkBut(t, p, 0);
    CutSpareRing(t, p);
    var node1 := CutWords(t.node, t.rings[p][0]);
    var s := Cut(t.rings[p], 0);
    OkButParts(WithCutWords(t, p, 0), p);
    CutSameWords(t.node, t.rings, t.at, t.pos, p, 0);
    CutUntouched(t.node, t.rings, t.at, t.pos, p, 0);
    RelinkedSameWords(node1, t.rings, t.at, t.pos, p, s, CutAt(t.at, t.rings[p][0]), CutPos(t.at, t.pos, p, 0));
    RelinkedUntouched(node1, t.rings, t.at, t.pos, p, s[0]);
    UntouchedTransitive(t.node, node1, Relinked(node1, t.rings[p][0], s[0]), t.at.Keys, t.at.Keys + {s[0]});
  }

  lemma OkButParts(t: Trie, p: Path)
    requires OkBut(t, p)
    ensures Indexed(t.rings, t.at, t.pos) && Closed(t.rings) && p in t.rings && NULL !in t.at
    ensures Shaped(t.node, t.rings, t.at, t.pos) && Sized(t.node, t.at)
  {
  }

  lemma InnerGone(t: Trie, p: Path, q: Path)
    requires Ok(t) && IsLeaf(t.rings, q) && p in t.rings && p != q && Extends(q, p) && |t.rings[p]| == 1
    ensures |t.rings[q]| > 0 && t.rings[p][0] in t.node && Gone(t, WithoutInner(t, p, q), t.rings[p][0])
  {
    hide Ok, OkBut, Untouched, Chunks, Fits, Sized, Shaped, RingLinks, RingLinksBut, Rooted, Closed, Indexed,
      SlotCleared, Relinked, SpareRing;
    InnerRemoved(t, p, q);
    OkParts(t);
    InnerFacts(t, p, q);
    LeafRemoved(t, q);
    LeafSpareRing(t, p, q);
    var cut := WithoutLeaf(t, q);
    OkIsOkBut(cut, p);
    OkButParts(cut, p);
    var s := t.rings[q];
    var node' := Relinked(cut.node, t.rings[p][0], s[0]);
    assert s[0] in t.at;
    SlotClearedWords(t.node, t.rings, t.at, t.pos, q);
    SlotUntouched(t.node, t.rings, t.at, t.pos, q);
    RelinkedSameWords(cut.node, cut.rings, cut.at, cut.pos, p, s, Moved(t.at, p, q), t.pos);
    RelinkedUntouched(cut.node, cut.rings, cut.at, cut.pos, p, s[0]);
    UntouchedTransitive(t.node, cut.node, node', t.at.Keys, cut.at.Keys + {s[0]});
    ChunksRemoved(t.node, node', t.at, Moved(t.at, p, q), t.rings[p][0]);
  }

  lemma PlaceOf(t: Trie, x: Addr)
    requires Ok(t) && x in t.at
    ensures t.at[x] in t.rings && x in t.pos && t.pos[x] < |t.rings[t.at[x]]| && t.rings[t.at[x]][t.pos[x]] == x
    ensures |t.rings[t.at[x]]| == 1 ==> t.rings[t.at[x]] == [x]
  {
  }

  // A position in use has bits left: it holds the size of its chunks.
  lemma PathHolds(t: Trie, q: Path)
    requires Ok(t) && q in t.rings
    ensures Bits(q) >= 0 && Depth(q) <= RootBits(Bin(q)) && Bin(q) < NTREEBINS
  {
    var a := t.rings[q][0];
    assert a in t.at;
    DepthBound(q, t.node[a].size);
    BinRange(t.node[a].size);
  }

  class TreeBins {
    var treemap: bv32
    var treebins: seq<Addr>
    var node: Nodes
    ghost var rings: Rings
    ghost var at: map<Addr, Path>
    ghost var pos: map<Addr, nat>

    ghost function View(): Trie
      reads this
    {
      Trie(node, treebins, treemap, rings, at, pos)
    }

    ghost predicate Valid()
      reads this
    {
      Ok(View())
    }

    // The chunks held, with their sizes.
    ghost function Contents(): map<Addr, nat>
      reads this
    {
      Chunks(node, at)
    }

    constructor ()
      ensures Valid() && Contents() == map[]
    {
      treemap := 0;
      treebins := seq(NTREEBINS, _ => NULL);
      node := map[];
      rings, at, pos := map[], map[], map[];
      new;
      forall i: nat | i < NTREEBINS ensures !Marked(treemap, i) {
        ZeroHasNoBit(i);
      }
    }

    // The descent of insert_large_chunk, to the node of the same size or to the empty child slot for it, with the
    // number of nodes it goes past.
    method FindSlot(s: nat, i: nat) returns (t: Addr, right: bool, ghost p: Path, ghost steps: nat)
      requires Valid() && MIN_LARGE_SIZE <= s < TWO64 && i == BinOfSize(s)
      requires Root(i) in rings
      ensures p in rings && t == rings[p][0] && Bin(p) == i && steps <= RootBits(i)
      ensures node[t].size != s ==>
                && Child(p, right) !in rings && Holds(Child(p, right), s)
                && (forall a :: a in at ==> node[a].size != s)
    {
      hide OnlyBelow, Base, Width, MinSize;
      BinRange(s);
      t := treebins[i];
      right := false;
      p, steps := Root(i), 0;
      var k := ShiftLeft(s, LeftShift(i));
      RootHolds(s);
      BelowRoot(node, at, s);
      while node[t].size != s
        invariant p in rings && t == rings[p][0] && Bin(p) == i
        invariant k == Key(p, s) && Holds(p, s) && OnlyBelow(node, at, p, s) && steps == Depth(p)
        decreases Bits(p)
      {
        steps := steps + 1;
        DescendStep(node, at, p, s, t);
        right := TopBit(k) == 1;
        k := 2 * k % TWO64;
        var c := if right then node[t].right else node[t].left;
        if c == NULL {
          NoneBelow(node, rings, at, pos, Child(p, right), s);
          DepthBound(Child(p, right), s);
          return;
        }
        t := c;
        p := Child(p, right);
      }
      DepthBound(p, s);
    }

    // insert_large_chunk when the bin is empty: the chunk becomes the root.
    method LinkRoot(x: Addr, s: nat, i: nat)
      requires |treebins| == NTREEBINS && i < NTREEBINS
      requires x in node && node[x].size == s && node[x].index == i && node[x].left == node[x].right == NULL
      modifies this
      ensures View() == WithLeaf(old(View()), Root(i), x, s)
    {
      treemap := Mark(treemap, i);
      treebins := treebins[i := x];
      node := node[x := node[x].(parent := BinSlot(i), fd := x, bk := x)];
      rings, at, pos := rings[Root(i) := [x]], at[x := Root(i)], pos[x := 0];
    }

    // insert_large_chunk at an empty child slot.
    method LinkLeaf(x: Addr, s: nat, t: Addr, right: bool, ghost p: Path)
      requires t == Head(rings, p) && t in node && x != t
      requires x in node && node[x].size == s && node[x].index == Bin(p) && node[x].left == node[x].right == NULL
      modifies this
      ensures View() == WithLeaf(old(View()), Child(p, right), x, s)
    {
      ghost var c := Child(p, right);
      LeafLinkedSteps(node, rings, p, right, x, s, t);
      node := node[t := WithChild(node[t], right, x)];
      node := node[x := node[x].(parent := TreeNode(t), fd := x, bk := x)];
      rings, at, pos := rings[c := [x]], at[x := c], pos[x := 0];
    }

    // insert_large_chunk at a node of the same size.
    method LinkChained(x: Addr, s: nat, t: Addr, ghost p: Path)
      requires p in rings && |rings[p]| > 0 && t == rings[p][0] && x != NULL
      requires t in node && node[t].fd == rings[p][|rings[p]| - 1] && node[t].fd in node
      requires x in node && x != t && x != node[t].fd
      requires node[x].size == s && node[x].index == Bin(p) && node[x].left == node[x].right == NULL
      modifies this
      ensures View() == WithChained(old(View()), p, x, s)
    {
      var f := node[t].fd;
      node := node[t := node[t].(fd := x)];
      node := node[f := node[f].(bk := x)];
      node := node[x := node[x].(fd := f, bk := t, parent := NoParent)];
      rings, at, pos := rings[p := rings[p] + [x]], at[x := p], pos[x := |rings[p]|];
    }

    // insert_large_chunk. The bin gains the one chunk, and only words of free chunks are written; the descent
    // takes at most one step for each bit that sizes of the bin may differ in.
    method Insert(x: Addr, s: nat) returns (ghost steps: nat)
      requires Valid() && x != NULL && x !in Contents() && MIN_LARGE_SIZE <= s < TWO64
      modifies this
      ensures Valid() && Contents() == old(Contents())[x := s]
      ensures Untouched(old(node), node, old(Contents()).Keys + {x})
      ensures steps <= RootBits(BinOfSize(s))
    {
      hide Ok;
      KeysAreChunks(View());
      var i := BinFor(s);
      FreshWords(View(), x, Node(s, NULL, NULL, NULL, NULL, NoParent, i));
      node := node[x := Node(s, NULL, NULL, NULL, NULL, NoParent, i)];
      ghost var filled := node;
      if !Marked(treemap, i) {
        InsertRoot(x, s, i);
        steps := 0;
      } else {
        RootPresent(View(), i);
        steps := InsertBelow(x, s, i);
      }
      UntouchedTwice(old(node), filled, node, old(at).Keys, x);
    }

    method BinFor(s: nat) returns (i: nat)
      requires MIN_LARGE_SIZE <= s < TWO64
      ensures i < NTREEBINS && i == BinOfSize(s) && Fits(Root(i), s)
    {
      ComputeTreeIndexCorrect(s);
      RootHolds(s);
      i := ComputeTreeIndex(s);
    }

    method InsertRoot(x: Addr, s: nat, i: nat)
      requires Valid() && x != NULL && x !in at && i < NTREEBINS && Fits(Root(i), s) && !Marked(treemap, i)
      requires x in node && node[x] == Node(s, NULL, NULL, NULL, NULL, NoParent, i)
      modifies this
      ensures Valid() && Contents() == old(Contents())[x := s]
      ensures Untouched(old(node), node, old(at).Keys + {x})
    {
      EmptyBin(View(), i, s);
      LeafAdded(View(), Root(i), x, s);
      LinkRoot(x, s, i);
    }

    // The descent and the link of insert_large_chunk in a bin that is not empty.
    method InsertBelow(x: Addr, s: nat, i: nat) returns (ghost steps: nat)
      requires Valid() && x != NULL && x !in at && Fits(Root(i), s) && Root(i) in rings
      requires x in node && node[x] == Node(s, NULL, NULL, NULL, NULL, NoParent, i)
      modifies this
      ensures Valid() && Contents() == old(Contents())[x := s]
      ensures Untouched(old(node), node, old(at).Keys + {x})
      ensures steps <= RootBits(i)
    {
      var t, right;
      ghost var p;
      t, right, p, steps := FindSlot(s, i);
      if node[t].size != s {
        LeafAdded(View(), Child(p, right), x, s);
        LinkLeaf(x, s, t, right, p);
      } else {
        ChainAdded(View(), p, x, s);
        LinkChained(x, s, t, p);
      }
    }

    // The start of unlink_large_chunk for a chunk with same-sized neighbours: its ring closes around it.
    method CloseRing(x: Addr) returns (r: Addr)
      requires x in node && node[x].fd in node && node[x].bk in node
      modifies this`node
      ensures node == CutWords(old(node), x) && r == old(node[x].bk)
    {
      var f := node[x].fd;
      r := node[x].bk;
      node := node[f := node[f].(bk := r)];
      node := node[r := node[r].(fd := f)];
    }

    // The start of unlink_large_chunk for the last chunk of its size: its rightmost descendant that is a leaf, if any,
    // with the child slot that points to it.
    method RightmostLeaf(x: Addr, ghost p: Path)
      returns (r: Addr, holder: Addr, right: bool, ghost q: Path, ghost steps: nat)
      requires Valid() && p in rings && x == rings[p][0]
      ensures r == NULL <==> IsLeaf(rings, p)
      ensures r == NULL ==> q == p
      ensures r != NULL ==>
                && IsLeaf(rings, q) && q != p && Extends(q, p) && r == rings[q][0]
                && q == Child(q.up, right) && q.up in rings && holder == rings[q.up][0]
      ensures Depth(p) + steps <= RootBits(Bin(p))
    {
      hide Ok, Bits;
      PathHolds(View(), p);
      steps := 0;
      HeadWords(View(), p);
      holder, right, q := x, true, p;
      r := node[x].right;
      if r == NULL {
        right := false;
        r := node[x].left;
      }
      if r == NULL {
        return;
      }
      q := Child(p, right);
      PathHolds(View(), q);
      HeadWords(View(), q);
      while node[r].right != NULL || node[r].left != NULL
        invariant q in rings && q != p && Extends(q, p) && |rings[q]| > 0 && r == rings[q][0] && r in node && r != NULL
        invariant q == Child(q.up, right) && q.up in rings && |rings[q.up]| > 0 && holder == rings[q.up][0]
        invariant ChildWord(rings, Lo(q), node[r].left) && ChildWord(rings, Hi(q), node[r].right)
        invariant Bin(q) == Bin(p) && Depth(q) == Depth(p) + 1 + steps <= RootBits(Bin(q))
        decreases RootBits(Bin(q)) - Depth(q)
      {
        steps := steps + 1;
        holder := r;
        right := node[r].right != NULL;
        r := if right then node[r].right else node[r].left;
        PathHolds(View(), Child(q, right));
        HeadWords(View(), Child(q, right));
        q := Child(q, right);
      }
    }

    // The replacement takes over a child, if there is one.
    method TakeChild(r: Addr, c: Addr, right: bool)
      requires r in node && (c != NULL ==> c in node)
      modifies `node
      ensures node == ChildRelinked(old(node), r, c, right)
    {
      if c != NULL {
        node := node[r := WithChild(node[r], right, c)];
        node := node[c := node[c].(parent := TreeNode(r))];
      }
    }

    // The end of unlink_large_chunk for a tree node: its parent and children are linked to its replacement r, if any.
    method Relink(x: Addr, r: Addr, ghost p: Path)
      requires ReadyToRelink(node, treebins, p, x, r)
      modifies `node, `treebins, `treemap
      ensures node == if r != NULL then Relinked(old(node), x, r) else ParentRelinked(old(node), x, r)
      ensures treebins == if p.Root? then old(treebins)[p.bin := r] else old(treebins)
      ensures treemap == if p.Root? && r == NULL then Clear(old(treemap), p.bin) else old(treemap)
    {
      ChildKeeps();
      hide ChildRelinked;
      var nx := node[x];
      var i := nx.index;
      if x == treebins[i] {
        treebins := treebins[i := r];
        if r == NULL {
          treemap := Clear(treemap, i);
        }
      } else {
        var t := nx.parent.node;
        if node[t].left == x {
          node := node[t := node[t].(left := r)];
        } else {
          node := node[t := node[t].(right := r)];
        }
      }
      if r != NULL {
        node := node[r := node[r].(parent := nx.parent)];
        TakeChild(r, node[x].left, false);
        TakeChild(r, node[x].right, true);
      }
    }

    // unlink_large_chunk of a chunk that has others of its size.
    method UnlinkShared(x: Addr, ghost p: Path, ghost k: nat)
      requires Valid() && p in rings && k < |rings[p]| && x == rings[p][k] && |rings[p]| >= 2
      modifies this
      ensures x in old(node)
      ensures k > 0 ==> View() == WithoutChained(old(View()), p, k)
      ensures k == 0 ==> View() == WithoutHead(old(View()), p)
    {
      hide Ok, OkBut, CutWords, Relinked;
      RingWords(View(), p, k);
      CutOkBut(View(), p, k);
      var isHead := node[x].parent != NoParent;
      var r := CloseRing(x);
      if isHead {
        RelinkReady(View(), p, r);
        Relink(x, r, p);
        rings := rings[p := Cut(rings[p], k)];
      } else {
        rings := rings[p := Cut(rings[p], k)];
      }
      at, pos := CutAt(at, x), CutPos(at, pos, p, k);
    }

    // unlink_large_chunk of the last chunk of its size: a leaf goes, an inner node is replaced by its rightmost leaf.
    method UnlinkLast(x: Addr, ghost p: Path)
      requires Valid() && p in rings && rings[p] == [x]
      modifies this
      ensures x in old(node)
      ensures IsLeaf(old(rings), p) ==> View() == WithoutLeaf(old(View()), p)
      ensures !IsLeaf(old(rings), p) ==>
                exists q :: && IsLeaf(old(rings), q) && q != p && Extends(q, p) && |old(rings)[q]| > 0
                            && View() == WithoutInner(old(View()), p, q)
    {
      hide Ok, OkBut, Relinked, ParentRelinked, SlotCleared, Extends;
      var r, holder, right;
      ghost var q;
      ghost var steps;
      r, holder, right, q, steps := RightmostLeaf(x, p);
      OkIsOkBut(View(), p);
      ghost var t := View();
      RingWords(t, p, 0);
      if r == NULL {
        RelinkReady(t, p, r);
        LeafSlot(t, p);
        Relink(x, r, p);
        rings, at := rings - {p}, Without(at, p);
      } else {
        InnerFacts(t, p, q);
        HolderSlot(t, q);
        LeafRemoved(t, q);
        OkIsOkBut(WithoutLeaf(t, q), p);
        RelinkReady(WithoutLeaf(t, q), p, r);
        node := node[holder := WithChild(node[holder], right, NULL)];
        Relink(x, r, p);
        rings, at := (rings - {q})[p := rings[q]], Moved(at, p, q);
      }
    }

    // unlink_large_chunk: the bin loses the one chunk, and only words of free chunks are written.
    method Unlink(x: Addr)
      requires Valid() && x in Contents()
      modifies this
      ensures Valid() && Contents() == old(Contents()) - {x}
      ensures Untouched(old(node), node, old(Contents()).Keys)
    {
      hide Ok, Chunks, Untouched;
      KeysAreChunks(View());
      PlaceOf(View(), x);
      ghost var t, p, k := View(), at[x], pos[x];
      RingWords(t, p, k);
      if node[x].bk != x {
        UnlinkShared(x, p, k);
        if k > 0 {
          ChainedGone(t, p, k);
        } else {
          HeadGone(t, p);
        }
      } else {
        UnlinkLast(x, p);
        if IsLeaf(t.rings, p) {
          LeafGone(t, p);
        } else {
          ghost var q :| IsLeaf(t.rings, q) && q != p && Extends(q, p) && |t.rings[q]| > 0
              && View() == WithoutInner(t, p, q);
          InnerGone(t, p, q);
        }
      }
    }
  }

  // With no bin marked there are no chunks.
  lemma NoneMarked(t: Trie)
    requires Ok(t) && t.treemap == 0
    ensures Chunks(t.node, t.at) == map[]
  {
    hide Marked;
    forall a ensures a !in t.at {
      if a in t.at {
        ExtendsRoot(t.at[a]);
        ClosedUp(t.rings, t.at[a], Root(Bin(t.at[a])));
        ZeroHasNoBit(Bin(t.at[a]));
      }
    }
  }
}
