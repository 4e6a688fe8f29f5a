// The small bins: 32 circular doubly-linked lists of free chunks of one size
// each, headed by the bin itself, with a bit map of the bins in use. The
// links of a header mean nothing while the bit of its bin is clear.
module SmallBins {
  import opened BinMap

  type Addr = nat
  const NSMALLBINS: nat := 32

  // small_index, small_index2size, is_small
  function SmallIndex(s: nat): nat {
    s / 8
  }

  function IndexSize(i: nat): nat {
    8 * i
  }

  predicate IsSmall(s: nat) {
    SmallIndex(s) < NSMALLBINS
  }

  // What a link word may point to: a chunk, or a bin header seen as a chunk.
  datatype Ref = Header(bin: nat) | Chunk(addr: Addr)

  type Links = map<Ref, Ref>

  // The ring of a bin: the header, the chunks in fd order, and the header again.
  function Slot(i: nat, l: seq<Addr>, k: nat): Ref {
    if 0 < k <= |l| then Chunk(l[k - 1]) else Header(i)
  }

  // The words of the small bins together with the ghost view of them.
  datatype Bins = Bins(smallmap: bv32, fd: Links, bk: Links,
                       lists: seq<seq<Addr>>, bin: map<Addr, nat>, pos: map<Addr, nat>)

  ghost predicate Indexed(lists: seq<seq<Addr>>, bin: map<Addr, nat>, pos: map<Addr, nat>) {
    && |lists| == NSMALLBINS
    && (forall i, k :: 0 <= i < NSMALLBINS && 0 <= k < |lists[i]| ==>
          && lists[i][k] in bin && lists[i][k] in pos && bin[lists[i][k]] == i && pos[lists[i][k]] == k)
    && (forall a :: a in bin ==>
        bin[a] < NSMALLBINS && a in pos && pos[a] < |lists[bin[a]]| && lists[bin[a]][pos[a]] == a)
  }

  ghost predicate RingAt(fd: Links, bk: Links, i: nat, l: seq<Addr>) {
    forall k: nat {:trigger Slot(i, l, k)} :: k <= |l| ==>
      && Slot(i, l, k) in fd && fd[Slot(i, l, k)] == Slot(i, l, k + 1)
      && Slot(i, l, k + 1) in bk && bk[Slot(i, l, k + 1)] == Slot(i, l, k)
  }

  ghost predicate Linked(fd: Links, bk: Links, lists: seq<seq<Addr>>) {
    forall i :: 0 <= i < |lists| ==> |lists[i]| > 0 ==> RingAt(fd, bk, i, lists[i])
  }

  ghost predicate Mapped(smallmap: bv32, lists: seq<seq<Addr>>) {
    |lists| == NSMALLBINS && forall i: nat :: i < NSMALLBINS ==> (Marked(smallmap, i) <==> |lists[i]| > 0)
  }

  ghost predicate Ok(b: Bins) {
    match b
    case Bins(smallmap, fd, bk, lists, bin, pos) =>
      Indexed(lists, bin, pos) && Linked(fd, bk, lists) && Mapped(smallmap, lists)
  }

  ghost function Sizes(bin: map<Addr, nat>): map<Addr, nat> {
    map a | a in bin :: IndexSize(bin[a])
  }

  // Links of chunks outside a set are left alone.
  ghost predicate Untouched(l: Links, l': Links, s: set<Addr>) {
    forall a :: a !in s ==> (Chunk(a) in l <==> Chunk(a) in l') && (Chunk(a) in l ==> l'[Chunk(a)] == l[Chunk(a)])
  }

  // ---- Insertion at the front of a list ----

  lemma PushIndexed(lists: seq<seq<Addr>>, bin: map<Addr, nat>, pos: map<Addr, nat>, i: nat, x: Addr)
    requires Indexed(lists, bin, pos) && i < NSMALLBINS && x !in bin
    ensures Indexed(lists[i := [x] + lists[i]], bin[x := i], Pushed(bin, pos, i)[x := 0])
  {
    var lists', bin', pos' := lists[i := [x] + lists[i]], bin[x := i], Pushed(bin, pos, i)[x := 0];
    forall j, k | 0 <= j < NSMALLBINS && 0 <= k < |lists'[j]|
      ensures lists'[j][k] in bin' && lists'[j][k] in pos' && bin'[lists'[j][k]] == j && pos'[lists'[j][k]] == k
    {
      if j == i && k > 0 {
        assert lists'[i][k] == lists[i][k - 1];
      }
    }
  }

  function Pushed(bin: map<Addr, nat>, pos: map<Addr, nat>, i: nat): map<Addr, nat> {
    map a | a in pos :: if a in bin && bin[a] == i then pos[a] + 1 else pos[a]
  }

  // The links after P is put between the header of bin i and its first chunk f (or the header, when the bin is empty).
  function PushedFd(fd: Links, i: nat, f: Ref, x: Addr): Links {
    fd[Header(i) := Chunk(x)][Chunk(x) := f]
  }

  function PushedBk(bk: Links, i: nat, f: Ref, x: Addr): Links {
    bk[f := Chunk(x)][Chunk(x) := Header(i)]
  }

  lemma PushRing(fd: Links, bk: Links, i: nat, l: seq<Addr>, x: Addr)
    requires x !in l && forall j, k :: 0 <= j < k < |l| ==> l[j] != l[k]
    requires |l| > 0 ==> RingAt(fd, bk, i, l)
    ensures RingAt(PushedFd(fd, i, Slot(i, l, 1), x), PushedBk(bk, i, Slot(i, l, 1), x), i, [x] + l)
  {
    var l' := [x] + l;
    forall k: nat {:trigger Slot(i, l', k)} | k <= |l'|
      ensures var fd', bk' := PushedFd(fd, i, Slot(i, l, 1), x), PushedBk(bk, i, Slot(i, l, 1), x);
        && Slot(i, l', k) in fd' && fd'[Slot(i, l', k)] == Slot(i, l', k + 1)
        && Slot(i, l', k + 1) in bk' && bk'[Slot(i, l', k + 1)] == Slot(i, l', k)
    {
      if k >= 2 {
        assert Slot(i, l', k) == Slot(i, l, k - 1) && Slot(i, l', k + 1) == Slot(i, l, k);
      }
    }
  }

  lemma PushOther(fd: Links, bk: Links, i: nat, l: seq<Addr>, x: Addr, j: nat, l2: seq<Addr>)
    requires i != j && x !in l2 && RingAt(fd, bk, j, l2) && |l2| > 0
    requires |l| > 0 ==> l[0] !in l2
    ensures RingAt(PushedFd(fd, i, Slot(i, l, 1), x), PushedBk(bk, i, Slot(i, l, 1), x), j, l2)
  {
    var f := Slot(i, l, 1);
    forall k: nat {:trigger Slot(j, l2, k)} | k <= |l2|
      ensures Slot(j, l2, k) in fd && fd[Slot(j, l2, k)] == Slot(j, l2, k + 1) && Slot(j, l2, k + 1) in bk
      ensures bk[Slot(j, l2, k + 1)] == Slot(j, l2, k) && Slot(j, l2, k + 1) != f
      ensures Slot(j, l2, k) !in {Header(i), Chunk(x)} && Slot(j, l2, k + 1) !in {Header(i), Chunk(x)}
    {
    }
  }

  lemma Distinct(lists: seq<seq<Addr>>, bin: map<Addr, nat>, pos: map<Addr, nat>, i: nat)
    requires Indexed(lists, bin, pos) && i < NSMALLBINS
    ensures forall j, k :: 0 <= j < k < |lists[i]| ==> lists[i][j] != lists[i][k]
  {
    forall j, k | 0 <= j < k < |lists[i]| ensures lists[i][j] != lists[i][k] {
      assert pos[lists[i][j]] == j && pos[lists[i][k]] == k;
    }
  }

  ghost function WithChunk(b: Bins, i: nat, x: Addr): Bins
    requires i < |b.lists|
  {
    Bins(if i < 32 && |b.lists[i]| == 0 then Mark(b.smallmap, i) else b.smallmap,
         PushedFd(b.fd, i, Slot(i, b.lists[i], 1), x), PushedBk(b.bk, i, Slot(i, b.lists[i], 1), x),
         b.lists[i := [x] + b.lists[i]], b.bin[x := i], Pushed(b.bin, b.pos, i)[x := 0])
  }

  lemma PushLinked(fd: Links, bk: Links, lists: seq<seq<Addr>>, bin: map<Addr, nat>, pos: map<Addr, nat>,
      i: nat, x: Addr)
    requires Indexed(lists, bin, pos) && Linked(fd, bk, lists) && i < NSMALLBINS && x !in bin
    ensures Linked(PushedFd(fd, i, Slot(i, lists[i], 1), x), PushedBk(bk, i, Slot(i, lists[i], 1), x),
                   lists[i := [x] + lists[i]])
  {
    var l, lists' := lists[i], lists[i := [x] + lists[i]];
    var fd', bk' := PushedFd(fd, i, Slot(i, l, 1), x), PushedBk(bk, i, Slot(i, l, 1), x);
    hide RingAt, PushedFd, PushedBk;
    Distinct(lists, bin, pos, i);
    PushRing(fd, bk, i, l, x);
    forall j | 0 <= j < |lists'| && |lists'[j]| > 0 ensures RingAt(fd', bk', j, lists'[j]) {
      if j != i {
        assert |l| > 0 ==> bin[l[0]] == i;
        PushOther(fd, bk, i, l, x, j, lists[j]);
      }
    }
  }

  lemma ChunkAdded(b: Bins, i: nat, x: Addr)
    requires Ok(b) && i < NSMALLBINS && x !in b.bin
    ensures Ok(WithChunk(b, i, x)) && Sizes(WithChunk(b, i, x).bin) == Sizes(b.bin)[x := IndexSize(i)]
    ensures Untouched(b.fd, WithChunk(b, i, x).fd, b.bin.Keys + {x})
    ensures Untouched(b.bk, WithChunk(b, i, x).bk, b.bin.Keys + {x})
  {
    hide Indexed, Linked, Mapped, PushedFd, PushedBk;
    var Bins(smallmap, fd, bk, lists, bin, pos) := b;
    PushIndexed(lists, bin, pos, i, x);
    PushLinked(fd, bk, lists, bin, pos, i, x);
    PushMapped(smallmap, lists, i, x);
    FirstBinned(lists, bin, pos, i);
    PushUntouched(fd, bk, i, Slot(i, lists[i], 1), bin.Keys, x);
  }

  lemma FirstBinned(lists: seq<seq<Addr>>, bin: map<Addr, nat>, pos: map<Addr, nat>, i: nat)
    requires Indexed(lists, bin, pos) && i < NSMALLBINS
    ensures |lists| == NSMALLBINS
    ensures Slot(i, lists[i], 1).Chunk? ==> Slot(i, lists[i], 1).addr in bin
  {
  }

  lemma PushUntouched(fd: Links, bk: Links, i: nat, f: Ref, s: set<Addr>, x: Addr)
    requires f.Chunk? ==> f.addr in s
    ensures Untouched(fd, PushedFd(fd, i, f, x), s + {x}) && Untouched(bk, PushedBk(bk, i, f, x), s + {x})
  {
  }

  lemma PushMapped(smallmap: bv32, lists: seq<seq<Addr>>, i: nat, x: Addr)
    requires Mapped(smallmap, lists) && i < NSMALLBINS
    ensures Mapped(if |lists[i]| == 0 then Mark(smallmap, i) else smallmap, lists[i := [x] + lists[i]])
  {
    hide Marked, Mark;
    MarkAll(smallmap, i);
  }

  // ---- Unlinking the k-th chunk of a list ----

  function Cut(l: seq<Addr>, k: nat): seq<Addr>
    requires k < |l|
  {
    l[..k] + l[k + 1..]
  }

  function Shifted(bin: map<Addr, nat>, pos: map<Addr, nat>, i: nat, k: nat): map<Addr, nat> {
    map a | a in pos :: if a in bin && bin[a] == i && pos[a] > k then pos[a] - 1 else pos[a]
  }

  lemma CutIndexed(lists: seq<seq<Addr>>, bin: map<Addr, nat>, pos: map<Addr, nat>, i: nat, k: nat)
    requires Indexed(lists, bin, pos) && i < NSMALLBINS && k < |lists[i]|
    ensures Indexed(lists[i := Cut(lists[i], k)], bin - {lists[i][k]}, Shifted(bin, pos, i, k))
  {
    var x := lists[i][k];
    var lists', bin', pos' := lists[i := Cut(lists[i], k)], bin - {x}, Shifted(bin, pos, i, k);
    forall j, h | 0 <= j < NSMALLBINS && 0 <= h < |lists'[j]|
      ensures lists'[j][h] in bin' && lists'[j][h] in pos' && bin'[lists'[j][h]] == j && pos'[lists'[j][h]] == h
    {
      if j == i {
        assert lists'[i][h] == lists[i][if h < k then h else h + 1];
      } else {
        assert lists[j][h] in bin;
      }
    }
    forall a | a in bin' ensures a in pos' && pos'[a] < |lists'[bin'[a]]| && lists'[bin'[a]][pos'[a]] == a {
      if bin[a] == i {
        assert lists'[i][if pos[a] < k then pos[a] else pos[a] - 1] == a;
      }
    }
  }

  lemma CutSlots(i: nat, l: seq<Addr>, k: nat, j: nat)
    requires k < |l| && j <= |l|
    ensures Slot(i, Cut(l, k), j) == if j <= k then Slot(i, l, j) else Slot(i, l, j + 1)
  {
  }

  lemma SlotsDiffer(i: nat, l: seq<Addr>, j: nat, k: nat)
    requires forall j, k :: 0 <= j < k < |l| ==> l[j] != l[k]
    requires j <= |l| && k <= |l| && j != k
    ensures Slot(i, l, j) != Slot(i, l, k)
  {
  }

  lemma CutRing(fd: Links, bk: Links, i: nat, l: seq<Addr>, k: nat)
    requires forall j, k :: 0 <= j < k < |l| ==> l[j] != l[k]
    requires k < |l| && |l| >= 2 && RingAt(fd, bk, i, l)
    ensures RingAt(fd[Slot(i, l, k) := Slot(i, l, k + 2)], bk[Slot(i, l, k + 2) := Slot(i, l, k)], i, Cut(l, k))
  {
    var l' := Cut(l, k);
    var fd', bk' := fd[Slot(i, l, k) := Slot(i, l, k + 2)], bk[Slot(i, l, k + 2) := Slot(i, l, k)];
    forall j: nat {:trigger Slot(i, l', j)} | j <= |l'|
      ensures Slot(i, l', j) in fd' && fd'[Slot(i, l', j)] == Slot(i, l', j + 1)
      ensures Slot(i, l', j + 1) in bk' && bk'[Slot(i, l', j + 1)] == Slot(i, l', j)
    {
      CutSlots(i, l, k, j);
      CutSlots(i, l, k, j + 1);
      var m := if j <= k then j else j + 1;
      if j != k {
        SlotsDiffer(i, l, m, k);
        assert Slot(i, l', j) == Slot(i, l, m) && Slot(i, l', j + 1) == Slot(i, l, m + 1);
        LastSlots(i, l, m, k);
      }
    }
  }

  lemma LastSlots(i: nat, l: seq<Addr>, m: nat, k: nat)
    requires forall j, k :: 0 <= j < k < |l| ==> l[j] != l[k]
    requires m <= |l| && k < |l| && |l| >= 2 && m != k && m != k + 1
    ensures Slot(i, l, m + 1) != Slot(i, l, k + 2)
  {
    if m < |l| && k + 2 <= |l| {
      SlotsDiffer(i, l, m + 1, k + 2);
    }
  }

  lemma CutOther(fd: Links, bk: Links, i: nat, l: seq<Addr>, k: nat, j: nat, l2: seq<Addr>)
    requires i != j && k < |l| && RingAt(fd, bk, j, l2) && |l2| > 0 && forall a :: a in l ==> a !in l2
    ensures RingAt(fd[Slot(i, l, k) := Slot(i, l, k + 2)], bk[Slot(i, l, k + 2) := Slot(i, l, k)], j, l2)
  {
    assert k > 0 ==> l[k - 1] in l;
    assert k + 1 < |l| ==> l[k + 1] in l;
  }

  lemma CutLinked(fd: Links, bk: Links, lists: seq<seq<Addr>>, bin: map<Addr, nat>, pos: map<Addr, nat>, i: nat, k: nat)
    requires Indexed(lists, bin, pos) && Linked(fd, bk, lists) && i < NSMALLBINS && k < |lists[i]| && |lists[i]| >= 2
    ensures var l := lists[i];
      Linked(fd[Slot(i, l, k) := Slot(i, l, k + 2)], bk[Slot(i, l, k + 2) := Slot(i, l, k)], lists[i := Cut(l, k)])
  {
    var l, lists' := lists[i], lists[i := Cut(lists[i], k)];
    var fd', bk' := fd[Slot(i, l, k) := Slot(i, l, k + 2)], bk[Slot(i, l, k + 2) := Slot(i, l, k)];
    hide RingAt;
    Distinct(lists, bin, pos, i);
    CutRing(fd, bk, i, l, k);
    forall j | 0 <= j < |lists'| && |lists'[j]| > 0 ensures RingAt(fd', bk', j, lists'[j]) {
      if j != i {
        assert forall a :: a in l ==> a in bin && bin[a] == i;
        assert forall a :: a in lists[j] ==> a in bin && bin[a] == j;
        CutOther(fd, bk, i, l, k, j, lists[j]);
      }
    }
  }

  lemma CutMapped(smallmap: bv32, lists: seq<seq<Addr>>, i: nat, k: nat)
    requires Mapped(smallmap, lists) && i < NSMALLBINS && k < |lists[i]|
    ensures Mapped(if |lists[i]| == 1 then Clear(smallmap, i) else smallmap, lists[i := Cut(lists[i], k)])
  {
    hide Marked, Clear;
    ClearAll(smallmap, i);
  }

  ghost function WithoutChunk(b: Bins, i: nat, k: nat): Bins
    requires i < |b.lists| && k < |b.lists[i]|
  {
    var l := b.lists[i];
    Bins(if |l| == 1 && i < 32 then Clear(b.smallmap, i) else b.smallmap,
         if |l| == 1 then b.fd else b.fd[Slot(i, l, k) := Slot(i, l, k + 2)],
         if |l| == 1 then b.bk else b.bk[Slot(i, l, k + 2) := Slot(i, l, k)],
         b.lists[i := Cut(l, k)], b.bin - {l[k]}, Shifted(b.bin, b.pos, i, k))
  }

  lemma ChunkRemoved(b: Bins, i: nat, k: nat)
    requires Ok(b) && i < NSMALLBINS && k < |b.lists[i]|
    ensures Ok(WithoutChunk(b, i, k)) && Sizes(WithoutChunk(b, i, k).bin) == Sizes(b.bin) - {b.lists[i][k]}
    ensures Untouched(b.fd, WithoutChunk(b, i, k).fd, b.bin.Keys)
    ensures Untouched(b.bk, WithoutChunk(b, i, k).bk, b.bin.Keys)
  {
    hide Indexed, Linked, Mapped;
    var Bins(smallmap, fd, bk, lists, bin, pos) := b;
    Slots(lists, bin, pos, i, k);
    CutIndexed(lists, bin, pos, i, k);
    CutMapped(smallmap, lists, i, k);
    if |lists[i]| >= 2 {
      CutLinked(fd, bk, lists, bin, pos, i, k);
    } else {
      LastLinked(fd, bk, lists, i);
    }
  }

  // With the last chunk of a bin its links lose their meaning, the stale ones of the header too.
  lemma LastLinked(fd: Links, bk: Links, lists: seq<seq<Addr>>, i: nat)
    requires Linked(fd, bk, lists) && i < |lists| && |lists[i]| == 1
    ensures Linked(fd, bk, lists[i := Cut(lists[i], 0)])
  {
  }

  lemma Slots(lists: seq<seq<Addr>>, bin: map<Addr, nat>, pos: map<Addr, nat>, i: nat, k: nat)
    requires Indexed(lists, bin, pos) && i < NSMALLBINS && k < |lists[i]|
    ensures |lists| == NSMALLBINS
    ensures Slot(i, lists[i], k).Chunk? ==> Slot(i, lists[i], k).addr in bin
    ensures Slot(i, lists[i], k + 2).Chunk? ==> Slot(i, lists[i], k + 2).addr in bin
  {
  }

  class SmallBins {
    var smallmap: bv32
    var fd: Links
    var bk: Links
    ghost var lists: seq<seq<Addr>>
    ghost var bin: map<Addr, nat>
    ghost var pos: map<Addr, nat>

    ghost function View(): Bins
      reads this
    {
      Bins(smallmap, fd, bk, lists, bin, pos)
    }

    ghost predicate Valid()
      reads this
    {
      Ok(View())
    }

    // The chunks held, with their sizes.
    ghost function Contents(): map<Addr, nat>
      reads this
    {
      Sizes(bin)
    }

    // init_bins
    constructor ()
      ensures Valid() && Contents() == map[]
    {
      smallmap := 0;
      fd := map i: nat | 0 <= i < NSMALLBINS :: Header(i) := Header(i);
      bk := map i: nat | 0 <= i < NSMALLBINS :: Header(i) := Header(i);
      lists := seq(NSMALLBINS, _ => []);
      bin, pos := map[], map[];
      new;
      forall i: nat | i < NSMALLBINS ensures !Marked(smallmap, i) {
        ZeroHasNoBit(i);
      }
    }

    // insert_small_chunk
    method Insert(x: Addr, s: nat)
      requires Valid() && x !in Contents() && IsSmall(s) && s % 8 == 0
      modifies this
      ensures Valid() && Contents() == old(Contents())[x := s]
      ensures SmallIndex(s) < |old(lists)| && lists == old(lists)[SmallIndex(s) := [x] + old(lists)[SmallIndex(s)]]
      ensures Untouched(old(fd), fd, old(Contents()).Keys + {x})
      ensures Untouched(old(bk), bk, old(Contents()).Keys + {x})
    {
      hide Ok, Marked, Mark, Sizes;
      BinsFacts(View());
      var i := SmallIndex(s);
      FirstLink(View(), i);
      ChunkAdded(View(), i, x);
      var b := Header(i);
      var f := b;
      if !Marked(smallmap, i) {
        smallmap := Mark(smallmap, i);
      } else {
        f := fd[b];
      }
      fd := fd[b := Chunk(x)];
      bk := bk[f := Chunk(x)];
      fd := fd[Chunk(x) := f];
      bk := bk[Chunk(x) := b];
      lists, bin, pos := lists[i := [x] + lists[i]], bin[x := i], Pushed(bin, pos, i)[x := 0];
    }

    // unlink_small_chunk
    method Unlink(x: Addr, s: nat)
      requires Valid() && x in Contents() && Contents()[x] == s
      modifies this
      ensures Valid() && Contents() == old(Contents()) - {x}
      ensures Untouched(old(fd), fd, old(Contents()).Keys)
      ensures Untouched(old(bk), bk, old(Contents()).Keys)
    {
      hide Ok, Clear, Sizes, Indexed, Slot;
      ChunkPlace(View(), x);
      ghost var k := pos[x];
      var i := SmallIndex(s);
      ChunkRemoved(View(), i, k);
      ChunkLinks(View(), i, k);
      var f := fd[Chunk(x)];
      var b := bk[Chunk(x)];
      if f == b {
        smallmap := Clear(smallmap, i);
      } else {
        bk := bk[f := b];
        fd := fd[b := f];
      }
      lists, bin, pos := lists[i := Cut(lists[i], k)], bin - {x}, Shifted(bin, pos, i, k);
    }

    // The first chunk of a bin in use, the last that was put in, as the malloc path reads it, and
    // unlink_first_small_chunk of it.
    method UnlinkFirst(i: nat) returns (p: Addr)
      requires Valid() && i < NSMALLBINS && Marked(smallmap, i)
      modifies this
      ensures Valid() && p in old(Contents()) && old(Contents())[p] == IndexSize(i)
      ensures Contents() == old(Contents()) - {p}
      ensures i < |old(lists)| && |old(lists)[i]| > 0 && p == old(lists)[i][0]
      ensures lists == old(lists)[i := old(lists)[i][1..]]
      ensures Untouched(old(fd), fd, old(Contents()).Keys)
      ensures Untouched(old(bk), bk, old(Contents()).Keys)
    {
      hide Ok, Clear, Sizes, Indexed, Slot, Marked, Untouched;
      FirstPlace(View(), i);
      var b := Header(i);
      p := fd[b].addr;
      ChunkRemoved(View(), i, 0);
      ChunkLinks(View(), i, 0);
      var f := fd[Chunk(p)];
      if f == b {
        smallmap := Clear(smallmap, i);
      } else {
        fd := fd[b := f];
        bk := bk[f := b];
      }
      assert Cut(lists[i], 0) == lists[i][1..];
      lists, bin, pos := lists[i := Cut(lists[i], 0)], bin - {p}, Shifted(bin, pos, i, 0);
    }
  }

  lemma BinsFacts(b: Bins)
    requires Ok(b)
    ensures |b.lists| == NSMALLBINS && Sizes(b.bin).Keys == b.bin.Keys && Indexed(b.lists, b.bin, b.pos)
  {
  }

  lemma FirstLink(b: Bins, i: nat)
    requires Ok(b) && i < NSMALLBINS
    ensures Marked(b.smallmap, i) <==> |b.lists[i]| > 0
    ensures Marked(b.smallmap, i) ==> Header(i) in b.fd && b.fd[Header(i)] == Slot(i, b.lists[i], 1)
  {
    if |b.lists[i]| > 0 {
      assert Slot(i, b.lists[i], 0) == Header(i);
    }
  }

  lemma ChunkPlace(b: Bins, x: Addr)
    requires Ok(b) && x in Sizes(b.bin)
    ensures x in b.bin && x in b.pos && b.bin[x] < NSMALLBINS == |b.lists| && SmallIndex(Sizes(b.bin)[x]) == b.bin[x]
    ensures b.pos[x] < |b.lists[b.bin[x]]| && b.lists[b.bin[x]][b.pos[x]] == x
    ensures Sizes(b.bin).Keys == b.bin.Keys
  {
  }

  lemma FirstPlace(b: Bins, i: nat)
    requires Ok(b) && i < NSMALLBINS && Marked(b.smallmap, i)
    ensures |b.lists| == NSMALLBINS && |b.lists[i]| > 0
    ensures Header(i) in b.fd && b.fd[Header(i)] == Chunk(b.lists[i][0])
    ensures b.lists[i][0] in Sizes(b.bin) && Sizes(b.bin)[b.lists[i][0]] == IndexSize(i)
    ensures Sizes(b.bin).Keys == b.bin.Keys && Slot(i, b.lists[i], 0) == Header(i)
  {
    assert Slot(i, b.lists[i], 0) == Header(i);
    assert b.lists[i][0] in b.bin;
  }

  // The neighbours of the k-th chunk; they are the same, the header, exactly when it is the only one.
  lemma ChunkLinks(b: Bins, i: nat, k: nat)
    requires Ok(b) && i < |b.lists| == NSMALLBINS && k < |b.lists[i]|
    ensures var l := b.lists[i];
      && Chunk(l[k]) in b.fd && b.fd[Chunk(l[k])] == Slot(i, l, k + 2)
      && Chunk(l[k]) in b.bk && b.bk[Chunk(l[k])] == Slot(i, l, k)
      && (Slot(i, l, k + 2) == Slot(i, l, k) <==> |l| == 1)
  {
    var l := b.lists[i];
    Distinct(b.lists, b.bin, b.pos, i);
    assert Slot(i, l, k + 1) == Chunk(l[k]);
    assert Slot(i, l, k) in b.fd;
  }

  // When no bin from i to f is marked, every chunk not smaller than those of bin i is not smaller than those of bin f.
  lemma NoneBetween(b: Bins, i: nat, f: nat)
    requires Ok(b) && forall j: nat :: i <= j < f && j < NSMALLBINS ==> !Marked(b.smallmap, j)
    ensures forall a :: a in Sizes(b.bin) && IndexSize(i) <= Sizes(b.bin)[a] ==> IndexSize(f) <= Sizes(b.bin)[a]
  {
    hide Marked;
    forall a | a in b.bin && i <= b.bin[a] ensures f <= b.bin[a] {
      assert |b.lists[b.bin[a]]| > 0;
    }
  }

  // When no bin from i on is marked, every chunk is smaller than those of bin i.
  lemma NoneFrom(b: Bins, i: nat)
    requires Ok(b) && forall j: nat :: i <= j < NSMALLBINS ==> !Marked(b.smallmap, j)
    ensures forall a :: a in Sizes(b.bin) ==> Sizes(b.bin)[a] < IndexSize(i)
  {
    hide Marked;
    forall a | a in b.bin ensures b.bin[a] < i {
      assert |b.lists[b.bin[a]]| > 0;
    }
  }
}
