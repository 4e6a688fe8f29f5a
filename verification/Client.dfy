// A program that uses a space, against the simplest account of its blocks: a
// map from each block to the bytes the program knows are in it. Whatever the
// program does, in whatever order, every block holds what the map says.
module Client {
  import opened Tiling
  import opened HeapState
  import opened HeapDirect
  import opened Requests
  import opened Footprint
  import opened Outcomes
  import opened Bytes
  import Alignment
  import Mspace
  import S = SmallBins
  import T = TreeBins
  import TreeIndex

  type View = map<Addr, seq<nat>>

  datatype Op = Malloc(bytes: nat) | Free(p: Addr) | Realloc(p: Addr, bytes: nat) | Memalign(alignment: nat, bytes: nat)
              | Store(p: Addr, i: nat, b: nat) | Trim(pad: nat)

  // Sizes are 64-bit words, and an alignment is one that can be rounded up in 64 bits.
  predicate OpOk(op: Op) {
    match op
    case Malloc(bytes) => bytes < TWO64
    case Realloc(_, bytes) => bytes < TWO64
    case Memalign(alignment, bytes) => alignment <= HALF && bytes < TWO64
    case Store(_, _, b) => b < 256
    case _ => true
  }

  // A new aligned block of so many bytes, or nothing.
  predicate New(v: View, r: Addr, bytes: nat, v2: View) {
    if r == 0 then v2 == v
    else
      && r >= TWO_WORDS && r % 8 == 0
      && var p := r - TWO_WORDS; p !in v && p in v2 && |v2[p]| == bytes && v2 == v[p := v2[p]]
  }

  // The block at p gave way to one at r, and kept its first bytes. It may have fewer bytes than were asked for only
  // where it was.
  predicate Moved(v: View, p: Addr, r: Addr, bytes: nat, v2: View)
    requires p in v
  {
    && r >= TWO_WORDS && r % 8 == 0
    && var q := r - TWO_WORDS;
    && (q == p || q !in v) && q in v2 && v2 == (v - {p})[q := v2[q]] && |v2[q]| <= bytes && (|v2[q]| < bytes ==> q == p)
    && forall i {:trigger v2[q][i]} :: 0 <= i < |v2[q]| && i < |v[p]| ==> v2[q][i] == v[p][i]
  }

  function Put(c: seq<nat>, i: nat, b: nat): seq<nat>
    requires i < |c|
  {
    c[i := b]
  }

  // What an operation may do to the blocks of the program.
  ghost predicate Allowed(v: View, op: Op, r: Addr, v2: View) {
    match op
    case Malloc(bytes) => New(v, r, bytes, v2)
    case Memalign(alignment, bytes) =>
      && New(v, r, bytes, v2)
      && (r != 0 && alignment > MALLOC_ALIGNMENT ==> exists k: nat ::
          Alignment.Rounded(alignment, k) && r % TreeIndex.Pow2(k) == 0)
    case Free(p) => v2 == v - {p}
    case Realloc(p, bytes) => if p in v && r != 0 then Moved(v, p, r, bytes, v2) else v2 == v
    case Store(p, i, b) => v2 == if p in v && i < |v[p]| then v[p := Put(v[p], i, b)] else v
    case Trim(_) => v2 == v
  }

  // The bytes that the system kept although an operation gave them up: the region of a directly mapped block that was
  // freed or moved, when munmap refused; otherwise none.
  ghost predicate KeptBy(h: Heap, op: Op, n: int) {
    n == 0 || (n > 0 && match op
                        case Free(p) => p in h.direct && n == RegionLength(p, h.direct[p])
                        case Realloc(p, _) => p in h.direct && n == RegionLength(p, h.direct[p])
                        case _ => false)
  }

  // Null only for a request that is too large, or when no free chunk fits and the system refuses, unless the padding of
  // the request wraps. A block comes from the chunk that the source chooses, and one that is resized stays where it is
  // exactly when its chunk is, or becomes, large enough, or is kept mapped.
  ghost predicate ServedBy(h: Heap, h2: Heap, s: Settings, op: Op, r: Addr, refused: bool) {
    match op
    case Malloc(bytes) => AsMalloc(h, bytes, s.granularity, r, refused) && Chosen(h, h2, bytes, r, s, refused)
    case Memalign(alignment, bytes) =>
      if alignment <= MALLOC_ALIGNMENT
      then AsMalloc(h, bytes, s.granularity, r, refused) && Chosen(h, h2, bytes, r, s, refused)
      else forall k: nat {:trigger Alignment.Rounded(alignment, k)} :: Alignment.Rounded(alignment, k) ==>
             AsMalloc(h, PaddedRequest(bytes, k), s.granularity, r, refused)
    case Realloc(p, bytes) =>
      p in h.live ==>
        && AsMalloc(h, bytes, s.granularity, r, refused)
        && (r != 0 && bytes < MAX_REQUEST ==>
            (r == p + TWO_WORDS <==> Stays(h, p, RequestToSize(bytes), s.granularity)))
    case _ => true
  }

  // The block p has the bytes c.
  ghost predicate BlockHolds(h: Heap, p: Addr, c: seq<nat>) {
    && (p in h.tiles || p in h.direct) && |c| <= UsableSize(h, p + TWO_WORDS)
    && forall i: nat :: i < |c| ==> Content(h.mem, p + TWO_WORDS, i) == c[i]
  }

  ghost predicate Keeps(h: Heap, v: View) {
    v.Keys == h.live && forall p :: p in v ==> BlockHolds(h, p, v[p])
  }

  function ContentsOf(m: Memory, mem: Addr, n: nat): (c: seq<nat>)
    ensures |c| == n
  {
    seq(n, i requires i >= 0 => Content(m, mem, i))
  }

  // ---- Blocks over one operation ----

  lemma Carried(h: Heap, h2: Heap, v: View, s: set<Addr>)
    requires Ok(h) && Keeps(h, v) && Undisturbed(h, h2, s)
    ensures forall p :: p in v && p in s ==> BlockHolds(h2, p, v[p])
  {
    hide Ok, Undisturbed, Content;
    forall p | p in v && p in s ensures BlockHolds(h2, p, v[p]) {
      assert BlockHolds(h, p, v[p]);
      AlignedBlock(h, p);
      UndisturbedBytes(h, h2, s, p);
      assert SameContents(h.mem, p + TWO_WORDS, h2.mem, p + TWO_WORDS, UsableSize(h, p + TWO_WORDS));
    }
  }

  lemma NewKept(h: Heap, h2: Heap, v: View, p: Addr, n: nat)
    requires Ok(h) && Keeps(h, v) && Undisturbed(h, h2, h.live) && p !in h.live && h2.live == h.live + {p}
    requires (p in h2.tiles || p in h2.direct) && UsableSize(h2, p + TWO_WORDS) >= n && (p + TWO_WORDS) % 8 == 0
    ensures var v2 := v[p := ContentsOf(h2.mem, p + TWO_WORDS, n)]; Keeps(h2, v2) && New(v, p + TWO_WORDS, n, v2)
  {
    hide Ok, Undisturbed;
    Carried(h, h2, v, h.live);
    hide BlockHolds;
    var c := ContentsOf(h2.mem, p + TWO_WORDS, n);
    ContentsHeld(h2, p, n);
    assert v[p := c].Keys == h2.live;
  }

  lemma ContentsHeld(h: Heap, p: Addr, n: nat)
    requires (p in h.tiles || p in h.direct) && UsableSize(h, p + TWO_WORDS) >= n
    ensures BlockHolds(h, p, ContentsOf(h.mem, p + TWO_WORDS, n))
  {
    hide Content;
  }

  lemma FreedKept(h: Heap, h2: Heap, v: View, p: Addr)
    requires Ok(h) && Keeps(h, v) && FreedBlock(h, h2, p)
    ensures Keeps(h2, v - {p})
  {
    hide Ok, Undisturbed, BlockHolds;
    Carried(h, h2, v, h.live - {p});
    assert (v - {p}).Keys == h2.live;
  }

  lemma UsablePositive(h: Heap, p: Addr)
    requires Ok(h) && p in h.live
    ensures (p in h.tiles || p in h.direct) && UsableSize(h, p + TWO_WORDS) > 0
  {
    hide Tagged, Binned, SegmentOk, EndsKnown, VictimOk;
    AlignedBlock(h, p);
    if p in h.tiles {
      ChunkFacts(h, p);
    } else {
      assert DirectOk(h.mem, h.arena, p, h.direct[p]);
    }
  }

  lemma MovedParts(h: Heap, h2: Heap, p: Addr, r: Addr, bytes: nat)
    requires Ok(h2) && Realloced(h, h2, p + TWO_WORDS, r, bytes)
    ensures r >= TWO_WORDS && var q := r - TWO_WORDS;
      && r % 8 == 0 && (q in h2.tiles || q in h2.direct) && UsableSize(h2, r) > 0 && (q == p || q !in h.live)
          && h2.live == h.live - {p} + {q}
      && Undisturbed(h, h2, h.live - {p}) && (p in h.tiles || p in h.direct) && (UsableSize(h2, r) >= bytes || q == p)
      && SameContents(h.mem, p + TWO_WORDS, h2.mem, r, Min(UsableSize(h, p + TWO_WORDS), bytes))
  {
    UsablePositive(h2, r - TWO_WORDS);
    hide Ok, Undisturbed, SameContents;
  }

  lemma MovedKept(h: Heap, h2: Heap, v: View, p: Addr, q: Addr, n: nat, bytes: nat)
    requires Ok(h) && Keeps(h, v) && p in v && n <= bytes && (n == bytes || q == p)
    requires (q in h2.tiles || q in h2.direct) && UsableSize(h2, q + TWO_WORDS) >= n
    requires (q == p || q !in h.live) && h2.live == h.live - {p} + {q} && Undisturbed(h, h2, h.live - {p})
    requires (p in h.tiles || p in h.direct) && (q + TWO_WORDS) % 8 == 0
    requires SameContents(h.mem, p + TWO_WORDS, h2.mem, q + TWO_WORDS, Min(UsableSize(h, p + TWO_WORDS), bytes))
    ensures var v2 := (v - {p})[q := ContentsOf(h2.mem, q + TWO_WORDS, n)];
        Keeps(h2, v2) && Moved(v, p, q + TWO_WORDS, bytes, v2)
  {
    hide Ok, Undisturbed, Content;
    var c := ContentsOf(h2.mem, q + TWO_WORDS, n);
    ContentsHeld(h2, q, n);
    Carried(h, h2, v, h.live - {p});
    KeptFirst(h, h2, v, p, q + TWO_WORDS, bytes);
    hide BlockHolds, SameContents;
    assert (v - {p})[q := c].Keys == h2.live;
  }

  lemma KeptFirst(h: Heap, h2: Heap, v: View, p: Addr, r: Addr, bytes: nat)
    requires Keeps(h, v) && p in v && (p in h.tiles || p in h.direct)
    requires SameContents(h.mem, p + TWO_WORDS, h2.mem, r, Min(UsableSize(h, p + TWO_WORDS), bytes))
    ensures forall i: nat :: i < |v[p]| && i < bytes ==> Content(h2.mem, r, i) == v[p][i]
  {
    hide Content;
    assert BlockHolds(h, p, v[p]);
  }

  // A byte of a block is written.
  lemma StoredKept(h: Heap, h2: Heap, v: View, p: Addr, i: nat, b: nat)
    requires Ok(h) && Keeps(h, v) && Undisturbed(h, h2, h.live - {p}) && h2.live == h.live && p in v && i < |v[p]|
        && b < 256
    requires h2 == h.(mem := SetByte(h.mem, p + TWO_WORDS + i, b))
    ensures Keeps(h2, v[p := Put(v[p], i, b)])
  {
    hide Ok, Undisturbed, SetByte, ByteAt;
    Carried(h, h2, v, h.live - {p});
    var c := Put(v[p], i, b);
    assert BlockHolds(h, p, v[p]);
    forall j: nat | j < |c| ensures Content(h2.mem, p + TWO_WORDS, j) == c[j] {
      ByteSet(h.mem, p + TWO_WORDS + i, b, p + TWO_WORDS + j);
      assert Content(h.mem, p + TWO_WORDS, j) == v[p][j];
    }
    assert BlockHolds(h2, p, c);
    hide BlockHolds;
    assert v[p := c].Keys == h2.live;
  }

  lemma GivenKept(h: Heap, h2: Heap, v: View, r: Addr, bytes: nat)
    requires Ok(h) && Keeps(h, v) && Undisturbed(h, h2, h.live) && Given(h, h2, r, bytes)
    ensures r >= TWO_WORDS && var v2 := v[r - TWO_WORDS := ContentsOf(h2.mem, r, bytes)];
        Keeps(h2, v2) && New(v, r, bytes, v2)
  {
    hide Ok, Undisturbed, Keeps, New, ContentsOf;
    NewKept(h, h2, v, r - TWO_WORDS, bytes);
  }

  lemma RoundedAligned(alignment: nat, r: Addr)
    requires exists k: nat :: Alignment.Rounded(alignment, k) && r % TreeIndex.Pow2(k) == 0
    ensures r % 8 == 0
  {
    var k: nat :| Alignment.Rounded(alignment, k) && r % TreeIndex.Pow2(k) == 0;
    assert TreeIndex.Pow2(3) == 8;
    if k < 3 {
      TreeIndex.Pow2Monotone(k, 3);
    }
    Alignment.MultipleOf8(k, r);
  }

  lemma AlignedKept(h: Heap, h2: Heap, v: View, r: Addr, alignment: nat, bytes: nat)
    requires Ok(h) && Keeps(h, v) && Undisturbed(h, h2, h.live) && AlignedGiven(h, h2, r, alignment, bytes)
    ensures r >= TWO_WORDS && var v2 := v[r - TWO_WORDS := ContentsOf(h2.mem, r, bytes)];
        Keeps(h2, v2) && New(v, r, bytes, v2)
    ensures exists k: nat :: Alignment.Rounded(alignment, k) && r % TreeIndex.Pow2(k) == 0
  {
    hide Ok, Undisturbed, Keeps, New, ContentsOf;
    RoundedAligned(alignment, r);
    hide Alignment.Rounded;
    NewKept(h, h2, v, r - TWO_WORDS, bytes);
  }

  lemma InUse(h: Heap, v: View, p: Addr)
    requires Keeps(h, v) && p in v
    ensures p in h.live && (p in h.tiles || p in h.direct) && |v[p]| <= UsableSize(h, p + TWO_WORDS)
  {
    assert BlockHolds(h, p, v[p]);
  }

  lemma NotInUse(h: Heap, v: View, p: Addr)
    requires Keeps(h, v) && p !in v
    ensures p !in h.live
  {
  }

  lemma TrimKept(h: Heap, h2: Heap, v: View)
    requires Ok(h) && Keeps(h, v) && SameBlocks(h, h2)
    ensures Keeps(h2, v)
  {
    hide Ok, Undisturbed, BlockHolds;
    Carried(h, h2, v, h.live);
  }

  // ---- The program ----

  // The client writes one byte.
  method Write(ms: Mspace.Mspace, p: Addr, i: nat, b: nat, v: View)
    requires ms.Valid() && Keeps(ms.h, v) && p in v && i < |v[p]| && b < 256
    modifies ms
    ensures ms.Valid() && Keeps(ms.h, v[p := Put(v[p], i, b)])
  {
    hide Ok, BooksOk, Undisturbed, Keeps, S.Ok, T.Ok, S.Sizes, T.Chunks, PutByte, WordOf, Value, WordAt, OwnWord;
    ghost var h := ms.h;
    InUse(h, v, p);
    AlignedBlock(h, p);
    OwnByte(h, p, i);
    var a := WordAt(p + TWO_WORDS + i);
    ms.Store(p, a, WordOf(PutByte(Value(At(ms.mem, a)), (p + TWO_WORDS + i) % 8, b)));
    StoredKept(h, ms.h, v, p, i, b);
  }

  method Resize(ms: Mspace.Mspace, p: Addr, bytes: nat, v: View) returns (r: Addr, v2: View)
    requires ms.Valid() && Keeps(ms.h, v) && p in v && bytes < TWO64
    modifies ms, ms.small, ms.tree, ms.os
    ensures ms.Valid() && Keeps(ms.h, v2) && if r != 0 then Moved(v, p, r, bytes, v2) else v2 == v
    ensures KeptBy(old(ms.h), Realloc(p, bytes), ms.os.keptBytes - old(ms.os.keptBytes))
    ensures AsMalloc(old(ms.h), bytes, ms.granularity, r, ms.os.refused > old(ms.os.refused))
    ensures r != 0 && bytes < MAX_REQUEST ==>
        (r == p + TWO_WORDS <==> Stays(old(ms.h), p, RequestToSize(bytes), ms.granularity))
  {
    hide Ok, BooksOk, Undisturbed, Keeps, S.Ok, T.Ok, S.Sizes, T.Chunks, Realloced, ContentsOf, Moved;
    ghost var h := ms.h;
    InUse(h, v, p);
    v2 := v;
    r := ms.Realloc(p + TWO_WORDS, bytes);
    if r != 0 {
      MovedParts(h, ms.h, p, r, bytes);
      var usable := ms.UsableSizeOf(r);
      var n := if usable < bytes then usable else bytes;
      MovedKept(h, ms.h, v, p, r - TWO_WORDS, n, bytes);
      v2 := (v - {p})[r - TWO_WORDS := ContentsOf(ms.mem, r, n)];
    }
  }

  method Perform(ms: Mspace.Mspace, op: Op, v: View) returns (r: Addr, v2: View)
    requires ms.Valid() && Keeps(ms.h, v) && OpOk(op)
    modifies ms, ms.small, ms.tree, ms.os
    ensures ms.Valid() && Keeps(ms.h, v2) && Allowed(v, op, r, v2)
    ensures KeptBy(old(ms.h), op, ms.os.keptBytes - old(ms.os.keptBytes))
    ensures ServedBy(old(ms.h), ms.h, ms.Terms(), op, r, ms.os.refused > old(ms.os.refused))
  {
    hide Ok, BooksOk, Undisturbed, Keeps, S.Ok, T.Ok, S.Sizes, T.Chunks, Given, AlignedGiven, FreedBlock, Realloced,
      ContentsOf;
    r, v2 := 0, v;
    ghost var h := ms.h;
    match op
    case Malloc(bytes) =>
      r := ms.Malloc(bytes);
      if r != 0 {
        GivenKept(h, ms.h, v, r, bytes);
        v2 := v[r - TWO_WORDS := ContentsOf(ms.mem, r, bytes)];
      }
    case Memalign(alignment, bytes) =>
      r := ms.Memalign(alignment, bytes);
      if r != 0 {
        if alignment > MALLOC_ALIGNMENT {
          AlignedKept(h, ms.h, v, r, alignment, bytes);
        } else {
          GivenKept(h, ms.h, v, r, bytes);
        }
        v2 := v[r - TWO_WORDS := ContentsOf(ms.mem, r, bytes)];
      }
    case Free(p) =>
      if p in v {
        InUse(h, v, p);
        ms.Free(p + TWO_WORDS);
        FreedKept(h, ms.h, v, p);
      }
      v2 := v - {p};
      assert p !in v ==> v2 == v;
    case Realloc(p, bytes) =>
      if p in v {
        r, v2 := Resize(ms, p, bytes, v);
      } else {
        NotInUse(h, v, p);
      }
    case Store(p, i, b) =>
      if p in v && i < |v[p]| {
        Write(ms, p, i, b, v);
        v2 := v[p := Put(v[p], i, b)];
      }
    case Trim(pad) =>
      var _ := ms.SysTrim(pad);
      TrimKept(h, ms.h, v);
  }

  // The space at one moment: its chunks and blocks, what it counts as its footprint, what the system has kept, and how
  // often it has refused.
  datatype Account = Account(h: Heap, footprint: nat, keptBytes: nat, refused: nat)

  // A step leaves with the system only the region of a block it gives up, and gives null only for a reason.
  ghost predicate Accounted(a: Account, op: Op, r: Addr, a2: Account, s: Settings) {
    KeptBy(a.h, op, a2.keptBytes - a.keptBytes) && ServedBy(a.h, a2.h, s, op, r, a2.refused > a.refused)
  }

  // After each step, the footprint is the bytes of the segments and of the regions of directly mapped blocks, and those
  // that the system would not take back.
  ghost predicate Audited(ops: seq<Op>, results: seq<Addr>, accounts: seq<Account>, s: Settings) {
    && |accounts| == |ops| + 1 && |results| == |ops|
    && (forall a :: a in accounts ==> a.footprint == TotalBytes(a.h) + a.keptBytes - accounts[0].keptBytes)
    && forall k {:trigger ops[k]} :: 0 <= k < |ops| ==>
         Accounted(accounts[k], ops[k], results[k], accounts[k + 1], s)
  }

  lemma AuditedMore(ops: seq<Op>, results: seq<Addr>, accounts: seq<Account>, s: Settings, op: Op, r: Addr,
      a: Account)
    requires Audited(ops, results, accounts, s)
    requires a.footprint == TotalBytes(a.h) + a.keptBytes - accounts[0].keptBytes
    requires Accounted(accounts[|ops|], op, r, a, s)
    ensures Audited(ops + [op], results + [r], accounts + [a], s)
  {
    hide Accounted;
    var ops1, rs1, as1 := ops + [op], results + [r], accounts + [a];
    forall k {:trigger ops1[k]} | 0 <= k < |ops1| ensures Accounted(as1[k], ops1[k], rs1[k], as1[k + 1], s) {
      if k < |ops| {
        assert ops1[k] == ops[k] && rs1[k] == results[k] && as1[k] == accounts[k] && as1[k + 1] == accounts[k + 1];
      }
    }
  }

  // In step k, the system refused to take back no region of a directly mapped block.
  ghost predicate Took(accounts: seq<Account>, k: nat) {
    k + 1 < |accounts| && accounts[k + 1].keptBytes == accounts[k].keptBytes
  }

  // The footprint is what the segments and the mapped blocks have if and only if the system took back every region.
  lemma {:induction false} FootprintExactly(ops: seq<Op>, results: seq<Addr>, accounts: seq<Account>,
      s: Settings, n: nat)
    requires Audited(ops, results, accounts, s) && n <= |ops|
    ensures accounts[n].keptBytes >= accounts[0].keptBytes
    ensures accounts[n].footprint == TotalBytes(accounts[n].h) <==>
            forall k {:trigger Took(accounts, k)} :: 0 <= k < n ==> Took(accounts, k)
    ensures accounts[n].footprint >= TotalBytes(accounts[n].h)
  {
    assert accounts[n] in accounts;
    if n > 0 {
      FootprintExactly(ops, results, accounts, s, n - 1);
      assert accounts[n - 1] in accounts;
      assert Accounted(accounts[n - 1], ops[n - 1], results[n - 1], accounts[n], s);
      hide ServedBy;
      assert Took(accounts, n - 1) <==> accounts[n].keptBytes == accounts[n - 1].keptBytes;
    }
  }

  // Any run of a program on a new space: step by step, each result and each change of the blocks is one that the
  // account allows, and in the end, as after every step, the blocks hold what the account says, and the footprint is
  // what the space has of the system.
  method Run(ms: Mspace.Mspace, ops: seq<Op>)
    returns (results: seq<Addr>, views: seq<View>, ghost accounts: seq<Account>)
    requires ms.Valid() && ms.h.live == {} && ms.os.keptBytes == ms.keptBefore
    requires forall k :: 0 <= k < |ops| ==> OpOk(ops[k])
    modifies ms, ms.small, ms.tree, ms.os
    ensures |results| == |ops| && |views| == |ops| + 1 && views[0] == map[]
    ensures forall k {:trigger ops[k]} :: 0 <= k < |ops| ==> Allowed(views[k], ops[k], results[k], views[k + 1])
    ensures ms.Valid() && Keeps(ms.h, views[|ops|])
    ensures Audited(ops, results, accounts, ms.Terms())
    ensures accounts[|ops|] == Account(ms.h, ms.footprint, ms.os.keptBytes, ms.os.refused)
    ensures accounts[0].keptBytes == old(ms.os.keptBytes)
  {
    hide Ok, BooksOk, S.Ok, T.Ok, S.Sizes, T.Chunks, Allowed, KeptBy, ServedBy, Audited;
    results, views := [], [map[]];
    accounts := [Account(ms.h, ms.footprint, ms.os.keptBytes, ms.os.refused)];
    InAccount(ms);
    FirstAccount(accounts, ms.Terms());
    assert ops[..0] == [];
    for n := 0 to |ops|
      invariant |results| == n && |views| == n + 1 && views[0] == map[]
      invariant forall k {:trigger ops[k]} :: 0 <= k < n ==> Allowed(views[k], ops[k], results[k], views[k + 1])
      invariant ms.Valid() && Keeps(ms.h, views[n])
      invariant Audited(ops[..n], results, accounts, ms.Terms())
      invariant |accounts| == n + 1 && accounts[0].keptBytes == ms.keptBefore
      invariant accounts[n] == Account(ms.h, ms.footprint, ms.os.keptBytes, ms.os.refused)
    {
      var r, v := Perform(ms, ops[n], views[n]);
      ghost var a := Account(ms.h, ms.footprint, ms.os.keptBytes, ms.os.refused);
      InAccount(ms);
      AuditedMore(ops[..n], results, accounts, ms.Terms(), ops[n], r, a);
      assert ops[..n] + [ops[n]] == ops[..n + 1];
      results, views, accounts := results + [r], views + [v], accounts + [a];
    }
    assert ops[..|ops|] == ops;
  }

  lemma FirstAccount(accounts: seq<Account>, s: Settings)
    requires |accounts| == 1 && accounts[0].footprint == TotalBytes(accounts[0].h)
    ensures Audited([], [], accounts, s)
  {
  }

  lemma InAccount(ms: Mspace.Mspace)
    requires ms.Valid()
    ensures ms.footprint == TotalBytes(ms.h) + ms.os.keptBytes - ms.keptBefore
  {
    hide Ok, Owns, LeastOk, HomeOk, SegmentsWhole;
  }

  // ---- A block that comes back short ----

  // A program can meet it: with pages of 4096 bytes, a block mapped for 300000 bytes has 303040, and stays where it is,
  // with no more, when asked to hold 303048.
  method ResizedShort(ms: Mspace.Mspace) returns (r: Addr, q: Addr)
    requires ms.Valid() && ms.page == 4096
    modifies ms, ms.small, ms.tree, ms.os
    ensures ms.Valid() && q == r
    ensures r != 0 ==> Enough(ms.h, r, 303040) && !Enough(ms.h, r, 303041)
  {
    hide Ok, BooksOk, S.Ok, T.Ok, S.Sizes, T.Chunks, Malloced, Realloced, Undisturbed, AsMalloc, KeptFor, Enough,
      AlignUp, RequestToSize, Given;
    ShortSizes(ms.h);
    r := ms.MmapAlloc(300008);
    q := 0;
    if r != 0 {
      MallocedLive(old(ms.h), ms.h, r, 300008);
      ShortBlock(ms.h, r, ms.granularity, ms.page);
      q := ms.Realloc(r, 303048);
    }
  }

  lemma ShortSizes(h: Heap)
    ensures RequestToSize(300000) == 300008 && RequestOk(300008) && RequestToSize(303048) == 303056
    ensures AlignUp(300008 + 63, 4096) == 303104 && !S.IsSmall(303056)
  {
  }

  lemma MallocedLive(h: Heap, h2: Heap, r: Addr, nb: nat)
    requires Malloced(h, h2, r, nb) && r != 0
    ensures r >= TWO_WORDS && r - TWO_WORDS in h2.live
  {
  }

  lemma ShortBlock(h: Heap, r: Addr, granularity: nat, page: nat)
    requires Ok(h) && MappedAs(h, r, 303104) && ParamsOk(granularity, page)
    ensures StaysMapped(h, r - TWO_WORDS, 303056, granularity) && Enough(h, r, 303040) && !Enough(h, r, 303041)
  {
    PageFacts(granularity, page);
    DirectNotTile(h, r - TWO_WORDS);
  }

  // The bytes of different blocks are different bytes.
  lemma BytesApart(h: Heap, v: View, p: Addr, i: nat, q: Addr, j: nat)
    requires Ok(h) && Keeps(h, v) && p in v && q in v && p != q && i < |v[p]| && j < |v[q]|
    ensures p + TWO_WORDS + i != q + TWO_WORDS + j
  {
    hide Keeps, BlockHolds;
    InUse(h, v, p);
    InUse(h, v, q);
    AlignedBlock(h, p);
    AlignedBlock(h, q);
    OwnByte(h, p, i);
    OwnByte(h, q, j);
    OkParts(h);
    DirectsOf(h);
    ArenaOf(h);
    CoreParts(h, {});
    hide Ok, CoreOk, SpaceOk, Tiled, Tagged, DirectsOk, InArena, UsersOk, OwnWord;
    OwnedOnce(h, p, q, WordAt(p + TWO_WORDS + i));
  }
}
