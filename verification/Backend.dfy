// The allocator a simulation runs on, one of the policies, with the effect of each call on
// what the simulator can see.
module Backend {
  import opened Counting
  import opened Results
  import opened Pool
  import opened Bookkeeping
  import opened Affinity
  import opened Compaction
  import opened KVAllocator
  import opened AllocatorView
  import Contiguous
  import ContiguousOracle
  import Extents

  /** Only scratch and sequences with a table have an affinity. */
  ghost predicate CurKnown(l: Ledger) {
    forall k | k in Current(l.pool) :: k.Scratch? || k.id in l.tables
  }

  datatype Backend = Paged(a: Allocator) | Spanned(o: ContiguousOracle.Oracle) {

    ghost function Repr(): set<object> {
      if Paged? then {a} else {o}
    }

    ghost predicate Valid()
      reads Repr()
    {
      match this
      case Paged(a) => PagedValid(a)
      case Spanned(o) => SpannedValid(o)
    }

    ghost function Now(): Store
      reads Repr()
    {
      match this
      case Paged(a) => PagedStore(a.View(), a.held)
      case Spanned(o) => SpannedStore(o.View())
    }

    predicate Compacts() {
      Paged? && a.Compacts()
    }

    /** A request for n blocks at once finds a place: under the contiguous policy that takes n
        consecutive free blocks. */
    ghost predicate Places(n: nat)
      reads Repr()
    {
      match this
      case Paged(a) => n <= FreeCount(Now())
      case Spanned(o) => Extents.HasRun(o.extents, n)
    }

    /** num_free. */
    method NumFree() returns (r: nat)
      requires Valid()
      ensures r == FreeCount(Now())
    {
      match this
      case Paged(a) =>
        a.FreeCount();
        PagedFree(a.View(), a.held);
        r := a.NumFree();
      case Spanned(o) =>
        SpannedFree(o.View());
        r := o.CountFree();
    }

    /** The pool's size. */
    function NumBlocks(): (n: nat)
      reads Repr()
      ensures n == Now().n
    {
      match this
      case Paged(a) => a.numBlocks
      case Spanned(o) => o.numBlocks
    }

    /** Blocks in use are blocks of the pool. */
    lemma UsedInPool(b: nat)
      requires Valid() && Uses(Now(), b) > 0
      ensures b < Now().n
    {
      match this
      case Paged(a) => PagedUsed(a.View(), a.held, b);
      case Spanned(o) => SpannedUsed(o.View(), b);
    }

    /** With no tables and nothing held every block is free. */
    lemma WholeAgain()
      requires Valid() && Now().tables == map[] && (Paged? ==> Now().held == multiset{})
      ensures FreeCount(Now()) == Now().n
    {
      if Spanned? {
        var l := o.View();
        forall k
          ensures k !in l.scratch
        {
          Contiguous.KeysMatch(l, k);
        }
      }
      assert Live(Now()) == {};
    }

    /** A shared pool has no spans to keep track of. */
    lemma Shape()
      ensures Paged? ==> Now().slack == map[] && Now().scratch == map[]
    {
    }

    lemma FreeNat()
      requires Valid()
      ensures FreeCount(Now()) >= 0 && Now().spanned == Spanned?
    {
      match this
      case Paged(a) => PagedFree(a.View(), a.held);
      case Spanned(o) => SpannedFree(o.View());
    }

    /** get_table. */
    function Table(id: int): (t: seq<nat>)
      requires id in Now().tables
      reads Repr()
      ensures t == Now().tables[id]
    {
      match this
      case Paged(a) => a.tables[id]
      case Spanned(o) => o.tables[id]
    }

    /** admit. */
    method Admit(id: int, nPrompt: nat, nTotal: nat) returns (r: Option<seq<nat>>)
      requires Valid() && id !in Now().tables && nPrompt <= nTotal && (Spanned? ==> nTotal > 0)
      modifies Repr()
      ensures Valid()
      ensures r.None? ==> Now() == old(Now())
      ensures r.Some? ==> Admits(old(Now()), Now(), id, r.value, nTotal) && |r.value| == nPrompt
      ensures r.None? <==> !old(Places(if Paged? then nPrompt else nTotal))
    {
      hide Admits, Extents.HasRun, FreeCount, Exact, Contiguous.Inv, Allocator.Indexed, Steady;
      match this
      case Paged(a) => r := PagedAdmit(a, id, nPrompt, nTotal);
      case Spanned(o) => r := SpannedAdmit(o, id, nPrompt, nTotal);
    }

    /** admit_shared, for policies that share. */
    method AdmitShared(id: int, shared: seq<nat>, n: nat) returns (r: Option<seq<nat>>)
      requires Valid() && Paged? && id !in Now().tables && forall b | b in shared :: b in Refs(Now().tables)
      modifies Repr()
      ensures Valid()
      ensures r.None? ==> Now() == old(Now())
      ensures r.Some? ==> |r.value| == |shared| + n && Shares(old(Now()), Now(), id, shared, r.value[|shared|..])
      ensures r.None? <==> n > FreeCount(old(Now()))
    {
      hide Exact, Allocator.Indexed, Steady, CurOf, Shares, FreeCount, Bookkeeping.AdmitShared;
      ghost var l, h := a.View(), a.held;
      a.FreeCount();
      PagedFree(l, h);
      SharedLive(l, h, shared);
      r := a.AdmitShared(id, shared, n);
      if r.Some? {
        ShareEffect(l, h, id, shared, n);
      }
    }

    /** append_block. */
    method AppendBlock(id: int) returns (r: Option<nat>)
      requires Valid() && id in Now().tables
      modifies Repr()
      ensures Valid()
      ensures r.None? ==> Now() == old(Now())
      ensures r.Some? ==> Appends(old(Now()), Now(), id, r.value)
      ensures Paged? ==> (r.None? <==> FreeCount(old(Now())) < 1)
      ensures Spanned? ==> id in old(Now()).slack && (r.None? <==> old(Now()).slack[id] == 0)
    {
      hide Appends, FreeCount, Exact, Contiguous.Inv, Allocator.Indexed, Steady;
      match this
      case Paged(a) => r := PagedAppend(a, id);
      case Spanned(o) => r := SpannedAppend(o, id);
    }

    /** alloc_scratch. */
    method AllocScratch(id: int, n: nat) returns (r: Option<seq<nat>>)
      requires Valid() && Paged? && id in Now().tables
      modifies Repr()
      ensures Valid()
      ensures r.None? ==> Now() == old(Now())
      ensures r.Some? ==> Holds(old(Now()), Now(), r.value) && |r.value| == n
      ensures r.None? <==> n > FreeCount(old(Now()))
    {
      hide Exact, Allocator.Indexed, Steady, CurOf, Holds, FreeCount, AllocN;
      ghost var l, h := a.View(), a.held;
      a.FreeCount();
      PagedFree(l, h);
      r := a.AllocScratch(id, n);
      if r.Some? {
        HoldEffect(l, h, a.ScratchKey(id), n);
      }
    }

    /** take_scratch. */
    method TakeScratch(id: int, n: nat) returns (r: Option<seq<nat>>)
      requires Valid() && Spanned? && id in Now().tables
      modifies Repr()
      ensures Valid()
      ensures id in old(Now()).slack && (r.None? <==> old(Now()).slack[id] < n)
      ensures r.None? ==> Now() == old(Now())
      ensures r.Some? ==> Reserves(old(Now()), Now(), id, r.value) && |r.value| == n
    {
      hide Reserves, Contiguous.Inv, Contiguous.ScratchTaken;
      ghost var l := o.View();
      Contiguous.KeysMatch(l, id);
      r := o.TakeScratch(id, n);
      if r.Some? {
        ReserveEffect(l, id, n);
      }
    }

    /** unref_blocks of scratch branches. */
    method UnrefBlocks(bs: seq<nat>)
      requires Valid() && Paged? && multiset(bs) <= Now().held
      modifies Repr()
      ensures Valid() && Drops(old(Now()), Now(), bs)
    {
      hide Exact, Allocator.Indexed, Steady, CurOf, UnrefAll;
      UnrefAllExact(a.View(), a.held, bs);
      UnrefAllCur(a.View(), bs);
      a.UnrefBlocks(bs);
    }

    /** spec_round_adopt. */
    method SpecRoundAdopt(id: int, replaceTail: bool, w: nat, keep: nat, branches: seq<seq<nat>>)
      requires Valid() && Paged? && id in Now().tables && (replaceTail ==> Now().tables[id] != [])
      requires w < |branches| && keep <= |branches[w]| && multiset(Flat(branches)) <= Now().held
      modifies Repr()
      ensures Valid()
      ensures Adopts(old(Now()), Now(), id, replaceTail, branches[w][..keep], multiset(Flat(branches)))
    {
      hide Exact, Allocator.Indexed, Steady, CurOf, Adopt, Flat;
      AdoptEffect(a.View(), a.held, id, replaceTail, w, keep, branches);
      a.SpecRoundAdopt(id, replaceTail, w, keep, branches);
    }

    /** A sequence leaves: its scratch is given back, its table released. */
    method Retire(id: int, scratch: seq<nat>) returns (ghost ren: map<nat, nat>)
      requires Valid() && id in Now().tables
      requires scratch == if Spanned? && id in Now().scratch then Now().scratch[id] else []
      requires Compacts() ==> HeldApart(Now())
      modifies Repr()
      ensures Valid() && Retires(old(Now()), Now(), id, ren, Compacts())
      ensures Compacts() ==> HeldApart(Now())
    {
      hide Retires, Exact, Contiguous.Inv, Allocator.Indexed, Steady;
      ren := map[];
      match this
      case Paged(a) => ren := PagedRetire(a, id);
      case Spanned(o) =>
        Contiguous.KeysMatch(o.View(), id);
        SpannedRetire(o, id, scratch);
    }
  }

  ghost predicate PagedValid(a: Allocator)
    reads a
  {
    a.Valid() && CurKnown(a.View())
  }

  ghost predicate SpannedValid(o: ContiguousOracle.Oracle)
    reads o
  {
    o.Valid() && forall id | id in o.gone :: o.gone[id] == []
  }

  method PagedAdmit(a: Allocator, id: int, nPrompt: nat, nTotal: nat) returns (r: Option<seq<nat>>)
    requires PagedValid(a) && id !in a.tables && nPrompt <= nTotal
    modifies a
    ensures PagedValid(a)
    ensures r.None? ==> PagedStore(a.View(), a.held) == old(PagedStore(a.View(), a.held))
    ensures r.Some? ==> Admits(old(PagedStore(a.View(), a.held)), PagedStore(a.View(), a.held), id, r.value, nTotal)
    ensures r.Some? ==> |r.value| == nPrompt
    ensures r.None? <==> nPrompt > FreeCount(old(PagedStore(a.View(), a.held)))
  {
    hide Exact, Allocator.Indexed, Steady, CurOf, Admits, FreeCount, Bookkeeping.Admit;
    ghost var l, h := a.View(), a.held;
    a.FreeCount();
    PagedFree(l, h);
    r := a.Admit(id, nPrompt);
    if r.Some? {
      AdmitEffect(l, h, id, nPrompt, nTotal);
    }
  }

  method PagedAppend(a: Allocator, id: int) returns (r: Option<nat>)
    requires PagedValid(a) && id in a.tables
    modifies a
    ensures PagedValid(a)
    ensures r.None? ==> PagedStore(a.View(), a.held) == old(PagedStore(a.View(), a.held))
    ensures r.Some? ==> Appends(old(PagedStore(a.View(), a.held)), PagedStore(a.View(), a.held), id, r.value)
    ensures r.None? <==> FreeCount(old(PagedStore(a.View(), a.held))) < 1
  {
    hide Exact, Allocator.Indexed, Steady, CurOf, Appends, FreeCount, Append;
    ghost var l, h := a.View(), a.held;
    a.FreeCount();
    PagedFree(l, h);
    r := a.AppendBlock(id);
    if r.Some? {
      AppendEffect(l, h, id);
    }
  }

  method PagedRetire(a: Allocator, id: int) returns (ghost ren: map<nat, nat>)
    requires PagedValid(a) && id in a.tables
    requires a.Compacts() ==> HeldApart(PagedStore(a.View(), a.held))
    modifies a
    ensures PagedValid(a)
    ensures Retires(old(PagedStore(a.View(), a.held)), PagedStore(a.View(), a.held), id, ren, a.Compacts())
    ensures a.Compacts() ==> HeldApart(PagedStore(a.View(), a.held))
  {
    hide Exact, Allocator.Indexed, Steady, CurOf, Bookkeeping.Release, Renames, Image;
    ghost var l, h := a.View(), a.held;
    ReleaseEffect(l, h, id);
    ReleaseExact(l, h, id);
    ren := a.Release(id);
    if a.Compacts() {
      RenamesImage(Bookkeeping.Release(l, id), a.View(), h, ren);
    }
  }

  method SpannedAppend(o: ContiguousOracle.Oracle, id: int) returns (r: Option<nat>)
    requires SpannedValid(o) && id in o.tables
    modifies o
    ensures SpannedValid(o)
    ensures r.None? ==> SpannedStore(o.View()) == old(SpannedStore(o.View()))
    ensures r.Some? ==> Appends(old(SpannedStore(o.View())), SpannedStore(o.View()), id, r.value)
    ensures id in old(o.reserved) && (r.None? <==> old(o.reserved)[id] == [])
  {
    hide Contiguous.Inv, Appends, Contiguous.Appended;
    ghost var l := o.View();
    Contiguous.KeysMatch(l, id);
    r := o.AppendBlock(id);
    if r.Some? {
      SpannedAppendEffect(l, id);
    }
  }

  method SpannedRetire(o: ContiguousOracle.Oracle, id: int, scratch: seq<nat>)
    requires SpannedValid(o) && id in o.tables && id in o.scratch && scratch == o.scratch[id]
    modifies o
    ensures SpannedValid(o)
    ensures Retires(old(SpannedStore(o.View())), SpannedStore(o.View()), id, map[], false)
  {
    hide Contiguous.Inv, Contiguous.Released;
    ghost var l := o.View();
    SpannedRetireEffect(l, id);
    if scratch != [] {
      o.UnrefScratch(id, scratch);
    }
    Contiguous.KeysMatch(o.View(), id);
    o.Release(id);
  }

  method SpannedAdmit(o: ContiguousOracle.Oracle, id: int, nPrompt: nat, nTotal: nat) returns (r: Option<seq<nat>>)
    requires SpannedValid(o) && id !in o.tables && 0 < nTotal && nPrompt <= nTotal
    modifies o
    ensures SpannedValid(o)
    ensures r.None? ==> SpannedStore(o.View()) == old(SpannedStore(o.View()))
    ensures r.Some? ==> Admits(old(SpannedStore(o.View())), SpannedStore(o.View()), id, r.value, nTotal)
    ensures r.Some? ==> |r.value| == nPrompt
    ensures r.None? <==> !Extents.HasRun(old(o.extents), nTotal)
  {
    hide Contiguous.Inv, Extents.HasRun, Admits, Contiguous.Admitted, Contiguous.Fits, SpannedStore;
    ghost var l := o.View();
    r := o.Admit(id, nPrompt, nTotal);
    if r.Some? {
      SpannedAdmitEffect(l, id, nPrompt, nTotal);
    }
  }

  lemma PagedUsed(l: Ledger, held: multiset<nat>, b: nat)
    requires Exact(l, held) && Uses(PagedStore(l, held), b) > 0
    ensures b < l.numBlocks
  {
    assert CountOf(l.refcount, b) == Uses(PagedStore(l, held), b);
    assert b in l.refcount.Keys;
  }

  lemma SpannedUsed(l: Contiguous.Layout, b: nat)
    requires Contiguous.Inv(l) && Uses(SpannedStore(l), b) > 0
    ensures b < l.numBlocks
  {
    SpannedUses(l, b);
    var k :| Contiguous.LiveIn(l.tables, l.scratch, k, b);
    Contiguous.KeysMatch(l, k);
    Contiguous.LiveInSpan(l, k, b);
  }

  // ---- paged and frame policies ------------------------------------------

  ghost function PagedStore(l: Ledger, held: multiset<nat>): Store {
    Store(l.numBlocks, false, l.tables, held, map[], map[])
  }

  lemma PagedFree(l: Ledger, held: multiset<nat>)
    requires Exact(l, held)
    ensures FreeCount(PagedStore(l, held)) == |Free(l.pool)|
  {
    var s := PagedStore(l, held);
    Conservation(l, held);
    NumFreeSize(l);
    forall x: nat
      ensures x in l.refcount <==> x in Live(s)
    {
      assert CountOf(l.refcount, x) == Uses(s, x);
    }
    assert Live(s) == l.refcount.Keys;
  }

  lemma FreeUnused(l: Ledger, held: multiset<nat>, bs: seq<nat>)
    requires Exact(l, held) && Distinct(bs) && Elems(bs) <= Free(l.pool)
    ensures Unused(PagedStore(l, held), bs)
  {
    forall b | b in bs
      ensures Uses(PagedStore(l, held), b) == 0
    {
      assert b in Elems(bs);
      assert b !in l.refcount.Keys;
      assert CountOf(l.refcount, b) == Uses(PagedStore(l, held), b);
    }
  }

  lemma {:induction false} AllocNCur(l: Ledger, key: Key, n: nat)
    ensures forall k | k in Current(AllocN(l, key, n).0.pool) :: k in Current(l.pool) || k == key
  {
    if n > 0 {
      AllocNCur(l, key, n - 1);
    }
  }

  lemma AdmitEffect(l: Ledger, held: multiset<nat>, id: int, n: nat, nTotal: nat)
    requires Exact(l, held) && CurKnown(l) && id !in l.tables && n <= |Free(l.pool)| && n <= nTotal
    ensures var (m, bs) := Bookkeeping.Admit(l, id, n);
      Admits(PagedStore(l, held), PagedStore(m, held), id, bs, nTotal) && |bs| == n && CurKnown(m)
  {
    AllocNExact(l, held, Seq(id), n);
    AllocNCur(l, Seq(id), n);
    FreeUnused(l, held, AllocN(l, Seq(id), n).1);
  }

  lemma SharedLive(l: Ledger, held: multiset<nat>, shared: seq<nat>)
    requires Exact(l, held) && forall b | b in shared :: b in Refs(l.tables)
    ensures forall i | 0 <= i < |shared| :: shared[i] in l.refcount
  {
    forall i | 0 <= i < |shared|
      ensures shared[i] in l.refcount
    {
      assert shared[i] in Refs(l.tables);
      assert CountOf(l.refcount, shared[i]) == (Refs(l.tables) + held)[shared[i]];
    }
  }

  lemma ShareEffect(l: Ledger, held: multiset<nat>, id: int, shared: seq<nat>, n: nat)
    requires Exact(l, held) && CurKnown(l) && id !in l.tables && n <= |Free(l.pool)|
    requires (forall b | b in shared :: b in Refs(l.tables)) && forall i | 0 <= i < |shared| :: shared[i] in l.refcount
    ensures var (m, t) := Bookkeeping.AdmitShared(l, id, shared, n);
      && |t| == |shared| + n && CurKnown(m)
      && Shares(PagedStore(l, held), PagedStore(m, held), id, shared, t[|shared|..])
  {
    hide Exact, AllocN, RefAll, Free, PoolOk;
    RefAllExact(l, held, shared);
    var r := RefAll(l, shared);
    AllocNExact(r, held + multiset(shared), Seq(id), n);
    AllocNCur(r, Seq(id), n);
    var bs := AllocN(r, Seq(id), n).1;
    FreeUnused(l, held, bs);
    assert (shared + bs)[|shared|..] == bs;
  }

  lemma AppendEffect(l: Ledger, held: multiset<nat>, id: int)
    requires Exact(l, held) && CurKnown(l) && id in l.tables && |Free(l.pool)| >= 1
    ensures var (m, b) := Append(l, id);
      Appends(PagedStore(l, held), PagedStore(m, held), id, b) && CurKnown(m)
  {
    hide Exact, Free, PoolOk, Take;
    EmptyMeaning(l.pool);
    AllocExact(l, held, Seq(id));
    AllocCur(l, Seq(id));
    FreeUnused(l, held, [Alloc(l, Seq(id)).1]);
  }

  lemma AllocCur(l: Ledger, key: Key)
    requires !Empty(l.pool)
    ensures forall k | k in Current(Alloc(l, key).0.pool) :: k in Current(l.pool) || k == key
  {
  }

  lemma HoldEffect(l: Ledger, held: multiset<nat>, key: Key, n: nat)
    requires Exact(l, held) && CurKnown(l) && n <= |Free(l.pool)| && (key.Scratch? || key.id in l.tables)
    ensures var (m, bs) := AllocN(l, key, n);
      Holds(PagedStore(l, held), PagedStore(m, held + multiset(bs)), bs) && |bs| == n && CurKnown(m)
  {
    AllocNExact(l, held, key, n);
    AllocNCur(l, key, n);
    FreeUnused(l, held, AllocN(l, key, n).1);
  }

  lemma AdoptEffect(l: Ledger, held: multiset<nat>, id: int, replaceTail: bool, w: nat, keep: nat,
                    branches: seq<seq<nat>>)
    requires CurKnown(l) && id in l.tables && (replaceTail ==> l.tables[id] != [])
    requires w < |branches| && keep <= |branches[w]| && multiset(Flat(branches)) <= held
    ensures var m := Adopt(l, id, replaceTail, w, keep, branches);
      && CurKnown(m)
      && Adopts(PagedStore(l, held), PagedStore(m, held - multiset(Flat(branches))), id, replaceTail,
                branches[w][..keep], multiset(Flat(branches)))
  {
    hide Adopt, Flat;
    AdoptTables(l, id, replaceTail, w, keep, branches);
    FlatSplit(branches, w);
    var kept := branches[w][..keep];
    assert branches[w] == kept + branches[w][keep..];
    assert multiset(branches[w]) == multiset(kept) + multiset(branches[w][keep..]);
  }

  lemma ReleaseEffect(l: Ledger, held: multiset<nat>, id: int)
    requires CurKnown(l) && id in l.tables
    ensures var m := Bookkeeping.Release(l, id);
      CurKnown(m) && PagedStore(m, held) == Without(PagedStore(l, held), id)
  {
    hide UnrefAll;
    UnrefAllCur(l.(tables := l.tables - {id}), l.tables[id]);
  }

  /** A renaming of the live blocks, as the simulator sees it. */
  lemma RenamesImage(l: Ledger, m: Ledger, held: multiset<nat>, ren: map<nat, nat>)
    requires Exact(l, held) && Exact(m, held) && Renames(l, m, ren)
    ensures Image(PagedStore(l, held), PagedStore(m, held), ren)
  {
    var s, s' := PagedStore(l, held), PagedStore(m, held);
    forall x | x in ren
      ensures Uses(s', ren[x]) == Uses(s, x)
    {
      assert CountOf(l.refcount, x) == Uses(s, x);
      assert CountOf(m.refcount, ren[x]) == Uses(s', ren[x]);
    }
    forall k | k in s.tables
      ensures SameShape(s.tables[k], s'.tables[k], ren)
    {
      assert RenamesTable(l.tables[k], m.tables[k], ren);
    }
    PagedFree(l, held);
    PagedFree(m, held);
    SameFree(l, m, held);
  }

  lemma SameFree(l: Ledger, m: Ledger, held: multiset<nat>)
    requires Exact(l, held) && Exact(m, held) && l.numBlocks == m.numBlocks && l.taken - l.freed == m.taken - m.freed
    ensures |Free(l.pool)| == |Free(m.pool)|
  {
    Conservation(l, held);
    Conservation(m, held);
    NumFreeSize(l);
    NumFreeSize(m);
  }

  // ---- the contiguous policy ---------------------------------------------

  /** How many more blocks each sequence may append. */
  function SlackOf(reserved: Tables): map<int, nat> {
    map id | id in reserved :: |reserved[id]|
  }

  lemma SlackSet(reserved: Tables, id: int, s: seq<nat>)
    ensures SlackOf(reserved[id := s]) == SlackOf(reserved)[id := |s|]
    ensures SlackOf(reserved - {id}) == SlackOf(reserved) - {id}
  {
  }

  ghost function SpannedStore(l: Contiguous.Layout): Store {
    Store(l.numBlocks, true, l.tables, Refs(l.scratch), SlackOf(l.reserved), l.scratch)
  }

  /** A block is used exactly when some sequence's table or scratch holds it. */
  lemma SpannedUses(l: Contiguous.Layout, x: nat)
    requires Contiguous.Inv(l)
    ensures Uses(SpannedStore(l), x) > 0 <==> x in l.refcount
  {
    if x in Refs(l.tables) {
      var k := RefsOwner(l.tables, x);
      assert Contiguous.LiveIn(l.tables, l.scratch, k, x);
    }
    if x in Refs(l.scratch) {
      var k := RefsOwner(l.scratch, x);
      assert Contiguous.LiveIn(l.tables, l.scratch, k, x);
    }
    if x in l.refcount {
      var k :| Contiguous.LiveIn(l.tables, l.scratch, k, x);
      if k in l.tables && x in l.tables[k] { RefsMember(l.tables, k, x); } else { RefsMember(l.scratch, k, x); }
    }
  }

  lemma SpannedFree(l: Contiguous.Layout)
    requires Contiguous.Inv(l) && forall id | id in l.gone :: l.gone[id] == []
    ensures FreeCount(SpannedStore(l)) == Contiguous.NumFree(l)
  {
    Contiguous.ContiguousConservation(l);
    forall x: nat
      ensures x in l.refcount <==> x in Live(SpannedStore(l))
    {
      SpannedUses(l, x);
      LiveIs(SpannedStore(l), x);
    }
    assert Live(SpannedStore(l)) == l.refcount.Keys;
  }

  lemma NewUnused(l: Contiguous.Layout, bs: seq<nat>)
    requires Contiguous.Inv(l) && Contiguous.AllNew(l.refcount, bs)
    ensures Unused(SpannedStore(l), bs)
  {
    forall b | b in bs
      ensures Uses(SpannedStore(l), b) == 0
    {
      SpannedUses(l, b);
    }
  }

  lemma SpannedAdmitEffect(l: Contiguous.Layout, id: int, nPrompt: nat, nTotal: nat)
    requires Contiguous.Inv(l) && id !in l.tables && nPrompt <= nTotal && Contiguous.Fits(l, nTotal)
    ensures var m := Contiguous.Admitted(l, id, nPrompt, nTotal);
      && id in m.tables && |m.tables[id]| == nPrompt
      && Admits(SpannedStore(l), SpannedStore(m), id, m.tables[id], nTotal)
      && id in m.gone && m.gone == l.gone[id := []]
  {
    hide Contiguous.Inv, Extents.Consume, Contiguous.SetOnes, Contiguous.Blocks, Unused, Refs, SlackOf;
    var m := Contiguous.Admitted(l, id, nPrompt, nTotal);
    Contiguous.KeysMatch(l, id);
    SpannedHead(l, id, nPrompt, nTotal);
    NewUnused(l, m.tables[id]);
    RefsNew(l.scratch, id, []);
    assert Refs(m.scratch) == Refs(l.scratch);
    SlackSet(l.reserved, id, m.reserved[id]);
  }

  lemma SpannedHead(l: Contiguous.Layout, id: int, nPrompt: nat, nTotal: nat)
    requires Contiguous.Inv(l) && id !in l.tables && nPrompt <= nTotal && Contiguous.Fits(l, nTotal)
    ensures var m := Contiguous.Admitted(l, id, nPrompt, nTotal);
      && id in m.tables && |m.tables[id]| == nPrompt && Contiguous.AllNew(l.refcount, m.tables[id])
      && id in m.reserved && |m.reserved[id]| == nTotal - nPrompt
  {
    hide Contiguous.Split, Contiguous.Total, Contiguous.Counted, Extents.Consume, Contiguous.SetOnes, Contiguous.Laid;
    hide Contiguous.Blocks, Contiguous.AllNew;
    var m := Contiguous.Admitted(l, id, nPrompt, nTotal);
    Contiguous.BlocksDistinct(m.spans[id]);
    Contiguous.HeadNew(l, Extents.FirstFit(l.extents, nTotal), nPrompt, nTotal);
  }

  lemma SpannedAppendEffect(l: Contiguous.Layout, id: int)
    requires Contiguous.Inv(l) && id in l.spans && id in l.tables && id in l.reserved && l.reserved[id] != []
    ensures var m := Contiguous.Appended(l, id);
      Appends(SpannedStore(l), SpannedStore(m), id, l.reserved[id][0]) && m.gone == l.gone
  {
    hide Contiguous.Inv, Contiguous.SetOnes, Unused, SlackOf, Refs;
    Contiguous.ReservedNew(l, id);
    var r := l.reserved[id];
    assert r[0] in r;
    NewUnused(l, [r[0]]);
    SlackSet(l.reserved, id, r[1..]);
    SlackAt(l.reserved, id);
  }

  lemma SlackAt(reserved: Tables, id: int)
    requires id in reserved
    ensures id in SlackOf(reserved) && SlackOf(reserved)[id] == |reserved[id]|
  {
  }

  lemma ReserveEffect(l: Contiguous.Layout, id: int, n: nat)
    requires Contiguous.Inv(l) && id in l.spans && id in l.reserved && id in l.scratch && n <= |l.reserved[id]|
    ensures var m := Contiguous.ScratchTaken(l, id, n);
      && Reserves(SpannedStore(l), SpannedStore(m), id, l.reserved[id][|l.reserved[id]| - n..]) && m.gone == l.gone
  {
    hide Contiguous.Inv, Contiguous.SetOnes, Unused, SlackOf, Refs, Contiguous.AllNew;
    var r := l.reserved[id];
    var bs := r[|r| - n..];
    TailNew(l, id, n);
    NewUnused(l, bs);
    SlackSet(l.reserved, id, r[..|r| - n]);
    SlackAt(l.reserved, id);
    RefsFront(l.scratch, id, bs);
  }

  lemma TailNew(l: Contiguous.Layout, id: int, n: nat)
    requires Contiguous.Inv(l) && id in l.spans && id in l.reserved && n <= |l.reserved[id]|
    ensures Contiguous.AllNew(l.refcount, l.reserved[id][|l.reserved[id]| - n..])
  {
    hide Contiguous.Inv;
    Contiguous.ReservedNew(l, id);
    var r := l.reserved[id];
    assert r == r[..|r| - n] + r[|r| - n..];
  }

  lemma RefsFront(m: map<int, seq<nat>>, id: int, bs: seq<nat>)
    requires id in m
    ensures Refs(m[id := bs + m[id]]) == Refs(m) + multiset(bs)
  {
    hide Refs;
    RefsAdd(m, id, bs + m[id]);
    RefsPick(m, id);
    assert multiset(bs + m[id]) == multiset(bs) + multiset(m[id]);
  }

  lemma SpannedRetireEffect(l: Contiguous.Layout, id: int)
    requires Contiguous.Inv(l) && id in l.tables && id in l.scratch && forall k | k in l.gone :: l.gone[k] == []
    ensures id in l.gone && id in l.spans
    ensures var u := if l.scratch[id] == [] then l else Contiguous.ScratchReturned(l, id);
      && id in u.tables && id in u.spans
      && SpannedStore(Contiguous.Released(u, id)) == Without(SpannedStore(l), id)
      && forall k | k in Contiguous.Released(u, id).gone :: Contiguous.Released(u, id).gone[k] == []
  {
    hide Contiguous.Inv, Elems, SlackOf, Refs, Extents.MergeAll, Extents.Insert;
    Contiguous.KeysMatch(l, id);
    SlackSet(l.reserved, id, []);
    RefsPick(l.scratch, id);
    var u := if l.scratch[id] == [] then l else Contiguous.ScratchReturned(l, id);
    assert u.scratch - {id} == l.scratch - {id};
    assert Refs(l.scratch - {id}) == Refs(l.scratch) - multiset(l.scratch[id]);
  }
}
