// Whole runs of the reference-counted allocators: every operation trace keeps the books
// exact, and hands out the same blocks whatever the plan mode, compaction included.
module Trace {
  import Counting
  import AllocatorView
  import opened Pool
  import opened Bookkeeping
  import opened Affinity
  import opened CompactionRule
  import opened KVAllocator

  datatype Op =
    | DoAdmit(id: int, n: nat)
    | DoAdmitShared(id: int, shared: seq<nat>, n: nat)
    | DoAppend(id: int)
    | DoFork(parent: int, child: int)
    | DoScratch(id: int, n: nat)
    | DoUnref(blocks: seq<nat>)
    | DoAdopt(id: int, replaceTail: bool, w: nat, keep: nat, branches: seq<seq<nat>>)
    | DoRelease(id: int)

  /** The bookkeeping and what callers hold. */
  datatype State = State(l: Ledger, held: multiset<nat>)

  /** What the policy fixes besides the plan mode: where branches are placed, and the
      compaction threshold, 0 when there is no compaction. */
  datatype Mode = Mode(separate: bool, below: real)

  ghost predicate NewId(l: Ledger, id: int) {
    id !in l.tables && Seq(id) !in Current(l.pool)
  }

  /** What each operation asks of its caller; with compaction held blocks are not shared. */
  ghost predicate Legal(s: State, op: Op, mode: Mode) {
    match op
    case DoAdmit(id, _) => NewId(s.l, id)
    case DoAdmitShared(id, shared, _) =>
      && NewId(s.l, id) && (forall i | 0 <= i < |shared| :: shared[i] in s.l.refcount)
      && (mode.below > 0.0 ==> forall b | b in shared :: b !in s.held)
    case DoAppend(id) => id in s.l.tables
    case DoFork(parent, child) => parent in s.l.tables && child !in s.l.tables
    case DoScratch(_, _) => true
    case DoUnref(blocks) => multiset(blocks) <= s.held
    case DoAdopt(id, replaceTail, w, keep, branches) =>
      && id in s.l.tables && (replaceTail ==> s.l.tables[id] != [])
      && w < |branches| && keep <= |branches[w]| && multiset(Flat(branches)) <= s.held
    case DoRelease(id) => id in s.l.tables
  }

  function KeyFor(separate: bool, id: int): Key {
    if separate then Scratch else Seq(id)
  }

  /** The state after op; an operation that finds too few free blocks changes nothing. */
  ghost function Apply(s: State, op: Op, mode: Mode): State
    requires Legal(s, op, mode)
  {
    var free := |Free(s.l.pool)|;
    match op
    case DoAdmit(id, n) => if n > free then s else s.(l := Admit(s.l, id, n).0)
    case DoAdmitShared(id, shared, n) => if n > free then s else s.(l := AdmitShared(s.l, id, shared, n).0)
    case DoAppend(id) => if free < 1 then s else s.(l := Append(s.l, id).0)
    case DoFork(parent, child) => s.(l := Fork(s.l, parent, child))
    case DoScratch(id, n) =>
      if n > free then s else
      var (m, bs) := AllocN(s.l, KeyFor(mode.separate, id), n);
      State(m, s.held + multiset(bs))
    case DoUnref(blocks) => State(UnrefAll(s.l, blocks), s.held - multiset(blocks))
    case DoAdopt(id, replaceTail, w, keep, branches) =>
      State(Adopt(s.l, id, replaceTail, w, keep, branches), s.held - multiset(Flat(branches)))
    case DoRelease(id) => s.(l := ReleaseWith(s.l, id, mode.below))
  }

  /** Every count is exact, and with compaction every held block is private to its caller. */
  ghost predicate Kept(s: State, mode: Mode) {
    Exact(s.l, s.held) && (mode.below > 0.0 ==> Private(s.l, s.held))
  }

  // ---- held blocks stay private ------------------------------------------

  lemma HeldLive(l: Ledger, held: multiset<nat>, b: nat)
    requires Exact(l, held)
    ensures b in held || b in Refs(l.tables) ==> b in l.refcount
    ensures b in l.refcount ==> b !in Free(l.pool)
  {
    assert CountOf(l.refcount, b) == (Refs(l.tables) + held)[b];
    assert b in l.refcount ==> b in l.refcount.Keys;
  }

  /** New blocks enter a table. */
  lemma PrivateNew(l: Ledger, held: multiset<nat>, m: Ledger, bs: seq<nat>, from: multiset<nat>)
    requires Exact(l, held) && Private(l, held) && (forall b | b in bs :: b in Free(l.pool))
    requires forall b | b in from :: b !in held
    requires forall b: nat | b in Refs(m.tables) :: b in Refs(l.tables) || b in from || b in bs
    ensures Private(m, held)
  {
    forall b | b in held
      ensures b !in Refs(m.tables)
    {
      HeldLive(l, held, b);
    }
  }

  /** New blocks go to a caller. */
  lemma PrivateHeld(l: Ledger, held: multiset<nat>, m: Ledger, bs: seq<nat>)
    requires Exact(l, held) && Private(l, held) && m.tables == l.tables
    requires Counting.Distinct(bs) && forall b | b in bs :: b in Free(l.pool)
    ensures Private(m, held + multiset(bs))
  {
    forall b | b in held + multiset(bs)
      ensures (held + multiset(bs))[b] == 1 && b !in Refs(m.tables)
    {
      HeldLive(l, held, b);
      AllocatorView.DistinctCount(bs, b);
    }
  }

  /** A committed branch leaves the caller, all of it. */
  lemma PrivateAdopt(l: Ledger, held: multiset<nat>, id: int, replaceTail: bool, w: nat, keep: nat,
                     branches: seq<seq<nat>>)
    requires Private(l, held) && id in l.tables && (replaceTail ==> l.tables[id] != [])
    requires w < |branches| && keep <= |branches[w]| && multiset(Flat(branches)) <= held
    ensures Private(Adopt(l, id, replaceTail, w, keep, branches), held - multiset(Flat(branches)))
  {
    hide Adopt, Flat, FlatOthers, Refs;
    var all, kept, t := multiset(Flat(branches)), branches[w][..keep], l.tables[id];
    var p := if replaceTail then t[..|t| - 1] else t;
    AdoptTables(l, id, replaceTail, w, keep, branches);
    FlatSplit(branches, w);
    assert branches[w] == kept + branches[w][keep..];
    assert multiset(kept) <= multiset(branches[w]) <= all;
    forall b | b in held - all
      ensures (held - all)[b] == 1 && b !in Refs(l.tables[id := p + kept])
    {
      assert held[b] == 1 && all[b] == 0;
      assert b !in multiset(kept);
      NotSpliced(l.tables, id, p, kept, b);
    }
  }

  /** A block in no table is in none after blocks other than it are spliced in. */
  lemma NotSpliced(tables: map<int, seq<nat>>, id: int, p: seq<nat>, kept: seq<nat>, b: nat)
    requires id in tables && p <= tables[id] && b !in Refs(tables) && b !in multiset(kept)
    ensures b !in Refs(tables[id := p + kept])
  {
    var m := tables[id := p + kept];
    if b in Refs(m) {
      var k := RefsOwner(m, b);
      if k != id || b in p { InOldTable(tables, id, p, k, b); }
    }
  }

  lemma InOldTable(tables: map<int, seq<nat>>, id: int, p: seq<nat>, k: int, b: nat)
    requires id in tables && p <= tables[id]
    requires if k == id then b in p else k in tables && b in tables[k]
    ensures b in Refs(tables)
  {
    RefsMember(tables, k, b);
  }

  lemma PrivateRelease(l: Ledger, held: multiset<nat>, id: int)
    requires Private(l, held) && id in l.tables
    ensures Private(Release(l, id), held)
  {
    RefsPick(l.tables, id);
    hide UnrefAll;
    UnrefAllCur(l.(tables := l.tables - {id}), l.tables[id]);
  }

  /** One operation keeps held blocks private. */
  lemma ApplyPrivate(s: State, op: Op, mode: Mode)
    requires Exact(s.l, s.held) && Private(s.l, s.held) && mode.below > 0.0 && Legal(s, op, mode) && !op.DoRelease?
    ensures Private(Apply(s, op, mode).l, Apply(s, op, mode).held)
  {
    hide Exact, Private, AllocN, UnrefAll, Adopt, Free, Flat, RefAll, Alloc;
    var l, held := s.l, s.held;
    match op
    case DoAdmit(id, n) => if n <= |Free(l.pool)| { AdmitPrivate(l, held, id, n); }
    case DoAdmitShared(id, shared, n) => if n <= |Free(l.pool)| { AdmitSharedPrivate(l, held, id, shared, n); }
    case DoAppend(id) => if |Free(l.pool)| >= 1 { AppendPrivate(l, held, id); }
    case DoFork(parent, child) => ForkPrivate(l, held, parent, child);
    case DoScratch(id, n) =>
      if n <= |Free(l.pool)| {
        AllocNExact(l, held, KeyFor(mode.separate, id), n);
        var (m, bs) := AllocN(l, KeyFor(mode.separate, id), n);
        FromFree(l, bs);
        PrivateHeld(l, held, m, bs);
      }
    case DoUnref(blocks) =>
      UnrefAllCur(l, blocks);
      FewerHeld(l, held, UnrefAll(l, blocks), multiset(blocks));
    case DoAdopt(id, replaceTail, w, keep, branches) => PrivateAdopt(l, held, id, replaceTail, w, keep, branches);
  }

  lemma FromFree(l: Ledger, bs: seq<nat>)
    requires Counting.Elems(bs) <= Free(l.pool)
    ensures forall b | b in bs :: b in Free(l.pool)
  {
    assert forall b | b in bs :: b in Counting.Elems(bs);
  }

  lemma FewerHeld(l: Ledger, held: multiset<nat>, m: Ledger, gone: multiset<nat>)
    requires Private(l, held) && m.tables == l.tables
    ensures Private(m, held - gone)
  {
    forall b | b in held - gone
      ensures (held - gone)[b] == 1 && b !in Refs(m.tables)
    {
      assert b in held;
    }
  }

  lemma AdmitPrivate(l: Ledger, held: multiset<nat>, id: int, n: nat)
    requires Exact(l, held) && Private(l, held) && id !in l.tables && n <= |Free(l.pool)|
    ensures Private(Admit(l, id, n).0, held)
  {
    hide Exact, Private, AllocN, Free;
    AllocNExact(l, held, Seq(id), n);
    var bs := AllocN(l, Seq(id), n).1;
    RefsNew(l.tables, id, bs);
    FromFree(l, bs);
    PrivateNew(l, held, Admit(l, id, n).0, bs, multiset{});
  }

  lemma AdmitSharedPrivate(l: Ledger, held: multiset<nat>, id: int, shared: seq<nat>, n: nat)
    requires Exact(l, held) && Private(l, held) && id !in l.tables && n <= |Free(l.pool)|
    requires (forall i | 0 <= i < |shared| :: shared[i] in l.refcount) && forall b | b in shared :: b !in held
    ensures Private(AdmitShared(l, id, shared, n).0, held)
  {
    hide Exact, Private, AllocN, Free, RefAll;
    RefAllExact(l, held, shared);
    var r := RefAll(l, shared);
    AllocNExact(r, held + multiset(shared), Seq(id), n);
    var bs := AllocN(r, Seq(id), n).1;
    RefsNew(l.tables, id, shared + bs);
    assert multiset(shared + bs) == multiset(shared) + multiset(bs);
    FromFree(r, bs);
    PrivateNew(l, held, AdmitShared(l, id, shared, n).0, bs, multiset(shared));
  }

  lemma AppendPrivate(l: Ledger, held: multiset<nat>, id: int)
    requires Exact(l, held) && Private(l, held) && id in l.tables && |Free(l.pool)| >= 1
    ensures Private(Append(l, id).0, held)
  {
    hide Exact, Private, Alloc, Free;
    EmptyMeaning(l.pool);
    AllocExact(l, held, Seq(id));
    var b := Alloc(l, Seq(id)).1;
    RefsExtend(l.tables, id, [b]);
    PrivateNew(l, held, Append(l, id).0, [b], multiset{});
  }

  lemma ForkPrivate(l: Ledger, held: multiset<nat>, parent: int, child: int)
    requires Exact(l, held) && Private(l, held) && parent in l.tables && child !in l.tables
    ensures Private(Fork(l, parent, child), held)
  {
    hide Exact, RefAll, Free;
    var t := l.tables[parent];
    forall i | 0 <= i < |t|
      ensures t[i] in l.refcount
    {
      TableLive(l, held, parent, t[i]);
    }
    RefAllExact(l, held, t);
    RefsNew(l.tables, child, t);
    RefsPick(l.tables, parent);
    PrivateNew(l, held, Fork(l, parent, child), [], multiset{});
  }

  // ---- one operation -----------------------------------------------------

  /** One operation keeps every reference counted exactly, and held blocks private. */
  lemma ApplyExact(s: State, op: Op, mode: Mode)
    requires Kept(s, mode) && Legal(s, op, mode)
    ensures Kept(Apply(s, op, mode), mode)
  {
    hide Exact, Private, Admit, AdmitShared, Append, Fork, AllocN, UnrefAll, Adopt, Release, Free, Flat;
    if !op.DoRelease? && mode.below > 0.0 { ApplyPrivate(s, op, mode); }
    match op
    case DoAdmit(id, n) => if n <= |Free(s.l.pool)| { AdmitExact(s.l, s.held, id, n); }
    case DoAdmitShared(id, shared, n) => if n <= |Free(s.l.pool)| { AdmitSharedExact(s.l, s.held, id, shared, n); }
    case DoAppend(id) =>
      EmptyMeaning(s.l.pool);
      if |Free(s.l.pool)| >= 1 { AppendExact(s.l, s.held, id); }
    case DoFork(parent, child) => ForkExact(s.l, s.held, parent, child);
    case DoScratch(id, n) => if n <= |Free(s.l.pool)| { AllocNExact(s.l, s.held, KeyFor(mode.separate, id), n); }
    case DoUnref(blocks) => UnrefAllExact(s.l, s.held, blocks);
    case DoAdopt(id, replaceTail, w, keep, branches) => AdoptExact(s.l, s.held, id, replaceTail, w, keep, branches);
    case DoRelease(id) => ReleaseKept(s.l, s.held, id, mode.below);
  }

  /** release keeps the books, and so does the compaction after it. */
  lemma ReleaseKept(l: Ledger, held: multiset<nat>, id: int, below: real)
    requires Exact(l, held) && id in l.tables && (below > 0.0 ==> Private(l, held))
    ensures Exact(ReleaseWith(l, id, below), held) && (below > 0.0 ==> Private(ReleaseWith(l, id, below), held))
  {
    hide Exact, Private, Release, Compacted;
    ReleaseExact(l, held, id);
    if below > 0.0 {
      PrivateRelease(l, held, id);
      if Release(l, id).pool.Framed? { CompactedSound(Release(l, id), held, below); }
    }
  }

  // ---- traces ------------------------------------------------------------

  ghost predicate LegalRun(s: State, ops: seq<Op>, mode: Mode)
    decreases |ops|
  {
    ops == [] || (Legal(s, ops[0], mode) && LegalRun(Apply(s, ops[0], mode), ops[1..], mode))
  }

  ghost function RunAll(s: State, ops: seq<Op>, mode: Mode): State
    requires LegalRun(s, ops, mode)
    decreases |ops|
  {
    if ops == [] then s else RunAll(Apply(s, ops[0], mode), ops[1..], mode)
  }

  /** After any trace each count is exact, live and free blocks partition the pool, and the
      conservation checks hold. */
  lemma {:induction false} RunExact(s: State, ops: seq<Op>, mode: Mode)
    requires Kept(s, mode) && LegalRun(s, ops, mode)
    ensures var e := RunAll(s, ops, mode);
      && Kept(e, mode)
      && |e.l.refcount| + NumFree(e.l) == e.l.numBlocks && e.l.taken - e.l.freed == |e.l.refcount|
    decreases |ops|
  {
    if ops == [] {
      Conservation(s.l, s.held);
    } else {
      hide Kept, Apply;
      ApplyExact(s, ops[0], mode);
      RunExact(Apply(s, ops[0], mode), ops[1..], mode);
    }
  }

  ghost function Now(a: Allocator): State
    reads a
  {
    State(a.View(), a.held)
  }

  /** What the policy of a fixes besides the plan mode. */
  function ModeOf(a: Allocator): Mode {
    Mode(a.policy.PimAware? && a.policy.segregateScratch, a.Below())
  }

  lemma NewIdFresh(a: Allocator, id: int)
    requires a.Valid() && NewId(a.View(), id)
    ensures a.Fresh(id)
  {
  }

  lemma PrivateOf(a: Allocator)
    requires Kept(Now(a), ModeOf(a))
    ensures a.Compacts() ==> a.HeldPrivate()
  {
  }

  /** One operation on the object is the operation on its state, whatever the plan mode. */
  method Do(a: Allocator, op: Op)
    requires a.Valid() && Kept(Now(a), ModeOf(a)) && Legal(Now(a), op, ModeOf(a))
    modifies a
    ensures a.Valid() && Now(a) == Apply(old(Now(a)), op, ModeOf(a)) && Kept(Now(a), ModeOf(a))
  {
    hide Exact, Allocator.Indexed, Steady, CurOf, Admit, AdmitShared, Append, Fork, AllocN, UnrefAll, Adopt, Flat, Free;
    hide Allocator.Fresh, Kept, ReleaseWith, Allocator.HeldPrivate;
    a.FreeCount();
    PrivateOf(a);
    ApplyExact(Now(a), op, ModeOf(a));
    match op
    case DoAdmit(id, n) =>
      NewIdFresh(a, id);
      var r := a.Admit(id, n);
    case DoAdmitShared(id, shared, n) =>
      NewIdFresh(a, id);
      var r := a.AdmitShared(id, shared, n);
    case DoAppend(id) =>
      var r := a.AppendBlock(id);
    case DoFork(parent, child) =>
      a.Fork(parent, child);
    case DoScratch(id, n) =>
      var r := a.AllocScratch(id, n);
    case DoUnref(blocks) =>
      a.UnrefBlocks(blocks);
    case DoAdopt(id, replaceTail, w, keep, branches) =>
      a.SpecRoundAdopt(id, replaceTail, w, keep, branches);
    case DoRelease(id) =>
      ghost var ren := a.Release(id);
  }

  /** A best-fit and a greedy allocator in the same state, given the same trace, stay in the
      same state, compactions included: the same tables block for block, the same counts, the
      same free blocks. */
  method PlanModesAgree(a: Allocator, b: Allocator, ops: seq<Op>)
    requires a != b && a.Valid() && b.Valid() && Now(a) == Now(b) && ModeOf(a) == ModeOf(b)
    requires Kept(Now(a), ModeOf(a)) && LegalRun(Now(a), ops, ModeOf(a))
    modifies a, b
    ensures a.Valid() && b.Valid() && Now(a) == Now(b)
    ensures Now(a) == RunAll(old(Now(a)), ops, ModeOf(a))
  {
    hide Apply, Legal, Kept, Allocator.Valid, Allocator.View;
    ghost var mode := ModeOf(a);
    var rest := ops;
    while rest != []
      invariant a.Valid() && b.Valid() && Now(a) == Now(b) && Kept(Now(a), mode)
      invariant LegalRun(Now(a), rest, mode) && RunAll(Now(a), rest, mode) == RunAll(old(Now(a)), ops, mode)
      decreases |rest|
    {
      Do(a, rest[0]);
      Do(b, rest[0]);
      rest := rest[1..];
    }
  }
}
