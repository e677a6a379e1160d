// The reference-counted bookkeeping of KVAllocator as functions on its state, and the
// exactness invariant every operation keeps.
module Bookkeeping {
  import opened Counting
  import opened Pool

  datatype Ledger = Ledger(
    numBlocks: nat,
    tables: map<int, seq<nat>>,
    refcount: map<nat, nat>,
    taken: nat,
    freed: nat,
    cow: nat,
    pool: Pool)

  /** A block's reference count, 0 when it is not live. */
  function CountOf(refcount: map<nat, nat>, b: nat): nat {
    if b in refcount then refcount[b] else 0
  }

  function Rc(l: Ledger, b: nat): nat { CountOf(l.refcount, b) }

  /** All references held by block tables. */
  ghost function Refs(tables: map<int, seq<nat>>): multiset<nat>
    decreases |tables|
  {
    if k: int :| k in tables then multiset(tables[k]) + Refs(tables - {k}) else multiset{}
  }

  /** The live blocks are those referenced, each counted exactly. */
  ghost predicate Counted(refcount: map<nat, nat>, refs: multiset<nat>) {
    && (forall b: nat :: CountOf(refcount, b) == refs[b])
    && (forall b | b in refcount :: refcount[b] > 0)
  }

  /** Live and free blocks split the ids below n. */
  ghost predicate Partition(live: set<nat>, free: set<nat>, n: nat) {
    && live !! free
    && forall b: nat :: b < n <==> b in live || b in free
  }

  /** Every block's count is its occurrences in tables plus the references callers hold;
      live and free blocks partition the pool; the counters give the live count. */
  ghost predicate Exact(l: Ledger, held: multiset<nat>) {
    && PoolOk(l.pool, l.numBlocks)
    && Counted(l.refcount, Refs(l.tables) + held)
    && Partition(l.refcount.Keys, Free(l.pool), l.numBlocks)
    && l.taken - l.freed == |l.refcount|
  }

  // ---- references in a map of tables -------------------------------------

  lemma {:induction false} RefsPick(tables: map<int, seq<nat>>, k: int)
    requires k in tables
    ensures Refs(tables) == multiset(tables[k]) + Refs(tables - {k})
    decreases |tables|
  {
    var j :| j in tables && Refs(tables) == multiset(tables[j]) + Refs(tables - {j});
    if j != k {
      RefsPick(tables - {j}, k);
      RefsPick(tables - {k}, j);
      assert tables - {j} - {k} == tables - {k} - {j};
    }
  }

  lemma RefsAdd(tables: map<int, seq<nat>>, k: int, t: seq<nat>)
    ensures Refs(tables[k := t]) == Refs(tables - {k}) + multiset(t)
  {
    RefsPick(tables[k := t], k);
    assert tables[k := t] - {k} == tables - {k};
  }

  /** A new table adds its blocks. */
  lemma RefsNew(tables: map<int, seq<nat>>, k: int, t: seq<nat>)
    requires k !in tables
    ensures Refs(tables[k := t]) == Refs(tables) + multiset(t)
  {
    RefsAdd(tables, k, t);
    assert tables - {k} == tables;
  }

  /** A longer table adds its new blocks. */
  lemma RefsExtend(tables: map<int, seq<nat>>, k: int, bs: seq<nat>)
    requires k in tables
    ensures Refs(tables[k := tables[k] + bs]) == Refs(tables) + multiset(bs)
  {
    RefsAdd(tables, k, tables[k] + bs);
    RefsPick(tables, k);
    assert multiset(tables[k] + bs) == multiset(tables[k]) + multiset(bs);
  }

  lemma RefsMember(tables: map<int, seq<nat>>, k: int, b: nat)
    requires k in tables && b in tables[k]
    ensures b in Refs(tables)
  {
    RefsPick(tables, k);
    assert b in multiset(tables[k]);
  }

  /** A referenced block occurs in some table. */
  lemma {:induction false} RefsOwner(tables: map<int, seq<nat>>, b: nat) returns (k: int)
    requires b in Refs(tables)
    ensures k in tables && b in tables[k]
    decreases |tables|
  {
    k :| k in tables && Refs(tables) == multiset(tables[k]) + Refs(tables - {k});
    if b !in tables[k] {
      assert b !in multiset(tables[k]);
      k := RefsOwner(tables - {k}, b);
    }
  }

  // ---- primitives --------------------------------------------------------

  function Alloc(l: Ledger, key: Key): (Ledger, nat) {
    if Empty(l.pool) then (l, 0) else
    var (p, b) := Take(l.pool, key);
    (l.(pool := p, refcount := l.refcount[b := 1], taken := l.taken + 1), b)
  }

  function Ref(l: Ledger, b: nat): Ledger {
    l.(refcount := l.refcount[b := Rc(l, b) + 1])
  }

  function Unref(l: Ledger, b: nat): Ledger {
    if Rc(l, b) <= 1 then l.(refcount := l.refcount - {b}, pool := Give(l.pool, b), freed := l.freed + 1)
    else l.(refcount := l.refcount[b := Rc(l, b) - 1])
  }

  function AllocN(l: Ledger, key: Key, n: nat): (Ledger, seq<nat>) {
    if n == 0 then (l, []) else
    var (m, bs) := AllocN(l, key, n - 1);
    var (m', b) := Alloc(m, key);
    (m', bs + [b])
  }

  lemma AllocNNext(l: Ledger, key: Key, n: nat)
    ensures AllocN(l, key, 0) == (l, [])
    ensures n > 0 ==>
              var (m, bs) := AllocN(l, key, n - 1);
              var (m', b) := Alloc(m, key);
              AllocN(l, key, n) == (m', bs + [b])
  {
    hide Alloc;
  }

  function RefAll(l: Ledger, bs: seq<nat>): Ledger {
    if bs == [] then l else Ref(RefAll(l, bs[..|bs| - 1]), bs[|bs| - 1])
  }

  function UnrefAll(l: Ledger, bs: seq<nat>): Ledger {
    if bs == [] then l else Unref(UnrefAll(l, bs[..|bs| - 1]), bs[|bs| - 1])
  }

  function NumFree(l: Ledger): nat
    requires PoolOk(l.pool, l.numBlocks)
  {
    if l.pool.Stack? then |l.pool.free| else SumFree(l.pool.frames)
  }

  function SumFree(frames: seq<set<nat>>): nat {
    if frames == [] then 0 else SumFree(frames[..|frames| - 1]) + |frames[|frames| - 1]|
  }

  // ---- the primitives keep exactness -------------------------------------

  /** A fresh block is live with one reference, held by the caller. */
  lemma AllocExact(l: Ledger, held: multiset<nat>, key: Key)
    requires Exact(l, held) && !Empty(l.pool)
    ensures var (m, b) := Alloc(l, key);
      && Exact(m, held + multiset{b})
      && b in Free(l.pool) && Free(m.pool) == Free(l.pool) - {b}
      && m == l.(pool := m.pool, refcount := l.refcount[b := 1], taken := l.taken + 1)
  {
    TakeFree(l.pool, l.numBlocks, key);
    var (m, b) := Alloc(l, key);
    assert b !in l.refcount.Keys;
    assert Refs(l.tables) + held + multiset{b} == Refs(m.tables) + (held + multiset{b});
    assert m.refcount.Keys == l.refcount.Keys + {b};
  }

  lemma RefExact(l: Ledger, held: multiset<nat>, b: nat)
    requires Exact(l, held) && b in l.refcount
    ensures Exact(Ref(l, b), held + multiset{b})
    ensures Ref(l, b).refcount.Keys == l.refcount.Keys
  {
    assert Refs(l.tables) + held + multiset{b} == Refs(l.tables) + (held + multiset{b});
    assert Ref(l, b).refcount.Keys == l.refcount.Keys;
  }

  /** Dropping one held reference frees the block exactly when it was the last. */
  lemma UnrefExact(l: Ledger, held: multiset<nat>, b: nat)
    requires Exact(l, held) && b in held
    ensures b in l.refcount
    ensures Exact(Unref(l, b), held - multiset{b})
    ensures Free(Unref(l, b).pool) == Free(l.pool) + if l.refcount[b] == 1 then {b} else {}
    ensures Unref(l, b).refcount.Keys == l.refcount.Keys - if l.refcount[b] == 1 then {b} else {}
  {
    hide Refs, Give, PoolOk, Free;
    var refs := Refs(l.tables) + held;
    assert refs - multiset{b} == Refs(l.tables) + (held - multiset{b});
    var m := Unref(l, b);
    if l.refcount[b] == 1 {
      GiveFree(l.pool, l.numBlocks, b);
      assert m.refcount.Keys == l.refcount.Keys - {b};
    } else {
      assert m.refcount.Keys == l.refcount.Keys;
    }
  }

  /** References of tables move to the caller. */
  lemma OutOfTables(l: Ledger, held: multiset<nat>, x: multiset<nat>, tables: map<int, seq<nat>>)
    requires Exact(l, held) && Refs(l.tables) == Refs(tables) + x
    ensures Exact(l.(tables := tables), held + x)
  {
    assert Refs(l.tables) + held == Refs(tables) + (held + x);
  }

  lemma Snoc(bs: seq<nat>)
    requires bs != []
    ensures bs == bs[..|bs| - 1] + [bs[|bs| - 1]]
    ensures multiset(bs) == multiset(bs[..|bs| - 1]) + multiset{bs[|bs| - 1]}
    ensures Elems(bs) == Elems(bs[..|bs| - 1]) + {bs[|bs| - 1]}
  {
    var p, b := bs[..|bs| - 1], bs[|bs| - 1];
    assert bs == p + [b];
    ElemsAppend(p, b);
  }

  // ---- sequences of primitives -------------------------------------------

  /** What allocating bs has done to l. */
  ghost predicate Took(l: Ledger, m: Ledger, bs: seq<nat>) {
    && Distinct(bs)
    && Elems(bs) <= Free(l.pool) && Free(m.pool) == Free(l.pool) - Elems(bs)
    && m == l.(pool := m.pool, refcount := m.refcount, taken := l.taken + |bs|)
  }

  lemma TookStep(l: Ledger, held: multiset<nat>, m: Ledger, bs: seq<nat>, key: Key)
    requires Took(l, m, bs) && Exact(m, held + multiset(bs)) && !Empty(m.pool)
    ensures var (m', b) := Alloc(m, key); Took(l, m', bs + [b]) && Exact(m', held + multiset(bs + [b]))
  {
    AllocExact(m, held + multiset(bs), key);
    var (m', b) := Alloc(m, key);
    Snoc(bs + [b]);
    assert (bs + [b])[..|bs|] == bs;
    assert b !in Elems(bs);
  }

  lemma TookRoom(l: Ledger, m: Ledger, bs: seq<nat>)
    requires Took(l, m, bs)
    ensures |Free(m.pool)| == |Free(l.pool)| - |bs|
    ensures |bs| < |Free(l.pool)| ==> !Empty(m.pool)
  {
    DistinctSize(bs);
    EmptyMeaning(m.pool);
  }

  lemma {:induction false} AllocNExact(l: Ledger, held: multiset<nat>, key: Key, n: nat)
    requires Exact(l, held) && n <= |Free(l.pool)|
    ensures var (m, bs) := AllocN(l, key, n);
      |bs| == n && Took(l, m, bs) && Exact(m, held + multiset(bs))
  {
    if n == 0 {
      assert held + multiset([]) == held;
    } else {
      AllocNExact(l, held, key, n - 1);
      var (m, bs) := AllocN(l, key, n - 1);
      TookRoom(l, m, bs);
      TookStep(l, held, m, bs, key);
    }
  }

  lemma {:induction false} RefAllExact(l: Ledger, held: multiset<nat>, bs: seq<nat>)
    requires Exact(l, held) && forall i | 0 <= i < |bs| :: bs[i] in l.refcount
    ensures Exact(RefAll(l, bs), held + multiset(bs))
    ensures RefAll(l, bs) == l.(refcount := RefAll(l, bs).refcount)
    ensures RefAll(l, bs).refcount.Keys == l.refcount.Keys
  {
    if bs == [] {
      assert held + multiset(bs) == held;
    } else {
      var p, b := bs[..|bs| - 1], bs[|bs| - 1];
      RefAllExact(l, held, p);
      assert b in RefAll(l, p).refcount.Keys;
      RefExact(RefAll(l, p), held + multiset(p), b);
      Snoc(bs);
    }
  }

  /** What dropping references has done to l. */
  ghost predicate Dropped(l: Ledger, m: Ledger, bs: seq<nat>) {
    && m == l.(pool := m.pool, refcount := m.refcount, freed := m.freed)
    && Free(l.pool) <= Free(m.pool) <= Free(l.pool) + Elems(bs)
  }

  lemma DroppedStep(l: Ledger, held: multiset<nat>, m: Ledger, p: seq<nat>, bs: seq<nat>, b: nat)
    requires Dropped(l, m, p) && Exact(m, held - multiset(p)) && bs == p + [b] && multiset(bs) <= held
    ensures Dropped(l, Unref(m, b), bs) && Exact(Unref(m, b), held - multiset(bs))
  {
    Snoc(bs);
    assert bs[..|bs| - 1] == p;
    assert b in multiset{b};
    UnrefExact(m, held - multiset(p), b);
  }

  lemma {:induction false} UnrefAllExact(l: Ledger, held: multiset<nat>, bs: seq<nat>)
    requires Exact(l, held) && multiset(bs) <= held
    ensures Exact(UnrefAll(l, bs), held - multiset(bs)) && Dropped(l, UnrefAll(l, bs), bs)
  {
    if bs == [] {
      assert held - multiset(bs) == held;
    } else {
      Snoc(bs);
      UnrefAllExact(l, held, bs[..|bs| - 1]);
      DroppedStep(l, held, UnrefAll(l, bs[..|bs| - 1]), bs[..|bs| - 1], bs, bs[|bs| - 1]);
    }
  }

  // ---- conservation ------------------------------------------------------

  lemma {:induction false} SumFreeUpdate(frames: seq<set<nat>>, f: nat, s: set<nat>)
    requires f < |frames|
    ensures SumFree(frames[f := s]) == SumFree(frames) - |frames[f]| + |s|
  {
    var n := |frames| - 1;
    if f < n {
      SumFreeUpdate(frames[..n], f, s);
      assert frames[f := s][..n] == frames[..n][f := s];
    } else {
      assert frames[f := s][..n] == frames[..n];
    }
  }

  /** The free counter of either pool is the number of free blocks. */
  lemma {:induction false} SumFreeSize(G: pos, frames: seq<set<nat>>, cur: map<Key, nat>, n: nat)
    requires FramesOk(G, frames, n)
    ensures |Free(Framed(G, frames, cur))| == SumFree(frames)
    decreases SumFree(frames)
  {
    if SomeRoom(frames) {
      var f :| 0 <= f < |frames| && frames[f] != {};
      var o := MinOf(frames[f]);
      FrameUpdate(G, frames, cur, cur, n, f, frames[f] - {o});
      FramedRemoves(G, frames, cur, cur, n, f, o);
      SumFreeUpdate(frames, f, frames[f] - {o});
      FreeMember(G, frames, cur, n, f, o);
      SumFreeSize(G, frames[f := frames[f] - {o}], cur, n);
    } else {
      NoRoomNoSum(frames);
      EmptyMeaning(Framed(G, frames, cur));
    }
  }

  lemma {:induction false} NoRoomNoSum(frames: seq<set<nat>>)
    requires !SomeRoom(frames)
    ensures SumFree(frames) == 0
  {
    if frames != [] {
      NoRoomNoSum(frames[..|frames| - 1]);
    }
  }

  lemma NumFreeSize(l: Ledger)
    requires PoolOk(l.pool, l.numBlocks)
    ensures NumFree(l) == |Free(l.pool)|
  {
    match l.pool
    case Stack(free) =>
      DistinctSize(free);
      assert Free(l.pool) == Elems(free);
    case Framed(G, frames, cur) =>
      SumFreeSize(G, frames, cur, l.numBlocks);
  }

  /** assert_conservation never fails: live + free is the pool, and so say the counters. */
  lemma Conservation(l: Ledger, held: multiset<nat>)
    requires Exact(l, held)
    ensures |l.refcount| + NumFree(l) == l.numBlocks
    ensures l.taken - l.freed == |l.refcount|
  {
    NumFreeSize(l);
    BelowSize(l.numBlocks);
    FreeBelow(l.pool, l.numBlocks);
    assert Below(l.numBlocks) == l.refcount.Keys + Free(l.pool);
    assert l.refcount.Keys !! Free(l.pool);
  }

  // ---- operations --------------------------------------------------------

  function Admit(l: Ledger, id: int, n: nat): (Ledger, seq<nat>) {
    var (m, bs) := AllocN(l, Seq(id), n);
    (m.(tables := m.tables[id := bs]), bs)
  }

  function AdmitShared(l: Ledger, id: int, shared: seq<nat>, n: nat): (Ledger, seq<nat>) {
    var (m, bs) := AllocN(RefAll(l, shared), Seq(id), n);
    (m.(tables := m.tables[id := shared + bs]), shared + bs)
  }

  function Append(l: Ledger, id: int): (Ledger, nat)
    requires id in l.tables
  {
    var (m, b) := Alloc(l, Seq(id));
    (m.(tables := m.tables[id := l.tables[id] + [b]]), b)
  }

  function Fork(l: Ledger, parent: int, child: int): Ledger
    requires parent in l.tables
  {
    var m := RefAll(l, l.tables[parent]);
    m.(tables := m.tables[child := l.tables[parent]])
  }

  function Release(l: Ledger, id: int): Ledger
    requires id in l.tables
  {
    var m := UnrefAll(l.(tables := l.tables - {id}), l.tables[id]);
    m.(pool := Forget(m.pool, Seq(id)))
  }

  /** Drop the table's last block, as a branch that copied it does. */
  function DropTail(l: Ledger, id: int): Ledger
    requires id in l.tables && l.tables[id] != []
  {
    var t := l.tables[id];
    var m := Unref(l.(tables := l.tables[id := t[..|t| - 1]]), t[|t| - 1]);
    m.(cow := m.cow + 1)
  }

  function Extend(l: Ledger, id: int, bs: seq<nat>): Ledger
    requires id in l.tables
  {
    l.(tables := l.tables[id := l.tables[id] + bs])
  }

  /** Free every branch except number w. */
  function UnrefOthers(l: Ledger, branches: seq<seq<nat>>, w: nat): Ledger {
    if branches == [] then l else
    var n := |branches| - 1;
    var m := UnrefOthers(l, branches[..n], w);
    if n == w then m else UnrefAll(m, branches[n])
  }

  lemma UnrefOthersNext(l: Ledger, branches: seq<seq<nat>>, i: nat, w: nat)
    requires i < |branches|
    ensures UnrefOthers(l, branches[..i + 1], w)
         == if i == w then UnrefOthers(l, branches[..i], w) else UnrefAll(UnrefOthers(l, branches[..i], w), branches[i])
    ensures i == w ==> FlatOthers(branches[..i + 1], w) == FlatOthers(branches[..i], w)
  {
    hide UnrefAll;
    assert branches[..i + 1][..i] == branches[..i];
    assert FlatOthers(branches[..i], w) + [] == FlatOthers(branches[..i], w);
  }

  function Adopt(l: Ledger, id: int, replaceTail: bool, w: nat, keep: nat, branches: seq<seq<nat>>): Ledger
    requires id in l.tables && (replaceTail ==> l.tables[id] != [])
    requires w < |branches| && keep <= |branches[w]|
  {
    var m := if replaceTail then DropTail(l, id) else l;
    UnrefOthers(UnrefAll(Extend(m, id, branches[w][..keep]), branches[w][keep..]), branches, w)
  }

  function Flat(branches: seq<seq<nat>>): seq<nat> {
    if branches == [] then [] else Flat(branches[..|branches| - 1]) + branches[|branches| - 1]
  }

  /** The blocks of every branch except number w. */
  function FlatOthers(branches: seq<seq<nat>>, w: nat): seq<nat> {
    if branches == [] then [] else
    var n := |branches| - 1;
    FlatOthers(branches[..n], w) + if n == w then [] else branches[n]
  }

  lemma AdmitExact(l: Ledger, held: multiset<nat>, id: int, n: nat)
    requires Exact(l, held) && id !in l.tables && n <= |Free(l.pool)|
    ensures Exact(Admit(l, id, n).0, held)
  {
    AllocNExact(l, held, Seq(id), n);
    var (m, bs) := AllocN(l, Seq(id), n);
    RefsNew(m.tables, id, bs);
  }

  lemma AdmitSharedExact(l: Ledger, held: multiset<nat>, id: int, shared: seq<nat>, n: nat)
    requires Exact(l, held) && id !in l.tables && n <= |Free(l.pool)|
    requires forall i | 0 <= i < |shared| :: shared[i] in l.refcount
    ensures Exact(AdmitShared(l, id, shared, n).0, held)
  {
    RefAllExact(l, held, shared);
    var r := RefAll(l, shared);
    AllocNExact(r, held + multiset(shared), Seq(id), n);
    var (m, bs) := AllocN(r, Seq(id), n);
    RefsNew(m.tables, id, shared + bs);
    assert multiset(shared + bs) == multiset(shared) + multiset(bs);
  }

  lemma AppendExact(l: Ledger, held: multiset<nat>, id: int)
    requires Exact(l, held) && id in l.tables && !Empty(l.pool)
    ensures Exact(Append(l, id).0, held)
  {
    AllocExact(l, held, Seq(id));
    var (m, b) := Alloc(l, Seq(id));
    RefsExtend(m.tables, id, [b]);
    assert multiset([b]) == multiset{b};
  }

  lemma TableLive(l: Ledger, held: multiset<nat>, id: int, b: nat)
    requires Exact(l, held) && id in l.tables && b in l.tables[id]
    ensures b in l.refcount
  {
    RefsMember(l.tables, id, b);
    assert CountOf(l.refcount, b) == (Refs(l.tables) + held)[b];
  }

  lemma ForkExact(l: Ledger, held: multiset<nat>, parent: int, child: int)
    requires Exact(l, held) && parent in l.tables && child !in l.tables
    ensures Exact(Fork(l, parent, child), held)
  {
    var t := l.tables[parent];
    forall i | 0 <= i < |t|
      ensures t[i] in l.refcount
    {
      TableLive(l, held, parent, t[i]);
    }
    RefAllExact(l, held, t);
    RefsNew(l.tables, child, t);
  }

  lemma PlusMinus(a: multiset<nat>, b: multiset<nat>)
    ensures a + b - b == a && b <= a + b
  {
  }

  lemma ForgetExact(l: Ledger, held: multiset<nat>, key: Key)
    requires Exact(l, held)
    ensures Exact(l.(pool := Forget(l.pool, key)), held)
  {
    ForgetFree(l.pool, l.numBlocks, key);
  }

  lemma ReleaseExact(l: Ledger, held: multiset<nat>, id: int)
    requires Exact(l, held) && id in l.tables
    ensures Exact(Release(l, id), held)
    ensures Free(l.pool) <= Free(Release(l, id).pool)
  {
    var t := l.tables[id];
    var u := l.(tables := l.tables - {id});
    RefsPick(l.tables, id);
    assert Refs(l.tables) == Refs(l.tables - {id}) + multiset(t);
    OutOfTables(l, held, multiset(t), l.tables - {id});
    PlusMinus(held, multiset(t));
    UnrefAllExact(u, held + multiset(t), t);
    var m := UnrefAll(u, t);
    ForgetFree(m.pool, m.numBlocks, Seq(id));
  }

  lemma DropTailExact(l: Ledger, held: multiset<nat>, id: int)
    requires Exact(l, held) && id in l.tables && l.tables[id] != []
    ensures Exact(DropTail(l, id), held)
    ensures DropTail(l, id).tables == l.tables[id := l.tables[id][..|l.tables[id]| - 1]]
  {
    hide Exact, Unref, Refs;
    var t := l.tables[id];
    var p, b := t[..|t| - 1], t[|t| - 1];
    var u := l.(tables := l.tables[id := p]);
    Snoc(t);
    RefsExtend(u.tables, id, [b]);
    assert u.tables[id := p + [b]] == l.tables;
    assert multiset([b]) == multiset{b};
    OutOfTables(l, held, multiset{b}, u.tables);
    PlusMinus(held, multiset{b});
    UnrefExact(u, held + multiset{b}, b);
    UnrefTables(u, b);
    CopyCounted(Unref(u, b), held);
  }

  lemma UnrefTables(l: Ledger, b: nat)
    ensures Unref(l, b).tables == l.tables
  {
  }

  lemma CopyCounted(l: Ledger, held: multiset<nat>)
    requires Exact(l, held)
    ensures Exact(l.(cow := l.cow + 1), held)
  {
  }

  lemma ExtendExact(l: Ledger, held: multiset<nat>, id: int, bs: seq<nat>)
    requires Exact(l, held) && id in l.tables && multiset(bs) <= held
    ensures Exact(Extend(l, id, bs), held - multiset(bs))
  {
    RefsExtend(l.tables, id, bs);
    assert held - multiset(bs) + multiset(bs) == held;
  }

  lemma {:induction false} UnrefOthersExact(l: Ledger, held: multiset<nat>, branches: seq<seq<nat>>, w: nat)
    requires Exact(l, held) && multiset(FlatOthers(branches, w)) <= held
    ensures Exact(UnrefOthers(l, branches, w), held - multiset(FlatOthers(branches, w)))
    ensures UnrefOthers(l, branches, w).tables == l.tables
  {
    if branches == [] {
      assert held - multiset([]) == held;
    } else {
      var n := |branches| - 1;
      var p := branches[..n];
      var q := if n == w then [] else branches[n];
      assert multiset(FlatOthers(branches, w)) == multiset(FlatOthers(p, w)) + multiset(q);
      UnrefOthersExact(l, held, p, w);
      if n == w {
        assert multiset(q) == multiset{};
      } else {
        UnrefAllExact(UnrefOthers(l, p, w), held - multiset(FlatOthers(p, w)), q);
      }
    }
  }

  lemma {:induction false} FlatSplit(branches: seq<seq<nat>>, w: nat)
    requires w < |branches|
    ensures multiset(Flat(branches)) == multiset(branches[w]) + multiset(FlatOthers(branches, w))
  {
    var n := |branches| - 1;
    assert multiset(Flat(branches)) == multiset(Flat(branches[..n])) + multiset(branches[n]);
    if w < n {
      FlatSplit(branches[..n], w);
      assert multiset(FlatOthers(branches, w)) == multiset(FlatOthers(branches[..n], w)) + multiset(branches[n]);
    } else {
      FlatNoChoice(branches[..n], w);
      assert FlatOthers(branches, w) == Flat(branches[..n]);
    }
  }

  lemma {:induction false} FlatNoChoice(branches: seq<seq<nat>>, w: nat)
    requires |branches| <= w
    ensures FlatOthers(branches, w) == Flat(branches)
  {
    if branches != [] {
      FlatNoChoice(branches[..|branches| - 1], w);
    }
  }

  /** Committing one branch returns every branch block: adopted, or freed. */
  lemma AdoptExact(l: Ledger, held: multiset<nat>, id: int, replaceTail: bool, w: nat, keep: nat,
                   branches: seq<seq<nat>>)
    requires Exact(l, held) && id in l.tables && (replaceTail ==> l.tables[id] != [])
    requires w < |branches| && keep <= |branches[w]| && multiset(Flat(branches)) <= held
    ensures Exact(Adopt(l, id, replaceTail, w, keep, branches), held - multiset(Flat(branches)))
  {
    hide Exact, DropTail, Extend, UnrefAll, UnrefOthers, Flat, FlatOthers;
    var kept, rest := branches[w][..keep], branches[w][keep..];
    BranchParts(held, branches, w, keep);
    var m := if replaceTail then DropTail(l, id) else l;
    if replaceTail {
      DropTailExact(l, held, id);
    }
    ExtendExact(m, held, id, kept);
    var u := Extend(m, id, kept);
    UnrefAllExact(u, held - multiset(kept), rest);
    UnrefOthersExact(UnrefAll(u, rest), held - multiset(kept) - multiset(rest), branches, w);
  }

  /** All branch blocks are the kept ones, the rest of that branch, and the other branches. */
  lemma BranchParts(held: multiset<nat>, branches: seq<seq<nat>>, w: nat, keep: nat)
    requires w < |branches| && keep <= |branches[w]| && multiset(Flat(branches)) <= held
    ensures var a, b := multiset(branches[w][..keep]), multiset(branches[w][keep..]);
      var o := multiset(FlatOthers(branches, w));
      a <= held && b <= held - a && o <= held - a - b && held - a - b - o == held - multiset(Flat(branches))
  {
    hide Flat, FlatOthers;
    assert branches[w] == branches[w][..keep] + branches[w][keep..];
    assert multiset(branches[w]) == multiset(branches[w][..keep]) + multiset(branches[w][keep..]);
    FlatSplit(branches, w);
  }

  // ---- what freeing leaves alone -----------------------------------------

  lemma {:induction false} UnrefAllCur(l: Ledger, bs: seq<nat>)
    ensures Current(UnrefAll(l, bs).pool) == Current(l.pool) && UnrefAll(l, bs).tables == l.tables
    ensures UnrefAll(l, bs).numBlocks == l.numBlocks
  {
    if bs != [] {
      UnrefAllCur(l, bs[..|bs| - 1]);
    }
  }

  lemma {:induction false} UnrefOthersCur(l: Ledger, branches: seq<seq<nat>>, w: nat)
    ensures var m := UnrefOthers(l, branches, w);
      Current(m.pool) == Current(l.pool) && m.tables == l.tables && m.numBlocks == l.numBlocks
  {
    if branches != [] {
      var n := |branches| - 1;
      UnrefOthersCur(l, branches[..n], w);
      UnrefAllCur(UnrefOthers(l, branches[..n], w), branches[n]);
    }
  }

  lemma DropTailCur(l: Ledger, id: int)
    requires id in l.tables && l.tables[id] != []
    ensures var m := DropTail(l, id);
      && Current(m.pool) == Current(l.pool) && m.numBlocks == l.numBlocks
      && m.tables == l.tables[id := l.tables[id][..|l.tables[id]| - 1]]
  {
  }

  /** The table a committed branch is spliced into; the others stay. */
  lemma AdoptTables(l: Ledger, id: int, replaceTail: bool, w: nat, keep: nat, branches: seq<seq<nat>>)
    requires id in l.tables && (replaceTail ==> l.tables[id] != [])
    requires w < |branches| && keep <= |branches[w]|
    ensures var t, m := l.tables[id], Adopt(l, id, replaceTail, w, keep, branches);
      && Current(m.pool) == Current(l.pool) && m.numBlocks == l.numBlocks
      && m.tables == l.tables[id := (if replaceTail then t[..|t| - 1] else t) + branches[w][..keep]]
  {
    hide DropTail, UnrefAll, UnrefOthers;
    var kept := branches[w][..keep];
    if replaceTail { DropTailCur(l, id); }
    var u := Extend(if replaceTail then DropTail(l, id) else l, id, kept);
    UnrefAllCur(u, branches[w][keep..]);
    UnrefOthersCur(UnrefAll(u, branches[w][keep..]), branches, w);
  }
}
