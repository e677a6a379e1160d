// The order in which blocks come back to the stack, and so the order in which they are handed
// out again.
module StackOrder {
  import opened Counting
  import opened Pool
  import opened Bookkeeping

  /** Every one of the blocks has one reference, and none is listed twice. */
  ghost predicate Single(l: Ledger, bs: seq<nat>) {
    Distinct(bs) && forall i | 0 <= i < |bs| :: Rc(l, bs[i]) == 1
  }

  /** Only the listed blocks lose references, and they go on the stack in the order listed. */
  lemma {:induction false} UnrefInOrder(l: Ledger, bs: seq<nat>)
    requires l.pool.Stack? && Single(l, bs)
    ensures UnrefAll(l, bs).pool == Stack(l.pool.free + bs)
    ensures forall x: nat | x !in bs :: Rc(UnrefAll(l, bs), x) == Rc(l, x)
  {
    if bs == [] {
      assert l.pool.free + bs == l.pool.free;
    } else {
      var n := |bs| - 1;
      var p, b := bs[..n], bs[n];
      UnrefInOrder(l, p);
      assert b !in p;
      assert l.pool.free + p + [b] == l.pool.free + bs;
      assert bs == p + [b];
    }
  }

  /** release: the blocks of a table no one shares come back in the table's order. */
  lemma ReleaseInOrder(l: Ledger, id: int)
    requires l.pool.Stack? && id in l.tables && Single(l, l.tables[id])
    ensures Release(l, id).pool == Stack(l.pool.free + l.tables[id])
  {
    hide UnrefAll;
    UnrefInOrder(l.(tables := l.tables - {id}), l.tables[id]);
  }

  /** From l to m the blocks bs were taken from the stack: its last ones, last first, each now
      with one reference. */
  ghost predicate Popped(l: Ledger, m: Ledger, bs: seq<nat>)
    requires l.pool.Stack?
  {
    var free := l.pool.free;
    && |bs| <= |free| && m.pool == Stack(free[..|free| - |bs|])
    && (forall i | 0 <= i < |bs| :: bs[i] == free[|free| - 1 - i])
    && m.tables == l.tables && forall b | b in bs :: Rc(m, b) == 1
  }

  lemma PoppedNone(l: Ledger)
    requires l.pool.Stack?
    ensures Popped(l, l, [])
  {
    assert l.pool.free[..|l.pool.free| - 0] == l.pool.free;
  }

  lemma PoppedNext(l: Ledger, m: Ledger, bs: seq<nat>, key: Key)
    requires l.pool.Stack? && Popped(l, m, bs) && |bs| < |l.pool.free|
    ensures var (m', b) := Alloc(m, key); Popped(l, m', bs + [b])
  {
    var free, n := l.pool.free, |bs|;
    var (m', b) := Alloc(m, key);
    assert free[..|free| - n][..|free| - n - 1] == free[..|free| - (n + 1)];
    assert b == free[|free| - 1 - n];
  }

  lemma {:induction false} AllocInOrder(l: Ledger, key: Key, n: nat)
    requires l.pool.Stack? && n <= |l.pool.free|
    ensures var (m, bs) := AllocN(l, key, n); |bs| == n && Popped(l, m, bs)
  {
    hide Popped, Alloc;
    if n == 0 {
      PoppedNone(l);
    } else {
      AllocInOrder(l, key, n - 1);
      var (m, bs) := AllocN(l, key, n - 1);
      PoppedNext(l, m, bs, key);
    }
  }

  lemma SameSingle(l: Ledger, m: Ledger, bs: seq<nat>)
    requires Single(l, bs) && m.refcount == l.refcount
    ensures Single(m, bs)
  {
  }

  lemma PoppedSingle(l: Ledger, m: Ledger, bs: seq<nat>)
    requires l.pool.Stack? && Popped(l, m, bs) && Distinct(l.pool.free)
    ensures Single(m, bs)
  {
    var free := l.pool.free;
    forall i, j | 0 <= i < j < |bs|
      ensures bs[i] != bs[j]
    {
      assert free[|free| - 1 - j] != free[|free| - 1 - i];
    }
    forall i | 0 <= i < |bs|
      ensures Rc(m, bs[i]) == 1
    {
      assert bs[i] in bs;
    }
  }

  /** Admitted and released again, n blocks lie on the stack in reverse. */
  lemma RoundTripReverses(l: Ledger, held: multiset<nat>, id: int, n: nat)
    requires Exact(l, held) && l.pool.Stack? && n <= |l.pool.free|
    ensures var (m, bs) := Admit(l, id, n); var k := |l.pool.free| - n;
      && Release(m, id).pool == Stack(l.pool.free[..k] + bs)
      && |bs| == n && forall i | 0 <= i < n :: bs[i] == l.pool.free[k..][n - 1 - i]
  {
    hide Counted, Partition, Refs, AllocN, Release, Single;
    AllocInOrder(l, Seq(id), n);
    var (a, bs) := AllocN(l, Seq(id), n);
    var m := Admit(l, id, n).0;
    PoppedSingle(l, a, bs);
    SameSingle(a, m, bs);
    ReleaseInOrder(m, id);
  }

  lemma UnrefAllJoin(l: Ledger, a: seq<nat>, b: seq<nat>)
    ensures UnrefAll(l, a + b) == UnrefAll(UnrefAll(l, a), b)
  {
    if b == [] {
      assert a + b == a;
    } else {
      UnrefAllJoin(l, a, b[..|b| - 1]);
      assert (a + b)[..|a + b| - 1] == a + b[..|b| - 1];
    }
  }

  lemma NoneUnref(l: Ledger)
    ensures UnrefAll(l, []) == l
  {
  }

  lemma {:induction false} OthersInOrder(l: Ledger, branches: seq<seq<nat>>, w: nat)
    ensures UnrefOthers(l, branches, w) == UnrefAll(l, FlatOthers(branches, w))
  {
    hide UnrefAll;
    if branches == [] {
      NoneUnref(l);
    } else {
      var n := |branches| - 1;
      OthersInOrder(l, branches[..n], w);
      var p := FlatOthers(branches[..n], w);
      UnrefAllJoin(l, p, branches[n]);
      assert p + [] == p;
    }
  }

  /** The blocks a committed branch gives back: the copied tail, its own overflow, and then the
      other branches. */
  function GivenBack(l: Ledger, id: int, replaceTail: bool, w: nat, keep: nat, branches: seq<seq<nat>>): seq<nat>
    requires id in l.tables && (replaceTail ==> l.tables[id] != [])
    requires w < |branches| && keep <= |branches[w]|
  {
    (if replaceTail then [l.tables[id][|l.tables[id]| - 1]] else []) + branches[w][keep..] + FlatOthers(branches, w)
  }

  lemma SameUnref(l: Ledger, m: Ledger, bs: seq<nat>)
    requires m.refcount == l.refcount && m.pool == l.pool && m.pool.Stack? && Single(l, bs)
    ensures UnrefAll(m, bs).pool == Stack(l.pool.free + bs)
  {
    UnrefInOrder(m, bs);
  }

  /** spec_round_adopt: they come back in that order. */
  lemma AdoptInOrder(l: Ledger, id: int, replaceTail: bool, w: nat, keep: nat, branches: seq<seq<nat>>)
    requires l.pool.Stack? && id in l.tables && (replaceTail ==> l.tables[id] != [])
    requires w < |branches| && keep <= |branches[w]|
    requires Single(l, GivenBack(l, id, replaceTail, w, keep, branches))
    ensures Adopt(l, id, replaceTail, w, keep, branches).pool
         == Stack(l.pool.free + GivenBack(l, id, replaceTail, w, keep, branches))
  {
    hide UnrefAll, UnrefOthers, FlatOthers;
    var x, y := branches[w][keep..], FlatOthers(branches, w);
    var m := if replaceTail then DropTail(l, id) else l;
    var e := Extend(m, id, branches[w][..keep]);
    OthersInOrder(UnrefAll(e, x), branches, w);
    UnrefAllJoin(e, x, y);
    var all := GivenBack(l, id, replaceTail, w, keep, branches);
    if replaceTail {
      var b := l.tables[id][|l.tables[id]| - 1];
      assert all == [b] + (x + y);
      RestSingle(l, m, b, x + y);
      SameUnref(m, e, x + y);
      assert l.pool.free + [b] + (x + y) == l.pool.free + all;
    } else {
      assert all == x + y;
      SameUnref(l, e, x + y);
    }
  }

  lemma RestSingle(l: Ledger, m: Ledger, b: nat, bs: seq<nat>)
    requires Single(l, [b] + bs) && forall x: nat | x != b :: Rc(m, x) == Rc(l, x)
    ensures Single(m, bs) && Rc(l, b) == 1
  {
    var all := [b] + bs;
    assert all[0] == b;
    assert forall i | 0 <= i < |bs| :: bs[i] == all[i + 1];
  }
}
