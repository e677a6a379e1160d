// Accounting over the scheduler's lists: which requests they hold, and how much work is left.
module SimTally {
  import opened SimState

  ghost function Rids(q: seq<SeqState>): multiset<int> {
    if q == [] then multiset{} else Rids(q[..|q| - 1]) + multiset{q[|q| - 1].rid}
  }

  /** Preemptions a sequence may still suffer, and tokens it has to go. */
  function WorkOf(st: SeqState): nat {
    (if st.preempts <= 1001 then 1002 - st.preempts else 0) +
    (if st.length <= st.totalLen then st.totalLen - st.length else 0)
  }

  ghost function Work(q: seq<SeqState>): nat {
    if q == [] then 0 else Work(q[..|q| - 1]) + WorkOf(q[|q| - 1])
  }

  lemma RidsSnoc(q: seq<SeqState>, p: seq<SeqState>, st: SeqState)
    requires q == p + [st]
    ensures Rids(q) == Rids(p) + multiset{st.rid}
  {
    assert q[..|q| - 1] == p;
  }

  lemma NoRids()
    ensures Rids([]) == multiset{}
  {
  }

  lemma {:induction false} RidsConcat(a: seq<SeqState>, b: seq<SeqState>)
    ensures Rids(a + b) == Rids(a) + Rids(b)
  {
    hide Rids;
    NoRids();
    if b == [] {
      assert a + b == a;
    } else {
      var p, x := b[..|b| - 1], multiset{b[|b| - 1].rid};
      RidsConcat(a, p);
      RidsSnoc(a + b, a + p, b[|b| - 1]);
      RidsSnoc(b, p, b[|b| - 1]);
    }
  }

  lemma {:induction false} WorkConcat(a: seq<SeqState>, b: seq<SeqState>)
    ensures Work(a + b) == Work(a) + Work(b)
  {
    hide WorkOf;
    if b == [] {
      assert a + b == a;
    } else {
      WorkConcat(a, b[..|b| - 1]);
      assert (a + b)[..|a + b| - 1] == a + b[..|b| - 1];
    }
  }

  lemma Concat(a: seq<SeqState>, b: seq<SeqState>)
    ensures Rids(a + b) == Rids(a) + Rids(b) && Work(a + b) == Work(a) + Work(b)
  {
    RidsConcat(a, b);
    WorkConcat(a, b);
  }

  lemma One(st: SeqState)
    ensures Rids([st]) == multiset{st.rid} && Work([st]) == WorkOf(st)
  {
    assert [st][..0] == [];
  }

  lemma Pick(q: seq<SeqState>, j: nat)
    requires j < |q|
    ensures Rids(q) == Rids(q[..j] + q[j + 1..]) + multiset{q[j].rid}
    ensures Work(q) == Work(q[..j] + q[j + 1..]) + WorkOf(q[j])
  {
    hide Rids, Work, WorkOf;
    var a, x, b := q[..j], [q[j]], q[j + 1..];
    assert q == a + x + b;
    Concat(a + x, b);
    Concat(a, x);
    Concat(a, b);
    One(q[j]);
  }

  lemma Update(q: seq<SeqState>, j: nat, st: SeqState)
    requires j < |q| && st.rid == q[j].rid
    ensures Rids(q[j := st]) == Rids(q)
    ensures Work(q[j := st]) == Work(q) - WorkOf(q[j]) + WorkOf(st)
  {
    Pick(q, j);
    Pick(q[j := st], j);
    assert q[j := st][..j] + q[j := st][j + 1..] == q[..j] + q[j + 1..];
  }

  lemma {:induction false} RidsMember(q: seq<SeqState>, k: int)
    ensures k in Rids(q) <==> HasRid(q, k)
  {
    if q != [] {
      var n := |q| - 1;
      RidsMember(q[..n], k);
      if HasRid(q[..n], k) {
        var i :| 0 <= i < n && q[..n][i].rid == k;
        assert q[i].rid == k;
      }
      if i :| 0 <= i < |q| && q[i].rid == k {
        assert i < n ==> q[..n][i].rid == k;
      }
    }
  }

  // ---- requests ----------------------------------------------------------

  /** The sequence a request starts as. */
  function Fresh(r: Request): SeqState {
    SeqState(r.rid, r.promptLen, r.promptLen + r.outputLen, 0, [], r.prefix, r.prefixLen, 0)
  }

  function FreshAll(reqs: seq<Request>): seq<SeqState> {
    seq(|reqs|, i requires 0 <= i < |reqs| => Fresh(reqs[i]))
  }

  ghost predicate DistinctRequests(reqs: seq<Request>) {
    forall i, j | 0 <= i < j < |reqs| :: reqs[i].rid != reqs[j].rid
  }

  /** A request not reached yet is none of those reached. */
  lemma NotYet(reqs: seq<Request>, i: nat)
    requires DistinctRequests(reqs) && i < |reqs|
    ensures reqs[i].rid !in Rids(FreshAll(reqs[..i]))
  {
    RidsMember(FreshAll(reqs[..i]), reqs[i].rid);
  }

  /** Requests reached hold each rid once. */
  lemma {:induction false} AtMostOnce(reqs: seq<Request>, i: nat, k: int)
    requires DistinctRequests(reqs) && i <= |reqs|
    ensures Rids(FreshAll(reqs[..i]))[k] <= 1
  {
    if i == 0 {
      NoRids();
    } else {
      hide Rids, FreshAll;
      AtMostOnce(reqs, i - 1, k);
      NextReached(reqs, i - 1);
      NotYet(reqs, i - 1);
    }
  }

  lemma NextReached(reqs: seq<Request>, i: nat)
    requires i < |reqs|
    ensures Rids(FreshAll(reqs[..i + 1])) == Rids(FreshAll(reqs[..i])) + multiset{reqs[i].rid}
    ensures Work(FreshAll(reqs[i..])) == Work(FreshAll(reqs[i + 1..])) + WorkOf(Fresh(reqs[i]))
  {
    assert FreshAll(reqs[..i + 1]) == FreshAll(reqs[..i]) + [Fresh(reqs[i])];
    Concat(FreshAll(reqs[..i]), [Fresh(reqs[i])]);
    One(Fresh(reqs[i]));
    assert FreshAll(reqs[i..]) == [Fresh(reqs[i])] + FreshAll(reqs[i + 1..]);
    Concat([Fresh(reqs[i])], FreshAll(reqs[i + 1..]));
  }
}
