// The history of a run: the loop on counts round by round, and lengths that never decrease.
module SimHistory {
  import opened Counting
  import opened SimState
  import opened SimTally
  import opened SimRounds
  import opened Schedule
  import opened SimLists

  ghost predicate Listed(q: Sched, st: SeqState) {
    st in q.active || st in q.waiting
  }

  /** No sequence listed in both has fewer tokens in q than in p. */
  ghost predicate Older(p: Sched, q: Sched) {
    forall o, st | Listed(p, o) && Listed(q, st) && o.rid == st.rid :: o.length <= st.length
  }

  /** Lengths never decrease, across preemption and readmission. */
  ghost predicate Grows(log: seq<Sched>) {
    forall n, m | 0 <= n <= m < |log| :: Older(log[n], log[m])
  }

  /** Listed so far: only requests reached. */
  ghost predicate Reached(reqs: seq<Request>, i: nat, rid: int)
    requires i <= |reqs|
  {
    exists k | 0 <= k < i :: reqs[k].rid == rid
  }

  ghost predicate ListedBefore(log: seq<Sched>, reqs: seq<Request>, i: nat)
    requires i <= |reqs|
  {
    forall n, st | 0 <= n < |log| && Listed(log[n], st) :: Reached(reqs, i, st.rid)
  }

  /** log is the loop on counts, from its start on. */
  ghost predicate Logged(cfg: Config, blocks: nat, reqs: seq<Request>, draws: Draws, q0: Sched, log: seq<Sched>) {
    forall n | 0 <= n < |log| ::
      && Looped(cfg, blocks, reqs, draws, q0, n).Going?
      && Looped(cfg, blocks, reqs, draws, q0, n).q == log[n]
  }

  /** After admission: listed before, no longer than now, or a request just reached. */
  ghost predicate Relisted(a: seq<SeqState>, w: seq<SeqState>, a': seq<SeqState>, w': seq<SeqState>,
                           reqs: seq<Request>, i0: nat, i: nat)
    requires i <= |reqs|
  {
    forall st | st in a' || st in w' :: Elder(a, w, st) || Starts(st, reqs, i0, i)
  }

  lemma ArrivedListed(a0: seq<SeqState>, w0: seq<SeqState>, a: seq<SeqState>, a': seq<SeqState>, w: seq<SeqState>,
                      reqs: seq<Request>, i0: nat, i: nat)
    requires i <= |reqs| && NoShorter(a0, w0, a, w) && a <= a' && Newcomers(a', |a|, reqs, i0, i)
    ensures Relisted(a0, w0, a', w, reqs, i0, i)
  {
    forall st | st in a' || st in w
      ensures Elder(a0, w0, st) || Starts(st, reqs, i0, i)
    {
      if st in w {
        assert Elder(a0, w0, st);
      } else {
        var x :| 0 <= x < |a'| && a'[x] == st;
        if x < |a| { assert a[x] == st && st in a; } else { assert Starts(a'[x], reqs, i0, i); }
      }
    }
  }

  /** Entries with one rid are one entry. */
  lemma SelfOlder(q: Sched)
    requires Once(q.active, q.waiting)
    ensures Older(q, q)
  {
    hide Rids;
    forall o, st | Listed(q, o) && Listed(q, st) && o.rid == st.rid
      ensures o.length <= st.length
    {
      Twice(q.active, q.waiting, o, st);
    }
  }

  lemma Twice(a: seq<SeqState>, w: seq<SeqState>, o: SeqState, st: SeqState)
    requires Once(a, w) && (o in a || o in w) && (st in a || st in w) && o.rid == st.rid
    ensures o == st
  {
    var all := a + w;
    RidsConcat(a, w);
    assert o in all && st in all;
    var i :| 0 <= i < |all| && all[i] == o;
    var j :| 0 <= j < |all| && all[j] == st;
    assert Rids(all)[o.rid] <= 1;
    if i < j { CountTwo(all, i, j); }
    if j < i { CountTwo(all, j, i); }
  }

  lemma LastRid(q: seq<SeqState>)
    requires q != []
    ensures Rids(q) == Rids(q[..|q| - 1]) + multiset{q[|q| - 1].rid}
  {
  }

  lemma {:induction false} CountTwo(q: seq<SeqState>, i: nat, j: nat)
    requires i < j < |q| && q[i].rid == q[j].rid
    ensures Rids(q)[q[i].rid] >= 2
  {
    var n := |q| - 1;
    var p := q[..n];
    LastRid(q);
    hide Rids;
    if j < n {
      CountTwo(p, i, j);
    } else {
      RidsMember(p, q[i].rid);
      assert p[i].rid == q[i].rid;
    }
  }

  /** One more round, by admission to m and then a step to q', adds no shorter sequence. */
  lemma HistoryNext(log: seq<Sched>, q: Sched, reqs: seq<Request>, i0: nat, i: nat, m: Sched, q': Sched)
    requires i0 <= i <= |reqs| && DistinctRequests(reqs) && Grows(log + [q]) && ListedBefore(log + [q], reqs, i0)
    requires Relisted(q.active, q.waiting, m.active, m.waiting, reqs, i0, i)
    requires NoShorter(m.active, m.waiting, q'.active, q'.waiting) && Once(q'.active, q'.waiting)
    ensures Grows(log + [q] + [q']) && ListedBefore(log + [q] + [q'], reqs, i)
  {
    hide Once, Older;
    var l := log + [q];
    var l' := l + [q'];
    SelfOlder(q');
    forall n | 0 <= n < |l|
      ensures Older(l[n], q')
    {
      assert l[|log|] == q && Older(l[n], l[|log|]);
      forall st | Listed(l[n], st)
        ensures Reached(reqs, i0, st.rid)
      {
      }
      OlderNext(l[n], q, reqs, i0, i, m, q');
    }
    forall n, k | 0 <= n <= k < |l'|
      ensures Older(l'[n], l'[k])
    {
      if k < |l| { assert l'[n] == l[n] && l'[k] == l[k]; }
    }
    forall n, st | 0 <= n < |l'| && Listed(l'[n], st)
      ensures Reached(reqs, i, st.rid)
    {
      if n < |l| {
        assert l'[n] == l[n] && Reached(reqs, i0, st.rid);
        Later(reqs, i0, i, st.rid);
      } else {
        assert l[|log|] == q;
        NewReached(q, reqs, i0, i, m, q', st);
      }
    }
  }

  lemma Later(reqs: seq<Request>, i0: nat, i: nat, rid: int)
    requires i0 <= i <= |reqs| && Reached(reqs, i0, rid)
    ensures Reached(reqs, i, rid)
  {
    var k :| 0 <= k < i0 && reqs[k].rid == rid;
    assert 0 <= k < i && reqs[k].rid == rid;
  }

  /** Whoever is listed after a step was listed before, or is a request just reached. */
  lemma Ancestor(q: Sched, reqs: seq<Request>, i0: nat, i: nat, m: Sched, q': Sched, st: SeqState) returns (o: SeqState)
    requires i <= |reqs| && Relisted(q.active, q.waiting, m.active, m.waiting, reqs, i0, i)
    requires NoShorter(m.active, m.waiting, q'.active, q'.waiting) && Listed(q', st)
    ensures o.rid == st.rid && o.length <= st.length
    ensures Listed(q, o) || Starts(o, reqs, i0, i)
  {
    assert Elder(m.active, m.waiting, st);
    o :| (o in m.active || o in m.waiting) && o.rid == st.rid && o.length <= st.length;
    if !Starts(o, reqs, i0, i) {
      assert Elder(q.active, q.waiting, o);
      var p :| (p in q.active || p in q.waiting) && p.rid == o.rid && p.length <= o.length;
      o := p;
    }
  }

  lemma NewReached(q: Sched, reqs: seq<Request>, i0: nat, i: nat, m: Sched, q': Sched, st: SeqState)
    requires i0 <= i <= |reqs| && Relisted(q.active, q.waiting, m.active, m.waiting, reqs, i0, i)
    requires NoShorter(m.active, m.waiting, q'.active, q'.waiting) && Listed(q', st)
    requires forall o | Listed(q, o) :: Reached(reqs, i0, o.rid)
    ensures Reached(reqs, i, st.rid)
  {
    var o := Ancestor(q, reqs, i0, i, m, q', st);
    if Listed(q, o) { Later(reqs, i0, i, o.rid); }
  }

  lemma OlderNext(p: Sched, q: Sched, reqs: seq<Request>, i0: nat, i: nat, m: Sched, q': Sched)
    requires i0 <= i <= |reqs| && DistinctRequests(reqs) && Older(p, q)
    requires Relisted(q.active, q.waiting, m.active, m.waiting, reqs, i0, i)
    requires NoShorter(m.active, m.waiting, q'.active, q'.waiting)
    requires forall o | Listed(p, o) :: Reached(reqs, i0, o.rid)
    ensures Older(p, q')
  {
    hide Relisted, NoShorter, Listed;
    forall o, st | Listed(p, o) && Listed(q', st) && o.rid == st.rid
      ensures o.length <= st.length
    {
      var a := Ancestor(q, reqs, i0, i, m, q', st);
      NotNew(reqs, i0, i, o.rid);
    }
  }

  /** A request reached before is none of those just reached. */
  lemma NotNew(reqs: seq<Request>, i0: nat, i: nat, rid: int)
    requires i0 <= i <= |reqs| && DistinctRequests(reqs) && Reached(reqs, i0, rid)
    ensures forall k | i0 <= k < i :: reqs[k].rid != rid
  {
    var k' :| 0 <= k' < i0 && reqs[k'].rid == rid;
    assert forall k | i0 <= k < i :: reqs[k'].rid != reqs[k].rid;
  }

  lemma NothingLogged(cfg: Config, blocks: nat, reqs: seq<Request>, draws: Draws, q0: Sched)
    requires q0.active == [] && q0.waiting == []
    ensures Looped(cfg, blocks, reqs, draws, q0, 0) == Going(q0, 0, 0, [], [])
    ensures Logged(cfg, blocks, reqs, draws, q0, [])
    ensures Grows([] + [q0]) && ListedBefore([] + [q0], reqs, 0)
  {
  }

  lemma LoggedNext(cfg: Config, blocks: nat, reqs: seq<Request>, draws: Draws, q0: Sched, log: seq<Sched>, s: Loop)
    requires s.Going? && Looped(cfg, blocks, reqs, draws, q0, |log|) == s && Logged(cfg, blocks, reqs, draws, q0, log)
    ensures Looped(cfg, blocks, reqs, draws, q0, |log + [s.q]|) == Iterate(cfg, blocks, reqs, draws, s)
    ensures Logged(cfg, blocks, reqs, draws, q0, log + [s.q])
  {
    hide Iterate;
  }

  /** The loop on counts, past the admission phase. */
  lemma Admission(cfg: Config, blocks: nat, reqs: seq<Request>, draws: Draws, q0: Sched, log: seq<Sched>,
                  q: Sched, i0: nat, t: nat, ended: seq<int>, dropped: seq<int>, m: Sched, i: nat, gone: seq<int>)
    requires Looped(cfg, blocks, reqs, draws, q0, |log|) == Going(q, i0, t, ended, dropped)
    requires Logged(cfg, blocks, reqs, draws, q0, log) && (m, i, gone) == AfterAdmission(cfg, blocks, q, reqs, i0, t)
    requires i0 < |reqs| || q.active != [] || q.waiting != []
    ensures Logged(cfg, blocks, reqs, draws, q0, log + [q])
    ensures Looped(cfg, blocks, reqs, draws, q0, |log + [q]|) ==
              if m.active == [] then
                if i < |reqs| then Going(m, i, Max(t + 1, reqs[i].arrival), ended, dropped + gone)
                else Over(Finished, ended, dropped + gone)
              else match AfterStep(cfg, m, t, draws)
                   case Raises(e) => Over(e, ended, dropped + gone)
                   case Goes(r, finished) => Going(r, i, t + 1, ended + finished, dropped + gone)
  {
    hide Looped, Logged, AfterAdmission, AfterStep;
    LoggedNext(cfg, blocks, reqs, draws, q0, log, Going(q, i0, t, ended, dropped));
  }

  lemma LoopEnds(cfg: Config, blocks: nat, reqs: seq<Request>, draws: Draws, q0: Sched, log: seq<Sched>,
                 q: Sched, i: nat, t: nat, ended: seq<int>, dropped: seq<int>)
    requires Looped(cfg, blocks, reqs, draws, q0, |log|) == Going(q, i, t, ended, dropped)
    requires Logged(cfg, blocks, reqs, draws, q0, log) && i >= |reqs| && q.active == [] && q.waiting == []
    ensures Logged(cfg, blocks, reqs, draws, q0, log + [q])
    ensures Looped(cfg, blocks, reqs, draws, q0, |log + [q]|) == Over(Finished, ended, dropped)
  {
    hide Looped, Logged;
    LoggedNext(cfg, blocks, reqs, draws, q0, log, Going(q, i, t, ended, dropped));
  }
}
