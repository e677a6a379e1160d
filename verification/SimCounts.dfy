// The loop's phases against the scheduler on counts, and small facts about the scheduler's
// store that the loop needs.
module SimCounts {
  import opened Counting
  import opened Results
  import opened Bookkeeping
  import opened AllocatorView
  import opened SimState
  import opened SimGrowth
  import opened SimTally
  import opened SimRounds
  import opened Schedule
  import opened SimLists

  lemma StartGood(cfg: Config, s: Store)
    requires s.tables == map[] && s.spanned == cfg.spanned
    ensures Good(cfg, [], map[], s) && Spare([], s) == FreeCount(s)
  {
    assert forall k: int :: k !in s.tables;
  }

  /** The tests in terms of free blocks are those on counts. */
  lemma {:induction false} PromisesMeaning(cfg: Config, active: seq<SeqState>, cache: Cache, s: Store)
    requires forall i | 0 <= i < |active| :: SeqOk(cfg, cache, s, active[i])
    ensures Committed(active, s.tables) == Promises(cfg, active)
  {
    hide SeqOk;
    if active != [] {
      var n := |active| - 1;
      PromisesMeaning(cfg, active[..n], cache, s);
      SeqHasTable(cfg, cache, s, active[n]);
    }
  }

  lemma GateMeaning(cfg: Config, active: seq<SeqState>, cache: Cache, s: Store, q: Sched, st: SeqState)
    requires forall i | 0 <= i < |active| :: SeqOk(cfg, cache, s, active[i])
    requires q.active == active && q.free == FreeCount(s)
    ensures GateTest(cfg, q, st) <==>
              if cfg.oracle then Spare(active, s) >= TotalWithScratch(cfg, st) - SharedCount(cfg, st)
              else FreeCount(s) - (Ceil(st.length, cfg.bt) - SharedCount(cfg, st)) >= cfg.watermark
  {
    hide SeqOk, FreeCount;
    PromisesMeaning(cfg, active, cache, s);
  }

  lemma RoomIs(cfg: Config, active: seq<SeqState>, s: Store)
    requires Room(cfg, active, s) && !cfg.spanned
    ensures cfg.oracle ==> Spare(active, s) >= 0
  {
  }

  lemma SpareIs(active: seq<SeqState>, s: Store)
    ensures Spare(active, s) == FreeCount(s) - Committed(active, s.tables)
  {
  }

  /** A running sequence's position is where it is found. */
  lemma PlaceIs(a: seq<SeqState>, j: nat)
    requires j < |a| && RidsDistinct(a)
    ensures Place(a, a[j].rid) == j
  {
    var k := Place(a, a[j].rid);
    assert k <= j;
  }

  lemma NoneAlone(s: Store)
    ensures s.held == multiset{} ==> HeldAlone(s)
  {
  }

  lemma {:induction false} FlatSize(branches: seq<seq<nat>>, n: nat)
    requires forall i | 0 <= i < |branches| :: |branches[i]| == n
    ensures |Flat(branches)| == |branches| * n
  {
    if branches != [] {
      var k := |branches| - 1;
      FlatSize(branches[..k], n);
      MulDistributes(k, 1, n);
    }
  }

  /** Holding branches lowers the spare blocks by their size. */
  lemma HeldSpare(active: seq<SeqState>, s0: Store, s: Store, branches: seq<seq<nat>>, n: nat)
    requires Branched(s0, s, branches, |branches|, n) && FreeCount(s) == FreeCount(s0) - |branches| * n
    ensures Spare(active, s) + |branches| * n == Spare(active, s0)
  {
    hide FreeCount, Committed;
  }

  /** An outcome, with those dropped before it. */
  function Onward<T>(dropped: seq<int>, r: (Sched, T, seq<int>)): (Sched, T, seq<int>) {
    (r.0, r.1, dropped + r.2)
  }

  lemma OnwardNone<T>(r: (Sched, T, seq<int>))
    ensures Onward([], r) == r
  {
    assert [] + r.2 == r.2;
  }

  lemma OnwardTwice<T>(a: seq<int>, b: seq<int>, r: (Sched, T, seq<int>))
    ensures Onward(a, Onward(b, r)) == Onward(a + b, r)
  {
    assert a + (b + r.2) == a + b + r.2;
  }

  /** One turn of the loop over the preempted queue. */
  lemma QueueNext(cfg: Config, blocks: nat, q: Sched, m: Sched, h: HeadStep, dropped: seq<int>, dropped': seq<int>)
    requires q.waiting != [] && |q.active| < cfg.maxBatch && (m, h) == AfterHead(cfg, blocks, q)
    requires dropped' == if h.Leaves? then dropped + [q.waiting[0].rid] else dropped
    ensures Onward(dropped, AfterQueue(cfg, blocks, q))
         == if h.Blocks? then (m, true, dropped) else Onward(dropped', AfterQueue(cfg, blocks, m))
  {
    hide AfterHead;
    var d := if h.Leaves? then [q.waiting[0].rid] else [];
    assert dropped + [] == dropped;
    assert !h.Blocks? ==> AfterQueue(cfg, blocks, q) == Onward(d, AfterQueue(cfg, blocks, m));
    hide AfterQueue;
    OnwardTwice(dropped, d, AfterQueue(cfg, blocks, m));
  }

  lemma QueueEnds(cfg: Config, blocks: nat, q: Sched, dropped: seq<int>)
    requires q.waiting == [] || |q.active| >= cfg.maxBatch
    ensures Onward(dropped, AfterQueue(cfg, blocks, q)) == (q, false, dropped)
  {
    assert dropped + [] == dropped;
  }

  /** One turn of the loop over the arrivals. */
  lemma ArrivalsNext(cfg: Config, q: Sched, m: Sched, ok: bool, reqs: seq<Request>, i: nat, t: nat,
                     dropped: seq<int>, dropped': seq<int>)
    requires i < |reqs| && reqs[i].arrival <= t && |q.active| < cfg.maxBatch
    requires (m, ok) == AfterTry(cfg, q, Fresh(reqs[i]))
    requires ok ==> dropped' == dropped
    requires !ok && q.active == [] ==> dropped' == dropped + [reqs[i].rid]
    ensures Onward(dropped, AfterArrivals(cfg, q, reqs, i, t))
         == if !ok && q.active != [] then (m, i, dropped) else Onward(dropped', AfterArrivals(cfg, m, reqs, i + 1, t))
  {
    hide AfterTry;
    var r := AfterArrivals(cfg, m, reqs, i + 1, t);
    assert dropped + [] == dropped;
    assert dropped + ([reqs[i].rid] + r.2) == dropped + [reqs[i].rid] + r.2;
    assert dropped + ([] + r.2) == dropped + r.2;
  }

  lemma ArrivalsEnd(cfg: Config, q: Sched, reqs: seq<Request>, i: nat, t: nat, dropped: seq<int>)
    requires i >= |reqs| || reqs[i].arrival > t || |q.active| >= cfg.maxBatch
    ensures Onward(dropped, AfterArrivals(cfg, q, reqs, i, t)) == (q, i, dropped)
  {
    assert dropped + [] == dropped;
  }

  lemma NoTurns(cfg: Config, q: Sched, ids: seq<int>, t: nat, draws: Draws)
    ensures AfterTurns(cfg, q, ids[..0], t, draws) == Some((q, []))
  {
  }

  lemma TurnsNext(cfg: Config, q: Sched, ids: seq<int>, x: nat, t: nat, draws: Draws)
    requires x < |ids|
    ensures AfterTurns(cfg, q, ids[..x + 1], t, draws) ==
              match AfterTurns(cfg, q, ids[..x], t, draws)
              case None => None
              case Some((m, finished)) => AfterNext(cfg, m, finished, ids[x], t, draws)
  {
    assert ids[..x + 1][..x] == ids[..x];
  }

  lemma {:induction false} TurnsFail(cfg: Config, q: Sched, ids: seq<int>, x: nat, t: nat, draws: Draws)
    requires x <= |ids| && AfterTurns(cfg, q, ids[..x], t, draws).None?
    ensures AfterTurns(cfg, q, ids, t, draws).None?
    decreases |ids| - x
  {
    if x < |ids| {
      TurnsNext(cfg, q, ids, x, t, draws);
      TurnsFail(cfg, q, ids, x + 1, t, draws);
    } else {
      assert ids[..x] == ids;
    }
  }

  lemma NoneLeaves(cfg: Config, q: Sched, finished: seq<int>)
    ensures AfterLeaving(cfg, q, finished[..0]) == Some(q)
  {
  }

  lemma LeavesNext(cfg: Config, q: Sched, finished: seq<int>, x: nat)
    requires x < |finished|
    ensures AfterLeaving(cfg, q, finished[..x + 1]) ==
              match AfterLeaving(cfg, q, finished[..x])
              case None => None
              case Some(m) =>
                var j := Place(m.active, finished[x]);
                if j < |m.active|
                then Some(m.(free := m.free + OwnBlocks(cfg, m.active[j]), active := Rest(m.active, j)))
                else None
  {
    hide Place, OwnBlocks, Rest;
    assert finished[..x + 1][..x] == finished[..x];
  }

  lemma {:induction false} LeavingFails(cfg: Config, q: Sched, finished: seq<int>, x: nat)
    requires x <= |finished| && AfterLeaving(cfg, q, finished[..x]).None?
    ensures AfterLeaving(cfg, q, finished).None?
    decreases |finished| - x
  {
    if x < |finished| {
      LeavesNext(cfg, q, finished, x);
      LeavingFails(cfg, q, finished, x + 1);
    } else {
      assert finished[..x] == finished;
    }
  }

  lemma TotalPositive(cfg: Config, st: SeqState)
    requires Known(cfg, st)
    ensures st.rid >= 0 && TotalWithScratch(cfg, st) > 0
    ensures Ceil(st.length, cfg.bt) + ScratchPerSeq(cfg) <= TotalWithScratch(cfg, st)
  {
    CeilMono(st.length, st.totalLen, cfg.bt);
    CeilMono(1, st.totalLen, cfg.bt);
    CeilUnique(1, cfg.bt, 1);
  }

  /** The reservation holds the scratch region. */
  lemma SlackLeft(cfg: Config, s: Store, m: Store, st: SeqState, bs: seq<nat>)
    requires Admits(s, m, st.rid, bs, TotalWithScratch(cfg, st)) && s.spanned && |bs| == Ceil(st.length, cfg.bt)
    requires Known(cfg, st)
    ensures st.rid in m.slack && m.slack[st.rid] >= ScratchPerSeq(cfg) && st.rid in m.tables
  {
    TotalPositive(cfg, st);
  }

  lemma PrefixLive(cfg: Config, cache: Cache, s: Store, p: nat)
    requires CacheOk(cfg, cache, s) && p in cache
    ensures forall b | b in cache[p] :: b in Refs(s.tables)
  {
    forall b | b in cache[p]
      ensures b in Refs(s.tables)
    {
      Bookkeeping.RefsMember(s.tables, CacheId(p), b);
    }
  }

  lemma NoScratch(cfg: Config, cache: Cache, s: Store, st: SeqState)
    requires SeqOk(cfg, cache, s, st) && !cfg.spanned
    ensures st.scratch == []
  {
  }

  lemma RetireHeld(s: Store, s': Store, id: int, ren: map<nat, nat>, compacts: bool)
    requires Retires(s, s', id, ren, compacts) && id !in s.scratch
    ensures s'.held == s.held
  {
  }

  lemma NoneFlat(branches: seq<seq<nat>>)
    ensures multiset(Flat(branches)) - multiset(Flat(branches[..0])) == multiset(Flat(branches))
  {
  }

  lemma RunningKnown(cfg: Config, active: seq<SeqState>, cache: Cache, s: Store)
    requires Good(cfg, active, cache, s)
    ensures AllKnown(cfg, active)
  {
    hide Covered, Reserved, Promised;
  }

  lemma ScratchIs(cfg: Config, cache: Cache, s: Store, st: SeqState)
    requires SeqOk(cfg, cache, s, st)
    ensures st.scratch == if cfg.spanned && st.rid in s.scratch then s.scratch[st.rid] else []
  {
  }

  lemma UnpinGood(cfg: Config, cache: Cache, s: Store, p: nat)
    requires Good(cfg, [], cache, s) && p in cache && AllDistinct((Without(s, CacheId(p))).tables)
    ensures Good(cfg, [], cache - {p}, Without(s, CacheId(p)))
  {
    var s' := Without(s, CacheId(p));
    forall k
      ensures k in s'.tables <==> HasRid([], k) || IsCacheId(cache - {p}, k)
    {
      assert k in s'.tables <==> k in s.tables && k != CacheId(p);
    }
  }
}
