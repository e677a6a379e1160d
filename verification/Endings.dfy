// What oracle admission keeps free at every step boundary, under every policy, and two whole
// runs that end in an exception.
module Endings {
  import opened Results
  import opened AllocatorView
  import opened Backend
  import opened KVAllocator
  import opened SimState
  import opened SimSteps
  import opened SimGrowth
  import opened Schedule
  import opened Outcomes
  import opened SimLists
  import opened SimCounts
  import opened Simulator
  import Contiguous

  // ---- room under oracle admission ---------------------------------------

  /** Every running sequence owes what is left of its reservation. */
  lemma {:induction false} ReservedSum(a: seq<SeqState>, reserved: Contiguous.Lists, tables: Tables)
    requires RidsDistinct(a) && forall k :: k in reserved <==> HasRid(a, k)
    requires forall i | 0 <= i < |a| :: a[i].rid in reserved && Owed(a[i], tables) == |reserved[a[i].rid]|
    ensures Committed(a, tables) == Contiguous.SumLens(reserved)
  {
    if a == [] {
      assert forall k: int :: k !in reserved;
    } else {
      hide Owed;
      var n := |a| - 1;
      var rid := a[n].rid;
      Contiguous.SumLensPick(reserved, rid);
      forall k
        ensures k in reserved - {rid} <==> HasRid(a[..n], k)
      {
        if i :| 0 <= i < |a| && a[i].rid == k && k != rid { assert a[..n][i].rid == k; }
        if i :| 0 <= i < n && a[..n][i].rid == k { assert a[i].rid == k; }
      }
      ReservedSum(a[..n], reserved - {rid}, tables);
    }
  }

  /** Under the contiguous policy the tables are those of the running sequences. */
  lemma SpannedKeys(cfg: Config, active: seq<SeqState>, cache: Cache, s: Store)
    requires Good(cfg, active, cache, s) && cfg.spanned
    ensures forall k :: k in s.tables <==> HasRid(active, k)
  {
    hide SeqOk;
    assert cache == map[];
  }

  /** Under the contiguous policy committed() is exactly the unconsumed reservations, and the
      free blocks beyond it are exactly the free extents. */
  lemma SpannedCommitted(sim: Simulation)
    requires sim.Ok() && sim.cfg.spanned
    ensures var l, s := sim.alloc.o.View(), sim.alloc.Now();
      && Committed(sim.active, s.tables) == Contiguous.SumLens(l.reserved)
      && FreeCount(s) - Committed(sim.active, s.tables) == Contiguous.SumSizes(l.extents)
  {
    hide FreeCount, Contiguous.Inv, SeqOk;
    var l, s := sim.alloc.o.View(), sim.alloc.Now();
    SpannedFree(l);
    GoodParts(sim.cfg, sim.active, sim.cache, s);
    SpannedKeys(sim.cfg, sim.active, sim.cache, s);
    forall k
      ensures k in l.reserved <==> HasRid(sim.active, k)
    {
      Contiguous.KeysMatch(l, k);
    }
    forall i | 0 <= i < |sim.active|
      ensures sim.active[i].rid in l.reserved && Owed(sim.active[i], s.tables) == |l.reserved[sim.active[i].rid]|
    {
      OwedReserved(sim.cfg, sim.cache, l, s, sim.active[i]);
    }
    ReservedSum(sim.active, l.reserved, s.tables);
  }

  lemma OwedReserved(cfg: Config, cache: Cache, l: Contiguous.Layout, s: Store, st: SeqState)
    requires cfg.spanned && s == SpannedStore(l) && SeqOk(cfg, cache, s, st) && Contiguous.Inv(l)
    ensures st.rid in l.reserved && Owed(st, s.tables) == |l.reserved[st.rid]|
  {
    hide Contiguous.Inv;
    SeqHasTable(cfg, cache, s, st);
    SpanHas(cfg, cache, s, st);
    Contiguous.KeysMatch(l, st.rid);
    SlackAt(l.reserved, st.rid);
  }

  /** Oracle admission is safe: at every step boundary the free blocks cover all that is
      committed, under every policy and speculation mode, and what is committed is not negative. */
  lemma RoomAlways(sim: Simulation)
    requires sim.Boundary() && sim.cfg.oracle
    ensures FreeCount(sim.alloc.Now()) >= Committed(sim.active, sim.alloc.Now().tables) >= 0
  {
    hide FreeCount, SeqOk, Backend.Valid, Backend.Now;
    GoodParts(sim.cfg, sim.active, sim.cache, sim.alloc.Now());
    CommittedNat(sim.cfg, sim.active, sim.cache, sim.alloc.Now());
    if sim.cfg.spanned {
      SpannedCommitted(sim);
    } else {
      SpareIs(sim.active, sim.alloc.Now());
    }
  }

  // ---- two runs that raise -----------------------------------------------

  /** A run on a fresh stack pool. */
  method RunFresh(cfg: Config, blocks: nat, reqs: seq<Request>, draws: Draws)
    returns (outcome: Outcome, ghost ended: seq<int>, dropped: seq<int>, ghost n: nat)
    requires !cfg.spanned && !cfg.compacts && RequestsOk(cfg, reqs)
    ensures Looped(cfg, blocks, reqs, draws, Idle(blocks), n) == Over(outcome, ended, dropped)
  {
    hide Looped, RequestsOk, FreeCount;
    var a := new Allocator.Paged(blocks);
    var sim := new Simulation(cfg, Paged(a));
    FreshFree(blocks);
    var completed;
    ghost var log;
    outcome, completed, dropped, ended, log := sim.Run(reqs, draws);
    n := |log|;
  }

  lemma FreshFree(n: nat)
    ensures FreeCount(Store(n, false, map[], multiset{}, map[], map[])) == n
  {
    assert Live(Store(n, false, map[], multiset{}, map[], map[])) == {};
  }

  /** vllm admission: a finished sequence preempted in the same step raises a KeyError. */
  method KeyErrorRun() returns (outcome: Outcome)
    ensures outcome == KeyError
  {
    hide Looped;
    ghost var ended, n;
    var dropped;
    var cfg, reqs := Plain(false, None), [Asks(0, 1, 1), Asks(1, 2, 2)];
    outcome, ended, dropped, n := RunFresh(cfg, 4, reqs, NoDraws());
    PreemptedWhenFinished();
    OneEnding(cfg, 4, reqs, NoDraws(), Idle(4), n, 1);
  }

  /** Oracle admission: copy-back runs out of blocks beside its branches. */
  method AdmissionFailureRun() returns (outcome: Outcome)
    ensures outcome == AdmissionFailure
  {
    hide Looped;
    ghost var ended, n;
    var dropped;
    var cfg, reqs := Plain(true, Some(SpecParams(1, 0, true))), [Asks(0, 1, 1)];
    outcome, ended, dropped, n := RunFresh(cfg, 2, reqs, NoDraws());
    BranchTakesLast();
    OneEnding(cfg, 2, reqs, NoDraws(), Idle(2), n, 1);
  }
}
