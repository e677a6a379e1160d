// When runs over a shared pool raise: two runs that do, what a step that raises looks like,
// and free blocks enough for a step to raise nothing.
module Outcomes {
  import opened Counting
  import opened Results
  import opened SimState
  import opened SimGrowth
  import opened SimTally
  import opened SimRounds
  import opened Schedule

  // ---- admission ---------------------------------------------------------

  /** The final footprint, less the prefix blocks when they are pinned, and on top of them when not. */
  function Footprint(cfg: Config, q: Sched, st: SeqState): int {
    if PinHeld(cfg, q, st) then TotalWithScratch(cfg, st) - SharedCount(cfg, st)
    else TotalWithScratch(cfg, st) + SharedCount(cfg, st)
  }

  /** The prompt's blocks, less those of a pinned prefix. */
  function Prompt(cfg: Config, q: Sched, st: SeqState): int {
    if PinHeld(cfg, q, st) then OwnBlocks(cfg, st) else Ceil(st.length, cfg.bt)
  }

  /** The gate after a pin never fails: one test decides. */
  lemma TryMeaning(cfg: Config, q: Sched, st: SeqState)
    ensures AfterTry(cfg, q, st).1 <==>
              if cfg.oracle
              then q.free - Promises(cfg, q.active) >= Footprint(cfg, q, st)
              else q.free - Prompt(cfg, q, st) >= cfg.watermark
  {
  }

  /** A failed test changes nothing: a pin that succeeds is followed by an admission. */
  lemma TryFails(cfg: Config, q: Sched, st: SeqState)
    ensures !AfterTry(cfg, q, st).1 ==> AfterTry(cfg, q, st).0 == q
  {
  }

  /** Arrivals are dropped in the order they arrived, only while no one runs, and each because
      it fails the test in the very state the phase began in. */
  lemma {:induction false} ArrivalsDrop(cfg: Config, q: Sched, reqs: seq<Request>, i: nat, t: nat)
    ensures var (r, n, dropped) := AfterArrivals(cfg, q, reqs, i, t);
      && (dropped != [] ==> q.active == []) && i + |dropped| <= n <= Max(i, |reqs|)
      && forall x | 0 <= x < |dropped| :: dropped[x] == reqs[i + x].rid && !AfterTry(cfg, q, Fresh(reqs[i + x])).1
    decreases |reqs| - i
  {
    hide AfterTry;
    if i < |reqs| && reqs[i].arrival <= t && |q.active| < cfg.maxBatch {
      TryActive(cfg, q, Fresh(reqs[i]));
      TryFails(cfg, q, Fresh(reqs[i]));
      var (m, ok) := AfterTry(cfg, q, Fresh(reqs[i]));
      ArrivalsDrop(cfg, m, reqs, i + 1, t);
      if ok || q.active == [] {
        var rest := AfterArrivals(cfg, m, reqs, i + 1, t).2;
        var d := if ok then [] else [reqs[i].rid];
        assert ok ==> rest == [];
        assert d + rest == if ok then [] else [reqs[i].rid] + rest;
      }
    }
  }

  /** st, of the preempted queue, is dropped for good reason: preempted too often, too long for
      the pool, or failing the test with no one running. */
  ghost predicate Unplaceable(cfg: Config, blocks: nat, q: Sched, st: SeqState) {
    st.preempts > 1000 || st.length + 1 > blocks * cfg.bt || (q.active == [] && !AfterTry(cfg, q, st).1)
  }

  /** Too long for the pool: one more token would not fit all of it. */
  lemma HopelessMeaning(cfg: Config, blocks: nat, st: SeqState)
    ensures Hopeless(cfg, blocks, st) <==> st.preempts > 1000 || st.length + 1 > blocks * cfg.bt
  {
    var c := Ceil(st.length + 1, cfg.bt);
    CeilMeaning(st.length + 1, cfg.bt, c * cfg.bt);
    if c <= blocks { MulMono(c, blocks, cfg.bt); } else { MulMono(blocks + 1, c, cfg.bt); }
  }

  ghost predicate DroppedFrom(cfg: Config, blocks: nat, q: Sched, d: int) {
    exists st | st in q.waiting :: st.rid == d && Unplaceable(cfg, blocks, q, st)
  }

  /** Only such sequences are dropped from the preempted queue. */
  lemma {:induction false} QueueDrops(cfg: Config, blocks: nat, q: Sched)
    ensures forall d | d in AfterQueue(cfg, blocks, q).2 :: DroppedFrom(cfg, blocks, q, d)
    decreases |q.waiting|
  {
    hide AfterTry, Hopeless;
    if q.waiting != [] && |q.active| < cfg.maxBatch {
      var st := q.waiting[0];
      var (m, h) := AfterHead(cfg, blocks, q);
      if !h.Blocks? {
        QueueDrops(cfg, blocks, m);
        HeadDrops(cfg, blocks, q);
        var rest := AfterQueue(cfg, blocks, m).2;
        forall d | d in AfterQueue(cfg, blocks, q).2
          ensures DroppedFrom(cfg, blocks, q, d)
        {
          if d !in rest { assert h.Leaves? && d == st.rid && st in q.waiting; }
        }
      }
    }
  }

  lemma HeadDrops(cfg: Config, blocks: nat, q: Sched)
    requires q.waiting != []
    ensures var (m, h) := AfterHead(cfg, blocks, q);
      && (h.Leaves? ==> Unplaceable(cfg, blocks, q, q.waiting[0]))
      && (!h.Blocks? ==> forall d | DroppedFrom(cfg, blocks, m, d) :: DroppedFrom(cfg, blocks, q, d))
  {
    hide AfterTry, Hopeless;
    var (m, h) := AfterHead(cfg, blocks, q);
    TryActive(cfg, q, q.waiting[0]);
    TryFails(cfg, q, q.waiting[0]);
    HopelessMeaning(cfg, blocks, q.waiting[0]);
    if !h.Blocks? {
      forall d | DroppedFrom(cfg, blocks, m, d)
        ensures DroppedFrom(cfg, blocks, q, d)
      {
        var st :| st in m.waiting && st.rid == d && Unplaceable(cfg, blocks, m, st);
        assert st in q.waiting;
        TryMeaning(cfg, q, st);
        TryMeaning(cfg, m, st);
      }
    }
  }

  lemma TryActive(cfg: Config, q: Sched, st: SeqState)
    ensures AfterTry(cfg, q, st).1 ==> AfterTry(cfg, q, st).0.active != []
    ensures !AfterTry(cfg, q, st).1 ==> AfterTry(cfg, q, st).0.active == q.active
  {
  }

  // ---- departures --------------------------------------------------------

  /** A KeyError is raised exactly for a finished sequence that no longer runs. */
  lemma {:induction false} LeavingMeaning(cfg: Config, q: Sched, finished: seq<int>)
    requires Distinct(finished) && RidsDistinct(q.active)
    ensures AfterLeaving(cfg, q, finished).None? <==> exists f | f in finished :: !HasRid(q.active, f)
    ensures AfterLeaving(cfg, q, finished).Some? ==>
              forall k :: HasRid(AfterLeaving(cfg, q, finished).value.active, k)
                  <==> HasRid(q.active, k) && k !in finished
    ensures AfterLeaving(cfg, q, finished).Some? ==> RidsDistinct(AfterLeaving(cfg, q, finished).value.active)
  {
    if finished != [] {
      var n := |finished| - 1;
      var p, f := finished[..n], finished[n];
      assert finished == p + [f] && f !in p;
      LeavingMeaning(cfg, q, p);
      LeavingLast(cfg, q, p, f);
      hide AfterLeaving, Place, OwnBlocks, RidsDistinct, Rest, HasRid;
      if AfterLeaving(cfg, q, p).Some? { LeaverRids(AfterLeaving(cfg, q, p).value.active, f); }
    }
  }

  lemma LeavingLast(cfg: Config, q: Sched, p: seq<int>, f: int)
    ensures AfterLeaving(cfg, q, p + [f]) ==
              match AfterLeaving(cfg, q, p)
              case None => None
              case Some(m) =>
                var j := Place(m.active, f);
                if j < |m.active|
                then Some(m.(free := m.free + OwnBlocks(cfg, m.active[j]), active := Rest(m.active, j)))
                else None
  {
    hide Place, OwnBlocks;
    assert (p + [f])[..|p|] == p;
  }

  lemma LeaverRids(a: seq<SeqState>, f: int)
    requires RidsDistinct(a)
    ensures Place(a, f) < |a| <==> HasRid(a, f)
    ensures Place(a, f) < |a| ==> RidsDistinct(Rest(a, Place(a, f)))
    ensures Place(a, f) < |a| ==> forall k :: HasRid(Rest(a, Place(a, f)), k) <==> HasRid(a, k) && k != f
  {
    if Place(a, f) < |a| { RestRids(a, Place(a, f)); }
  }

  lemma RestRids(a: seq<SeqState>, j: nat)
    requires j < |a| && RidsDistinct(a)
    ensures RidsDistinct(Rest(a, j)) && forall k :: HasRid(Rest(a, j), k) <==> HasRid(a, k) && k != a[j].rid
  {
    var r := Rest(a, j);
    forall k
      ensures HasRid(r, k) <==> HasRid(a, k) && k != a[j].rid
    {
      if i :| 0 <= i < |a| && a[i].rid == k && k != a[j].rid {
        assert r[if i < j then i else i - 1] == a[i];
      }
      if i :| 0 <= i < |r| && r[i].rid == k {
        assert a[if i < j then i else i + 1] == r[i];
      }
    }
  }

  // ---- blocks enough for a step ------------------------------------------

  /** Tokens st may commit in one turn. */
  function Most(cfg: Config, st: SeqState): nat {
    if cfg.spec.Some? then Accepted(st, cfg.spec.value.depth) else 1
  }

  /** Blocks st may take in one turn. */
  function Share(cfg: Config, st: SeqState): int {
    Growth(cfg, st.length, st.length + Most(cfg, st))
  }

  function Shares(cfg: Config, a: seq<SeqState>): int {
    if a == [] then 0 else Share(cfg, a[0]) + Shares(cfg, a[1..])
  }

  /** Blocks copy-back holds for its branches beside the tail. */
  function Beside(cfg: Config): nat {
    if cfg.spec.Some? && cfg.spec.value.copyback
    then cfg.spec.value.width * ScratchBlocks(cfg.spec.value, cfg.bt) else 0
  }

  /** The free blocks cover what everyone may take, and one round's branches. */
  predicate Calm(cfg: Config, q: Sched, a: seq<SeqState>) {
    q.free >= Shares(cfg, a) + Beside(cfg)
  }

  lemma GrowthMono(cfg: Config, from: nat, to: nat, to': nat)
    requires from <= to <= to'
    ensures 0 <= Growth(cfg, from, to) <= Growth(cfg, from, to')
  {
    CeilMono(from, to, cfg.bt);
    CeilMono(to, to', cfg.bt);
  }

  lemma {:induction false} SharesNat(cfg: Config, a: seq<SeqState>)
    ensures Shares(cfg, a) >= 0
  {
    if a != [] {
      SharesNat(cfg, a[1..]);
      GrowthMono(cfg, a[0].length, a[0].length, a[0].length + Most(cfg, a[0]));
    }
  }

  lemma PlaceOf(a: seq<SeqState>, j: nat)
    requires j < |a| && RidsDistinct(a)
    ensures Place(a, a[j].rid) == j
  {
    var k := Place(a, a[j].rid);
    assert k <= j;
  }

  /** Enough free blocks: the tokens are committed and no one is preempted. */
  lemma CommitCalm(cfg: Config, q: Sched, j: nat, adv: nat)
    requires j < |q.active| && RidsDistinct(q.active)
    requires q.free >= Growth(cfg, q.active[j].length, q.active[j].length + adv)
    ensures var st := q.active[j];
      AfterCommit(cfg, q, j, adv) == Some(q.(free := q.free - Growth(cfg, st.length, st.length + adv),
                                             active := Longer(q.active, j, st.length + adv)))
  {
    PlaceOf(q.active, j);
  }

  /** A turn within its share. */
  ghost predicate Calmed(cfg: Config, q: Sched, j: nat, r: Option<Sched>)
    requires j < |q.active|
  {
    && r.Some? && r.value.waiting == q.waiting && r.value.pinned == q.pinned
    && r.value.free >= q.free - Share(cfg, q.active[j])
    && exists len: nat :: r.value.active == Longer(q.active, j, len)
  }

  lemma BesideEnough(cfg: Config, st: SeqState)
    requires cfg.spec.Some? && cfg.spec.value.copyback
    ensures BranchBlocks(cfg, cfg.spec.value, st) <= Beside(cfg)
  {
    var p := cfg.spec.value;
    CeilMono(st.length % cfg.bt + p.depth + 1, cfg.bt - 1 + p.depth + 1, cfg.bt);
    MulMono(BranchSize(cfg, p, st), ScratchBlocks(p, cfg.bt), p.width);
    assert p.width * BranchSize(cfg, p, st) == BranchSize(cfg, p, st) * p.width;
    assert p.width * ScratchBlocks(p, cfg.bt) == ScratchBlocks(p, cfg.bt) * p.width;
  }

  lemma RoundCalm(cfg: Config, q: Sched, j: nat, k: nat)
    requires cfg.spec.Some? && k <= cfg.spec.value.depth && j < |q.active| && RidsDistinct(q.active)
    requires q.active[j].length < q.active[j].totalLen && q.free >= Share(cfg, q.active[j]) + Beside(cfg)
    ensures Calmed(cfg, q, j, AfterRound(cfg, q, j, k))
  {
    hide AfterCommit, Growth, BranchBlocks, Beside;
    var p, st := cfg.spec.value, q.active[j];
    var adv, most := Accepted(st, k), Accepted(st, p.depth);
    var n := BranchBlocks(cfg, p, st);
    assert 1 <= adv <= most;
    GrowthMono(cfg, st.length, st.length + 1, st.length + most);
    GrowthMono(cfg, st.length, st.length + adv, st.length + most);
    PlaceOf(q.active, j);
    if q.free < n {
      CommitCalm(cfg, q, j, 1);
    } else if p.copyback {
      BesideEnough(cfg, st);
      CommitCalm(cfg, q.(free := q.free - n), j, adv);
    }
  }

  lemma TurnCalm(cfg: Config, q: Sched, j: nat, t: nat, draws: Draws)
    requires j < |q.active| && RidsDistinct(q.active)
    requires q.active[j].length < q.active[j].totalLen && q.free >= Share(cfg, q.active[j]) + Beside(cfg)
    ensures Calmed(cfg, q, j, AfterTurn(cfg, q, j, t, draws))
  {
    hide AfterCommit, AfterRound, Beside;
    if cfg.spec.Some? {
      RoundCalm(cfg, q, j, Min(draws(t, q.active[j].rid).0, cfg.spec.value.depth));
    } else {
      CommitCalm(cfg, q, j, 1);
    }
  }

  /** The first x turns of a calm step. */
  ghost predicate CalmStep(cfg: Config, q: Sched, x: nat, r: Option<(Sched, seq<int>)>)
    requires x <= |q.active|
  {
    && r.Some? && r.value.0.waiting == q.waiting && r.value.0.pinned == q.pinned
    && RidSeq(r.value.0.active) == RidSeq(q.active) && r.value.0.active[x..] == q.active[x..]
    && Calm(cfg, r.value.0, q.active[x..])
    && Distinct(r.value.1) && forall f | f in r.value.1 :: f in RidSeq(q.active)[..x]
  }

  lemma SameSeq(a: seq<SeqState>, b: seq<SeqState>)
    requires RidSeq(a) == RidSeq(b)
    ensures |a| == |b| && forall i | 0 <= i < |a| :: a[i].rid == b[i].rid
    ensures RidsDistinct(a) <==> RidsDistinct(b)
    ensures forall k :: HasRid(a, k) <==> HasRid(b, k)
  {
    assert |RidSeq(a)| == |a| && |RidSeq(b)| == |b|;
    forall i | 0 <= i < |a|
      ensures a[i].rid == b[i].rid
    {
      assert RidSeq(a)[i] == RidSeq(b)[i];
    }
    forall k
      ensures HasRid(a, k) <==> HasRid(b, k)
    {
      if i :| 0 <= i < |a| && a[i].rid == k { assert b[i].rid == k; }
      if i :| 0 <= i < |b| && b[i].rid == k { assert a[i].rid == k; }
    }
  }

  lemma LongerSeq(a: seq<SeqState>, j: nat, len: nat)
    requires j < |a|
    ensures RidSeq(Longer(a, j, len)) == RidSeq(a) && Longer(a, j, len)[j + 1..] == a[j + 1..]
  {
  }

  /** One more turn of a calm step. */
  lemma CalmNext(cfg: Config, q: Sched, x: nat, m: Sched, finished: seq<int>, t: nat, draws: Draws)
    requires x < |q.active| && RidsDistinct(q.active)
    requires (forall i | 0 <= i < |q.active| :: q.active[i].length < q.active[i].totalLen)
    requires CalmStep(cfg, q, x, Some((m, finished)))
    ensures CalmStep(cfg, q, x + 1, AfterNext(cfg, m, finished, RidSeq(q.active)[x], t, draws))
  {
    hide AfterTurn, Share, Beside;
    SameSeq(m.active, q.active);
    assert m.active[x] == m.active[x..][0] && q.active[x] == q.active[x..][0];
    var rid := RidSeq(q.active)[x];
    PlaceOf(m.active, x);
    SharesNat(cfg, q.active[x..][1..]);
    assert q.active[x..][1..] == q.active[x + 1..];
    TurnCalm(cfg, m, x, t, draws);
    var m' := AfterTurn(cfg, m, x, t, draws).value;
    var len :| m'.active == Longer(m.active, x, len);
    LongerSeq(m.active, x, len);
    assert m.active[x + 1..] == m.active[x..][1..];
    RollOn(q.active, x, finished);
  }

  lemma RollOn(a: seq<SeqState>, x: nat, finished: seq<int>)
    requires x < |a| && RidsDistinct(a) && Distinct(finished) && forall f | f in finished :: f in RidSeq(a)[..x]
    ensures Distinct(finished + [a[x].rid])
    ensures forall f | f in finished + [a[x].rid] :: f in RidSeq(a)[..x + 1]
  {
    var ids := RidSeq(a);
    assert ids[..x + 1] == ids[..x] + [a[x].rid];
    forall f | f in finished
      ensures f != a[x].rid
    {
      var i :| 0 <= i < x && ids[..x][i] == f;
      assert a[i].rid == f;
    }
    assert forall i | 0 <= i < |finished| :: finished[i] in finished;
  }

  lemma {:induction false} CalmTurns(cfg: Config, q: Sched, x: nat, t: nat, draws: Draws)
    requires x <= |q.active| && RidsDistinct(q.active) && Calm(cfg, q, q.active)
    requires forall i | 0 <= i < |q.active| :: q.active[i].length < q.active[i].totalLen
    ensures CalmStep(cfg, q, x, AfterTurns(cfg, q, RidSeq(q.active)[..x], t, draws))
  {
    var ids := RidSeq(q.active);
    if x == 0 {
      assert q.active[0..] == q.active;
    } else {
      CalmTurns(cfg, q, x - 1, t, draws);
      hide CalmStep;
      assert ids[..x][..x - 1] == ids[..x - 1];
      var r := AfterTurns(cfg, q, ids[..x - 1], t, draws);
      CalmSome(cfg, q, x - 1, r);
      CalmNext(cfg, q, x - 1, r.value.0, r.value.1, t, draws);
    }
  }

  lemma CalmSome(cfg: Config, q: Sched, x: nat, r: Option<(Sched, seq<int>)>)
    requires x <= |q.active| && CalmStep(cfg, q, x, r)
    ensures r.Some? && r == Some((r.value.0, r.value.1))
  {
  }

  /** With free blocks for what everyone may take, and for one round's branches under copy-back,
      a step raises nothing and preempts no one, under either admission mode. */
  lemma CalmRaisesNothing(cfg: Config, q: Sched, t: nat, draws: Draws)
    requires RidsDistinct(q.active) && Calm(cfg, q, q.active)
    requires forall i | 0 <= i < |q.active| :: q.active[i].length < q.active[i].totalLen
    ensures AfterStep(cfg, q, t, draws).Goes? && AfterStep(cfg, q, t, draws).q.waiting == q.waiting
  {
    hide Calm;
    var ids := RidSeq(q.active);
    CalmTurns(cfg, q, |q.active|, t, draws);
    assert ids[..|q.active|] == ids;
    var r := AfterTurns(cfg, q, ids, t, draws);
    var m, finished := r.value.0, r.value.1;
    SameSeq(m.active, q.active);
    forall f | f in finished
      ensures HasRid(m.active, f)
    {
      var i :| 0 <= i < |ids| && ids[i] == f;
      assert q.active[i].rid == f;
    }
    LeavingMeaning(cfg, m, finished);
    LeavingWaits(cfg, m, finished);
  }

  lemma {:induction false} LeavingWaits(cfg: Config, q: Sched, finished: seq<int>)
    ensures AfterLeaving(cfg, q, finished).Some? ==> AfterLeaving(cfg, q, finished).value.waiting == q.waiting
  {
    if finished != [] {
      LeavingWaits(cfg, q, finished[..|finished| - 1]);
    }
  }

  // ---- two runs that end in an exception ---------------------------------

  /** One-token blocks, no watermark. */
  function Plain(oracle: bool, spec: Option<SpecParams>): Config {
    Config(1, 8, oracle, 0, spec, false, false, map[])
  }

  function NoDraws(): Draws {
    (t, rid) => (0, 0)
  }

  /** A request at step 0 without a prefix. */
  function Asks(rid: int, prompt: nat, output: nat): Request {
    Request(rid, 0, prompt, output, None, 0)
  }

  function Idle(blocks: nat): Sched {
    Sched(blocks, [], [], {})
  }

  lemma CeilOne(a: nat)
    ensures Ceil(a, 1) == a
  {
    CeilUnique(a, 1, a);
  }

  function At(rid: int, length: nat, total: nat): SeqState {
    SeqState(rid, length, total, total, [], None, 0, 0)
  }

  /** Without prefixes and watermark a request enters when its prompt, or under oracle
      admission its final length, fits the free blocks not promised. */
  lemma EntersPlain(oracle: bool, spec: Option<SpecParams>, q: Sched, rid: int, prompt: nat, output: nat)
    requires q.free - (if oracle then Promises(Plain(oracle, spec), q.active) + output else 0) >= prompt
    ensures AfterTry(Plain(oracle, spec), q, Fresh(Asks(rid, prompt, output)))
         == (q.(free := q.free - prompt, active := q.active + [At(rid, prompt, prompt + output)]), true)
  {
    CeilOne(prompt);
    CeilOne(prompt + output);
  }

  /** The first round of a run that admits someone. */
  lemma FirstRound(cfg: Config, blocks: nat, reqs: seq<Request>, m: Sched, i: nat)
    requires reqs != [] && m.active != [] && AfterAdmission(cfg, blocks, Idle(blocks), reqs, 0, 0) == (m, i, [])
    ensures AfterStep(cfg, m, 0, NoDraws()).Raises? ==>
              Looped(cfg, blocks, reqs, NoDraws(), Idle(blocks), 1)
                  == Over(AfterStep(cfg, m, 0, NoDraws()).outcome, [], [])
  {
    hide AfterAdmission, AfterStep;
    assert Looped(cfg, blocks, reqs, NoDraws(), Idle(blocks), 0) == Going(Idle(blocks), 0, 0, [], []);
  }

  /** The first request takes one of two free blocks and the last with its growth. */
  function Before(): Sched {
    Sched(1, [At(0, 1, 2), At(1, 2, 4)], [], {})
  }

  function Between(): Sched {
    Sched(0, [At(0, 2, 2), At(1, 2, 4)], [], {})
  }

  function After(): Sched {
    Sched(1, [At(1, 3, 4)], [Requeued(At(0, 2, 2))], {})
  }

  /** vllm admission, four blocks: the first request finishes, the second finds no free block
      and preempts it, and its departure raises a KeyError. */
  lemma PreemptedWhenFinished()
    ensures Looped(Plain(false, None), 4, [Asks(0, 1, 1), Asks(1, 2, 2)], NoDraws(), Idle(4), 1)
        == Over(KeyError, [], [])
  {
    hide AfterAdmission, AfterStep, Looped;
    var cfg, reqs := Plain(false, None), [Asks(0, 1, 1), Asks(1, 2, 2)];
    TwoEnter(cfg, reqs);
    LeaverGone(cfg);
    FirstRound(cfg, 4, reqs, Before(), 2);
  }

  lemma LeaverGone(cfg: Config)
    requires cfg == Plain(false, None)
    ensures AfterStep(cfg, Before(), 0, NoDraws()) == Raises(KeyError)
  {
    hide AfterNext, AfterTurns, AfterLeaving;
    FirstTurn(cfg);
    SecondTurn(cfg);
    TwoTurns(cfg, 0, 1, Before(), Between(), [0], After(), [0]);
    assert RidSeq(Before().active) == [0, 1];
    assert 0 in [0] && !HasRid(After().active, 0);
    LeavingMeaning(cfg, After(), [0]);
  }

  lemma TwoEnter(cfg: Config, reqs: seq<Request>)
    requires cfg == Plain(false, None) && reqs == [Asks(0, 1, 1), Asks(1, 2, 2)]
    ensures AfterAdmission(cfg, 4, Idle(4), reqs, 0, 0) == (Before(), 2, [])
  {
    hide AfterTry;
    var q := Sched(3, [At(0, 1, 2)], [], {});
    EntersPlain(false, None, Idle(4), 0, 1, 1);
    EntersPlain(false, None, q, 1, 2, 2);
    assert [] + [At(0, 1, 2)] == q.active;
    assert q.active + [At(1, 2, 4)] == Before().active;
    ArrivalEnters(cfg, Idle(4), q, reqs, 0);
    ArrivalEnters(cfg, q, Before(), reqs, 1);
    OnlyArrivals(cfg, 4, Idle(4), reqs, Before());
  }

  lemma ArrivalEnters(cfg: Config, q: Sched, m: Sched, reqs: seq<Request>, i: nat)
    requires i < |reqs| && reqs[i].arrival == 0 && |q.active| < cfg.maxBatch
    requires AfterTry(cfg, q, Fresh(reqs[i])) == (m, true)
    ensures AfterArrivals(cfg, q, reqs, i, 0) == AfterArrivals(cfg, m, reqs, i + 1, 0)
  {
    hide AfterTry;
    var r := AfterArrivals(cfg, m, reqs, i + 1, 0);
    assert [] + r.2 == r.2;
  }

  /** No one waits and all requests have been reached: admission is what the arrivals make of it. */
  lemma OnlyArrivals(cfg: Config, blocks: nat, q: Sched, reqs: seq<Request>, m: Sched)
    requires q.waiting == [] && AfterArrivals(cfg, q, reqs, 0, 0) == AfterArrivals(cfg, m, reqs, |reqs|, 0)
    ensures AfterAdmission(cfg, blocks, q, reqs, 0, 0) == (m, |reqs|, [])
  {
    assert AfterArrivals(cfg, m, reqs, |reqs|, 0) == (m, |reqs|, []);
    hide AfterArrivals;
    var none: seq<int> := [];
    assert none + none == none;
  }

  lemma TwoTurns(cfg: Config, x: int, y: int, q: Sched, q1: Sched, f1: seq<int>, q2: Sched, f2: seq<int>)
    requires AfterNext(cfg, q, [], x, 0, NoDraws()) == Some((q1, f1))
    requires AfterNext(cfg, q1, f1, y, 0, NoDraws()) == Some((q2, f2))
    ensures AfterTurns(cfg, q, [x, y], 0, NoDraws()) == Some((q2, f2))
  {
    hide AfterNext;
    OneTurn(cfg, x, q);
    assert [x, y][..1] == [x];
  }

  lemma OneTurn(cfg: Config, x: int, q: Sched)
    ensures AfterTurns(cfg, q, [x], 0, NoDraws()) == AfterNext(cfg, q, [], x, 0, NoDraws())
  {
    hide AfterNext;
    assert [x][..0] == [];
    assert AfterTurns(cfg, q, [], 0, NoDraws()) == Some((q, []));
  }

  /** The first takes the last free block, and finishes. */
  lemma FirstTurn(cfg: Config)
    requires cfg == Plain(false, None)
    ensures AfterNext(cfg, Before(), [], 0, 0, NoDraws()) == Some((Between(), [0]))
  {
    hide AfterCommit;
    CeilOne(1);
    CeilOne(2);
    assert Place(Before().active, 0) == 0 && Place(Between().active, 0) == 0;
    CommitCalm(cfg, Before(), 0, 1);
    assert Longer(Before().active, 0, 2) == Between().active;
    assert [] + [0] == [0];
  }

  /** The second preempts it to get a block. */
  lemma SecondTurn(cfg: Config)
    requires cfg == Plain(false, None)
    ensures AfterNext(cfg, Between(), [0], 1, 0, NoDraws()) == Some((After(), [0]))
  {
    hide AfterRoom;
    CeilOne(2);
    CeilOne(3);
    VictimFirst(cfg);
    assert Place(Between().active, 1) == 1 by { assert Between().active[1..] == [At(1, 2, 4)]; }
    assert Longer([At(1, 2, 4)], 0, 3) == [At(1, 3, 4)];
    assert Place([At(1, 2, 4)], 1) == 0 && Place(After().active, 1) == 0;
  }

  lemma VictimFirst(cfg: Config)
    requires cfg == Plain(false, None)
    ensures AfterRoom(cfg, Between(), 1, 1) == (Sched(2, [At(1, 2, 4)], After().waiting, {}), true)
  {
    var a := Between().active;
    CeilOne(2);
    assert LastOther(a, 1) == 0 by { assert a[..1] == [At(0, 2, 2)]; }
    assert Rest(a, 0) == [At(1, 2, 4)];
    assert [Requeued(At(0, 2, 2))] + [] == After().waiting;
  }

  /** Oracle admission with copy-back, two blocks: the promise covers the request, the branch
      takes the last free block, and the append raises an AdmissionFailure. */
  lemma BranchTakesLast()
    ensures Looped(Plain(true, Some(SpecParams(1, 0, true))), 2, [Asks(0, 1, 1)], NoDraws(), Idle(2), 1)
         == Over(AdmissionFailure, [], [])
  {
    hide AfterTry, AfterRound, AfterTurns, AfterArrivals, Looped;
    var p := SpecParams(1, 0, true);
    var cfg, reqs := Plain(true, Some(p)), [Asks(0, 1, 1)];
    var m := Sched(1, [At(0, 1, 2)], [], {});
    EntersPlain(true, Some(p), Idle(2), 0, 1, 1);
    assert [] + [At(0, 1, 2)] == m.active;
    ArrivalEnters(cfg, Idle(2), m, reqs, 0);
    OnlyArrivals(cfg, 2, Idle(2), reqs, m);
    NoTailBeside(cfg, p, m);
    assert RidSeq(m.active) == [0];
    OneTurn(cfg, 0, m);
    FirstRound(cfg, 2, reqs, m, 1);
  }

  lemma NoTailBeside(cfg: Config, p: SpecParams, m: Sched)
    requires p == SpecParams(1, 0, true) && cfg == Plain(true, Some(p)) && m == Sched(1, [At(0, 1, 2)], [], {})
    ensures AfterRound(cfg, m, 0, 0) == None
  {
    hide AfterCommit;
    CeilOne(1);
    CeilOne(2);
    BranchOfOne(cfg, p, m.active[0]);
    NoneLeft(cfg, m.(free := 0));
  }

  lemma BranchOfOne(cfg: Config, p: SpecParams, st: SeqState)
    requires p == SpecParams(1, 0, true) && cfg.bt == 1
    ensures BranchBlocks(cfg, p, st) == 1
  {
    CeilOne(1);
  }

  lemma NoneLeft(cfg: Config, q: Sched)
    requires cfg.oracle && cfg.bt == 1 && q.free == 0 && q.active == [At(0, 1, 2)]
    ensures AfterCommit(cfg, q, 0, 1) == None
  {
    CeilOne(1);
    CeilOne(2);
  }
}
