// The scheduler over a shared pool, on counts alone: which sequences run, wait, finish, are
// dropped or preempted, and when an exception ends the run, depends only on how many blocks
// are free, on the lists, and on which prefixes are pinned.
module Schedule {
  import opened Counting
  import opened Results
  import opened SimState
  import opened SimSteps
  import opened SimGrowth
  import opened SimTally
  import opened SimRounds

  datatype Sched = Sched(free: int, active: seq<SeqState>, waiting: seq<SeqState>, pinned: set<nat>)

  /** How a run ends: normally, or with an exception nothing catches. */
  datatype Outcome = Finished | KeyError | AdmissionFailure

  /** Drafts accepted and winning branch, by step and sequence. */
  type Draws = (nat, int) -> (nat, nat)

  /** What becomes of the next in line. */
  datatype HeadStep = Enters | Leaves | Blocks

  // ---- who and how much --------------------------------------------------

  /** Position of a running sequence, |a| when it does not run. */
  function Place(a: seq<SeqState>, rid: int): (j: nat)
    ensures j <= |a| && (j < |a| ==> a[j].rid == rid)
    ensures forall i | 0 <= i < j :: a[i].rid != rid
  {
    if a == [] || a[0].rid == rid then 0 else 1 + Place(a[1..], rid)
  }

  /** The most recently admitted other sequence, -1 when there is none. */
  function LastOther(a: seq<SeqState>, rid: int): (k: int)
    ensures -1 <= k < |a| && (k >= 0 ==> a[k].rid != rid)
    ensures forall i | k < i < |a| :: a[i].rid == rid
  {
    if a == [] then -1 else
    var n := |a| - 1;
    if a[n].rid != rid then n else LastOther(a[..n], rid)
  }

  /** Blocks a table takes to grow from one length to another. */
  function Growth(cfg: Config, from: nat, to: nat): int {
    Ceil(to, cfg.bt) - Ceil(from, cfg.bt)
  }

  /** committed(), of sequences whose tables cover their lengths. */
  function Promises(cfg: Config, a: seq<SeqState>): int {
    if a == [] then 0 else
    var st := a[|a| - 1];
    Promises(cfg, a[..|a| - 1]) + st.totalBlocks - Ceil(st.length, cfg.bt) - |st.scratch|
  }

  // ---- admission ---------------------------------------------------------

  /** The test before a prefix is pinned for st. */
  predicate PinTest(cfg: Config, q: Sched, st: SeqState) {
    if cfg.oracle then q.free - Promises(cfg, q.active) >= SharedCount(cfg, st) + TotalWithScratch(cfg, st)
    else q.free - Ceil(st.length, cfg.bt) >= cfg.watermark
  }

  /** The test before st is admitted. */
  predicate GateTest(cfg: Config, q: Sched, st: SeqState) {
    if cfg.oracle then q.free - Promises(cfg, q.active) >= TotalWithScratch(cfg, st) - SharedCount(cfg, st)
    else q.free - OwnBlocks(cfg, st) >= cfg.watermark
  }

  /** st shares nothing, or its prefix is pinned already. */
  predicate PinHeld(cfg: Config, q: Sched, st: SeqState) {
    SharedCount(cfg, st) > 0 ==> st.prefix.value in q.pinned
  }

  function Pinning(cfg: Config, q: Sched, st: SeqState): Sched
    requires SharedCount(cfg, st) > 0
  {
    q.(free := q.free - SharedCount(cfg, st), pinned := q.pinned + {st.prefix.value})
  }

  function Entering(cfg: Config, q: Sched, st: SeqState): Sched {
    q.(free := q.free - OwnBlocks(cfg, st), active := q.active + [Admitted(st, TotalWithScratch(cfg, st), [])])
  }

  /** try_admit, with its answer. */
  function AfterTry(cfg: Config, q: Sched, st: SeqState): (r: (Sched, bool))
    ensures r.0.waiting == q.waiting && (!r.1 ==> r.0.active == q.active)
    ensures r.1 ==> r.0.active == q.active + [Admitted(st, TotalWithScratch(cfg, st), [])]
  {
    if !PinHeld(cfg, q, st) && !PinTest(cfg, q, st) then (q, false) else
    var m := if PinHeld(cfg, q, st) then q else Pinning(cfg, q, st);
    if GateTest(cfg, m, st) then (Entering(cfg, m, st), true) else (m, false)
  }

  /** Preempted too often, or too long for the whole pool. */
  predicate Hopeless(cfg: Config, blocks: nat, st: SeqState) {
    st.preempts > 1000 || Ceil(st.length + 1, cfg.bt) > blocks
  }

  /** The head of the preempted queue is admitted, dropped, or waits. */
  function AfterHead(cfg: Config, blocks: nat, q: Sched): (r: (Sched, HeadStep))
    requires q.waiting != []
    ensures r.0.waiting == if r.1.Blocks? then q.waiting else q.waiting[1..]
  {
    var rest := q.waiting[1..];
    if Hopeless(cfg, blocks, q.waiting[0]) then (q.(waiting := rest), Leaves) else
    var (m, ok) := AfterTry(cfg, q, q.waiting[0]);
    if ok then (m.(waiting := rest), Enters)
    else if q.active == [] then (m.(waiting := rest), Leaves)
    else (m, Blocks)
  }

  lemma HeadGone(cfg: Config, blocks: nat, q: Sched)
    requires q.waiting != [] && Hopeless(cfg, blocks, q.waiting[0])
    ensures AfterHead(cfg, blocks, q) == (q.(waiting := q.waiting[1..]), Leaves)
  {
  }

  lemma HeadTried(cfg: Config, blocks: nat, q: Sched, m: Sched, ok: bool)
    requires q.waiting != [] && !Hopeless(cfg, blocks, q.waiting[0]) && AfterTry(cfg, q, q.waiting[0]) == (m, ok)
    ensures AfterHead(cfg, blocks, q)
         == if !ok && q.active != [] then (m, Blocks)
            else (m.(waiting := q.waiting[1..]), if ok then Enters else Leaves)
  {
  }

  /** The preempted queue: whether its head blocks, and who was dropped. */
  function AfterQueue(cfg: Config, blocks: nat, q: Sched): (Sched, bool, seq<int>)
    decreases |q.waiting|
  {
    if q.waiting == [] || |q.active| >= cfg.maxBatch then (q, false, []) else
    var (m, h) := AfterHead(cfg, blocks, q);
    if h.Blocks? then (m, true, []) else
    var (r, blocked, dropped) := AfterQueue(cfg, blocks, m);
    (r, blocked, (if h.Leaves? then [q.waiting[0].rid] else []) + dropped)
  }

  /** New arrivals from number i on: the number reached, and who was dropped. */
  function AfterArrivals(cfg: Config, q: Sched, reqs: seq<Request>, i: nat, t: nat): (Sched, nat, seq<int>)
    decreases |reqs| - i
  {
    if i >= |reqs| || reqs[i].arrival > t || |q.active| >= cfg.maxBatch then (q, i, []) else
    var (m, ok) := AfterTry(cfg, q, Fresh(reqs[i]));
    if !ok && q.active != [] then (m, i, []) else
    var (r, n, dropped) := AfterArrivals(cfg, m, reqs, i + 1, t);
    (r, n, (if ok then [] else [reqs[i].rid]) + dropped)
  }

  /** The admission phase of a step. */
  function AfterAdmission(cfg: Config, blocks: nat, q: Sched, reqs: seq<Request>, i: nat, t: nat)
    : (Sched, nat, seq<int>)
  {
    var (m, blocked, dropped) := AfterQueue(cfg, blocks, q);
    if blocked then (m, i, dropped) else
    var (r, n, gone) := AfterArrivals(cfg, m, reqs, i, t);
    (r, n, dropped + gone)
  }

  // ---- one sequence's turn -----------------------------------------------

  /** preempt. */
  function AfterPreempt(cfg: Config, q: Sched, j: nat): Sched
    requires j < |q.active|
  {
    var st := q.active[j];
    q.(free := q.free + OwnBlocks(cfg, st), active := Rest(q.active, j), waiting := [Requeued(st)] + q.waiting)
  }

  /** Who makes room for rid: the latest other, else rid itself. */
  function Victim(a: seq<SeqState>, rid: int): nat {
    if LastOther(a, rid) >= 0 then LastOther(a, rid) else Place(a, rid)
  }

  /** ensure_free, with its answer. */
  function AfterRoom(cfg: Config, q: Sched, rid: int, n: int): (Sched, bool)
    decreases |q.active|
  {
    if cfg.oracle || q.free >= n then (q, true) else
    var v := Victim(q.active, rid);
    if v >= |q.active| then (q, false)
    else if q.active[v].rid == rid then (AfterPreempt(cfg, q, v), false)
    else AfterRoom(cfg, AfterPreempt(cfg, q, v), rid, n)
  }

  /** rid's sequence reaches length len, on n more blocks. */
  function Grown(q: Sched, rid: int, len: nat, n: int): Sched {
    var k := Place(q.active, rid);
    if k < |q.active| then q.(free := q.free - n, active := Longer(q.active, k, len)) else q
  }

  /** Sequence j commits adv tokens or preempts itself; None is the AdmissionFailure. */
  function AfterCommit(cfg: Config, q: Sched, j: nat, adv: nat): Option<Sched>
    requires j < |q.active|
  {
    var st := q.active[j];
    var n := Growth(cfg, st.length, st.length + adv);
    var (m, ok) := AfterRoom(cfg, q, st.rid, n);
    if !ok then Some(m) else if m.free < n then None else Some(Grown(m, st.rid, st.length + adv, n))
  }

  lemma CommitMeaning(cfg: Config, q: Sched, j: nat, adv: nat, n: int, m: Sched, ok: bool, k: nat)
    requires j < |q.active| && n == Growth(cfg, q.active[j].length, q.active[j].length + adv)
    requires AfterRoom(cfg, q, q.active[j].rid, n) == (m, ok)
    requires ok ==> k < |m.active| && k == Place(m.active, q.active[j].rid)
    ensures AfterCommit(cfg, q, j, adv) ==
              if !ok then Some(m) else if m.free < n then None
              else Some(m.(free := m.free - n, active := Longer(m.active, k, q.active[j].length + adv)))
  {
  }

  lemma NoRoomNeeded(cfg: Config, q: Sched, rid: int)
    requires q.free >= 0
    ensures AfterRoom(cfg, q, rid, 0) == (q, true)
  {
  }

  /** Tokens a round commits when k drafts are accepted. */
  function Accepted(st: SeqState, k: nat): nat {
    Min(k + 1, if st.length <= st.totalLen then st.totalLen - st.length else 0)
  }

  /** Blocks one branch of a round takes, and all of them. */
  function BranchSize(cfg: Config, p: SpecParams, st: SeqState): nat {
    Ceil(st.length % cfg.bt + p.depth + 1, cfg.bt)
  }

  function BranchBlocks(cfg: Config, p: SpecParams, st: SeqState): nat {
    p.width * BranchSize(cfg, p, st)
  }

  /** A branch holds the partial block and all tokens a round may commit. */
  lemma BranchHolds(cfg: Config, p: SpecParams, st: SeqState, adv: nat)
    requires adv <= p.depth + 1
    ensures Ceil(st.length % cfg.bt + adv, cfg.bt) <= BranchSize(cfg, p, st)
  {
    CeilMono(st.length % cfg.bt + adv, st.length % cfg.bt + p.depth + 1, cfg.bt);
  }

  /** A round with n blocks for its branches: copy-back appends beside them, a splice uses one. */
  function Branching(cfg: Config, q: Sched, j: nat, adv: nat, n: nat): Option<Sched>
    requires j < |q.active| && cfg.spec.Some?
  {
    var st := q.active[j];
    if cfg.spec.value.copyback then
      match AfterCommit(cfg, q.(free := q.free - n), j, adv)
      case None => None
      case Some(m) => Some(m.(free := m.free + n))
    else Some(Grown(q, st.rid, st.length + adv, Growth(cfg, st.length, st.length + adv)))
  }

  /** spec_round with k drafts accepted. */
  function AfterRound(cfg: Config, q: Sched, j: nat, k: nat): Option<Sched>
    requires j < |q.active| && cfg.spec.Some?
  {
    var p, st := cfg.spec.value, q.active[j];
    var n := BranchBlocks(cfg, p, st);
    if q.free < n then AfterCommit(cfg, q, j, 1) else Branching(cfg, q, j, Accepted(st, k), n)
  }

  /** Sequence j's turn in step t. */
  function AfterTurn(cfg: Config, q: Sched, j: nat, t: nat, draws: Draws): Option<Sched>
    requires j < |q.active|
  {
    if cfg.spec.Some? then AfterRound(cfg, q, j, Min(draws(t, q.active[j].rid).0, cfg.spec.value.depth))
    else AfterCommit(cfg, q, j, 1)
  }

  // ---- one step ----------------------------------------------------------

  /** rid's turn, unless it was preempted earlier in the step. */
  function AfterNext(cfg: Config, q: Sched, finished: seq<int>, rid: int, t: nat, draws: Draws)
    : Option<(Sched, seq<int>)>
  {
    var j := Place(q.active, rid);
    if j >= |q.active| then Some((q, finished)) else
    match AfterTurn(cfg, q, j, t, draws)
    case None => None
    case Some(m) =>
      var k := Place(m.active, rid);
      Some((m, if k < |m.active| && m.active[k].length >= m.active[k].totalLen then finished + [rid] else finished))
  }

  /** The turns of ids in order, and who reached the final length. */
  function AfterTurns(cfg: Config, q: Sched, ids: seq<int>, t: nat, draws: Draws): Option<(Sched, seq<int>)> {
    if ids == [] then Some((q, [])) else
    var n := |ids| - 1;
    match AfterTurns(cfg, q, ids[..n], t, draws)
    case None => None
    case Some((m, finished)) => AfterNext(cfg, m, finished, ids[n], t, draws)
  }

  /** The finished leave; None is the KeyError for one that no longer runs. */
  function AfterLeaving(cfg: Config, q: Sched, finished: seq<int>): Option<Sched> {
    if finished == [] then Some(q) else
    var n := |finished| - 1;
    match AfterLeaving(cfg, q, finished[..n])
    case None => None
    case Some(m) =>
      var j := Place(m.active, finished[n]);
      if j < |m.active|
      then Some(m.(free := m.free + OwnBlocks(cfg, m.active[j]), active := Rest(m.active, j)))
      else None
  }

  function RidSeq(q: seq<SeqState>): seq<int> {
    seq(|q|, i requires 0 <= i < |q| => q[i].rid)
  }

  datatype StepEnd = Goes(q: Sched, finished: seq<int>) | Raises(outcome: Outcome)

  /** One step past admission: everyone's turn, then the finished leave. */
  function AfterStep(cfg: Config, q: Sched, t: nat, draws: Draws): StepEnd {
    match AfterTurns(cfg, q, RidSeq(q.active), t, draws)
    case None => Raises(AdmissionFailure)
    case Some((m, finished)) =>
      match AfterLeaving(cfg, m, finished)
      case None => Raises(KeyError)
      case Some(r) => Goes(r, finished)
  }

  // ---- the run -----------------------------------------------------------

  /** The loop at its head, or what has become of the run. */
  datatype Loop =
    | Going(q: Sched, i: nat, t: nat, ended: seq<int>, dropped: seq<int>)
    | Over(outcome: Outcome, ended: seq<int>, dropped: seq<int>)

  function Iterate(cfg: Config, blocks: nat, reqs: seq<Request>, draws: Draws, s: Loop): Loop {
    match s
    case Over(_, _, _) => s
    case Going(q, i, t, ended, dropped) =>
      if i >= |reqs| && q.active == [] && q.waiting == [] then Over(Finished, ended, dropped) else
      var (m, n, gone) := AfterAdmission(cfg, blocks, q, reqs, i, t);
      if m.active == [] then
        if n < |reqs| then Going(m, n, Max(t + 1, reqs[n].arrival), ended, dropped + gone)
        else Over(Finished, ended, dropped + gone)
      else
        match AfterStep(cfg, m, t, draws)
        case Raises(e) => Over(e, ended, dropped + gone)
        case Goes(r, finished) => Going(r, n, t + 1, ended + finished, dropped + gone)
  }

  /** After n rounds of the loop from q on. */
  function Looped(cfg: Config, blocks: nat, reqs: seq<Request>, draws: Draws, q: Sched, n: nat): Loop {
    if n == 0 then Going(q, 0, 0, [], [])
    else Iterate(cfg, blocks, reqs, draws, Looped(cfg, blocks, reqs, draws, q, n - 1))
  }

  /** A run ends in one way only. */
  lemma {:induction false} OverStays(cfg: Config, blocks: nat, reqs: seq<Request>, draws: Draws, q: Sched,
                                     n: nat, m: nat)
    requires n <= m && Looped(cfg, blocks, reqs, draws, q, n).Over?
    ensures Looped(cfg, blocks, reqs, draws, q, m) == Looped(cfg, blocks, reqs, draws, q, n)
  {
    if n < m {
      OverStays(cfg, blocks, reqs, draws, q, n, m - 1);
    }
  }

  lemma OneEnding(cfg: Config, blocks: nat, reqs: seq<Request>, draws: Draws, q: Sched, n: nat, m: nat)
    requires Looped(cfg, blocks, reqs, draws, q, n).Over? && Looped(cfg, blocks, reqs, draws, q, m).Over?
    ensures Looped(cfg, blocks, reqs, draws, q, n) == Looped(cfg, blocks, reqs, draws, q, m)
  {
    if n <= m {
      OverStays(cfg, blocks, reqs, draws, q, n, m);
    } else {
      OverStays(cfg, blocks, reqs, draws, q, m, n);
    }
  }
}
