// Who comes first: which running sequences are preempted to make room, who is admitted before
// whom, and how far a turn takes a sequence.
module Fairness {
  import opened Counting
  import opened Results
  import opened SimState
  import opened SimGrowth
  import opened SimTally
  import opened SimRounds
  import opened Schedule
  import opened SimLists
  import opened Outcomes

  // ---- preemption --------------------------------------------------------

  /** Of the sequences besides rid, none still runs that was admitted after one preempted. */
  ghost predicate LatestFirst(a: seq<SeqState>, a': seq<SeqState>, rid: int) {
    forall i, j | 0 <= i < j < |a| && a[i].rid != rid && a[j].rid != rid && a[j] in a' :: a[i] in a'
  }

  /** Table blocks that only the sequences of q refer to. */
  function OwnSum(cfg: Config, q: seq<SeqState>): int {
    if q == [] then 0 else OwnSum(cfg, q[..|q| - 1]) + OwnBlocks(cfg, q[|q| - 1])
  }

  /** The waiting queue grew at the front from w to w', the free blocks to free; before each
      of these preemptions fewer than n blocks were free. */
  ghost predicate AllNeeded(cfg: Config, w: seq<SeqState>, w': seq<SeqState>, free: int, n: int) {
    && Tail(w, w')
    && forall k | 1 <= k <= |w'| - |w| :: free - OwnSum(cfg, w'[..k]) < n
  }

  lemma OwnSumSnoc(cfg: Config, q: seq<SeqState>, k: nat)
    requires k < |q|
    ensures OwnSum(cfg, q[..k + 1]) == OwnSum(cfg, q[..k]) + OwnBlocks(cfg, q[k])
  {
    assert q[..k + 1][..k] == q[..k];
  }

  lemma NotInRest(a: seq<SeqState>, v: nat)
    requires RidsDistinct(a) && v < |a|
    ensures a[v] !in Rest(a, v)
  {
    forall k | 0 <= k < |Rest(a, v)|
      ensures Rest(a, v)[k].rid != a[v].rid
    {
      assert Rest(a, v)[k] == a[if k < v then k else k + 1];
    }
  }

  lemma LatestNext(a: seq<SeqState>, v: nat, a': seq<SeqState>, rid: int)
    requires RidsDistinct(a) && v < |a| && forall i | v < i < |a| :: a[i].rid == rid
    requires LatestFirst(Rest(a, v), a', rid) && forall st | st in a' :: st in Rest(a, v)
    ensures LatestFirst(a, a', rid)
  {
    NotInRest(a, v);
    forall i, j | 0 <= i < j < |a| && a[i].rid != rid && a[j].rid != rid && a[j] in a'
      ensures a[i] in a'
    {
      assert Rest(a, v)[i] == a[i] && Rest(a, v)[j] == a[j];
    }
  }

  lemma RestOf(a: seq<SeqState>, v: nat, rid: int)
    requires RidsDistinct(a) && v < |a| && HasRid(a, rid)
    ensures RidsDistinct(Rest(a, v)) && (HasRid(Rest(a, v), rid) <==> a[v].rid != rid)
    ensures forall st | st in Rest(a, v) :: st in a
  {
    RestRids(a, v);
  }

  /** Room was made between q and m: sequences preempted latest first, rid last of all, each
      only while fewer than n blocks were free, and what they alone held has become free. */
  ghost predicate MadeRoom(cfg: Config, q: Sched, m: Sched, ok: bool, rid: int, n: int) {
    && LatestFirst(q.active, m.active, rid) && (forall st | st in m.active :: st in q.active)
    && RidsDistinct(m.active) && (forall st | st in q.active :: st in m.active || Requeued(st) in m.waiting)
    && AllNeeded(cfg, q.waiting, m.waiting, m.free, n)
    && m.free == q.free + OwnSum(cfg, m.waiting[..|m.waiting| - |q.waiting|])
    && if ok then m.free >= n && HasRid(m.active, rid) else m.active == []
  }

  lemma NoneMade(cfg: Config, q: Sched, rid: int, n: int)
    requires q.free >= n && HasRid(q.active, rid) && RidsDistinct(q.active)
    ensures MadeRoom(cfg, q, q, true, rid, n)
  {
    assert q.waiting[..0] == [];
  }

  /** rid itself is preempted when no one else runs. */
  lemma SelfMade(cfg: Config, q: Sched, v: nat, rid: int, n: int)
    requires v < |q.active| && RidsDistinct(q.active) && q.free < n
    requires forall i | 0 <= i < |q.active| :: q.active[i].rid == rid
    ensures MadeRoom(cfg, q, AfterPreempt(cfg, q, v), false, rid, n)
  {
    hide OwnBlocks;
    var m := AfterPreempt(cfg, q, v);
    OnlyOne(q.active, v, rid);
    assert m.waiting[..0] == [];
    OneMore(cfg, q.waiting, m.waiting, q.active[v], n, q.free, m.free);
  }

  /** The latest other is preempted first. */
  lemma OtherMade(cfg: Config, q: Sched, v: nat, m: Sched, ok: bool, rid: int, n: int)
    requires v < |q.active| && RidsDistinct(q.active) && q.free < n
    requires forall i | v < i < |q.active| :: q.active[i].rid == rid
    requires MadeRoom(cfg, AfterPreempt(cfg, q, v), m, ok, rid, n)
    ensures MadeRoom(cfg, q, m, ok, rid, n)
  {
    hide OwnBlocks, LatestFirst, HasRid;
    var p := AfterPreempt(cfg, q, v);
    RestOf(q.active, v, q.active[v].rid);
    LatestNext(q.active, v, m.active, rid);
    assert |m.waiting| - |p.waiting| == |m.waiting| - |q.waiting| - 1;
    OneMore(cfg, q.waiting, m.waiting, q.active[v], n, q.free, m.free);
  }

  /** ensure_free over a shared pool. */
  lemma {:induction false} RoomMeaning(cfg: Config, q: Sched, rid: int, n: int)
    requires !cfg.oracle && RidsDistinct(q.active) && HasRid(q.active, rid)
    ensures var (m, ok) := AfterRoom(cfg, q, rid, n); MadeRoom(cfg, q, m, ok, rid, n)
    decreases |q.active|
  {
    hide OwnBlocks, MadeRoom, Victim, HasRid;
    if q.free >= n {
      NoneMade(cfg, q, rid, n);
    } else {
      var v := Victim(q.active, rid);
      VictimIs(q.active, rid);
      RestOf(q.active, v, rid);
      if q.active[v].rid == rid {
        SelfMade(cfg, q, v, rid, n);
      } else {
        RoomMeaning(cfg, AfterPreempt(cfg, q, v), rid, n);
        var (m, ok) := AfterRoom(cfg, q, rid, n);
        OtherMade(cfg, q, v, m, ok, rid, n);
      }
    }
  }

  lemma VictimIs(a: seq<SeqState>, rid: int)
    requires HasRid(a, rid)
    ensures Victim(a, rid) < |a|
    ensures forall i | Victim(a, rid) < i < |a| :: a[i].rid == rid || a[Victim(a, rid)].rid == rid
    ensures a[Victim(a, rid)].rid == rid ==> forall i | 0 <= i < |a| :: a[i].rid == rid
  {
  }

  lemma OnlyOne(a: seq<SeqState>, v: nat, rid: int)
    requires RidsDistinct(a) && v < |a| && forall i | 0 <= i < |a| :: a[i].rid == rid
    ensures Rest(a, v) == []
  {
    SamePlace(a, v, 0);
    SamePlace(a, v, |a| - 1);
  }

  lemma SamePlace(a: seq<SeqState>, i: nat, j: nat)
    requires RidsDistinct(a) && i < |a| && j < |a| && a[i].rid == a[j].rid
    ensures i == j
  {
  }

  /** Before the rest of the preemptions one more, of st, when only free blocks were free. */
  lemma OneMore(cfg: Config, w: seq<SeqState>, w': seq<SeqState>, st: SeqState, n: int, free: int, free': int)
    requires AllNeeded(cfg, [Requeued(st)] + w, w', free', n) && free < n
    requires free' == free + OwnBlocks(cfg, st) + OwnSum(cfg, w'[..|w'| - |w| - 1])
    ensures AllNeeded(cfg, w, w', free', n) && free' == free + OwnSum(cfg, w'[..|w'| - |w|])
  {
    hide OwnBlocks;
    var d := |w'| - |w| - 1;
    assert w'[d..] == [Requeued(st)] + w;
    assert w'[d] == Requeued(st) && w'[d + 1..] == w;
    OwnSumSnoc(cfg, w', d);
    SameOwn(cfg, st);
  }

  lemma SameOwn(cfg: Config, st: SeqState)
    ensures OwnBlocks(cfg, Requeued(st)) == OwnBlocks(cfg, st)
  {
  }

  // ---- admission ---------------------------------------------------------

  /** x lists some of y, in y's order. */
  predicate Subseq(x: seq<int>, y: seq<int>) {
    x == [] || (y != [] && ((x[0] == y[0] && Subseq(x[1..], y[1..])) || Subseq(x, y[1..])))
  }

  lemma {:induction false} SubseqNone(y: seq<int>)
    ensures Subseq([], y)
  {
  }

  lemma {:induction false} SubseqAppend(x: seq<int>, y: seq<int>, u: seq<int>, v: seq<int>)
    requires Subseq(x, y) && Subseq(u, v)
    ensures Subseq(x + u, y + v)
    decreases |y|
  {
    if y == [] {
      assert x + u == u && y + v == v;
    } else {
      assert (y + v)[0] == y[0] && (y + v)[1..] == y[1..] + v;
      if x == [] {
        SubseqAppend([], y[1..], u, v);
        assert x + u == [] + u;
      } else if x[0] == y[0] && Subseq(x[1..], y[1..]) {
        SubseqAppend(x[1..], y[1..], u, v);
        assert (x + u)[0] == x[0] && (x + u)[1..] == x[1..] + u;
      } else {
        SubseqAppend(x, y[1..], u, v);
      }
    }
  }

  /** Ids of the requests from number i to n. */
  function RequestIds(reqs: seq<Request>, i: nat, n: nat): seq<int>
    requires i <= n <= |reqs|
  {
    seq(n - i, k requires 0 <= k < n - i => reqs[i + k].rid)
  }

  /** a' is a, followed by some of those whose ids are in line, in that order. */
  ghost predicate Joins(a: seq<SeqState>, a': seq<SeqState>, line: seq<int>) {
    a <= a' && Subseq(RidSeq(a'[|a|..]), line)
  }

  lemma JoinsNone(a: seq<SeqState>, line: seq<int>)
    ensures Joins(a, a, line)
  {
    SubseqNone(line);
    assert RidSeq(a[|a|..]) == [];
  }

  lemma JoinsThen(a: seq<SeqState>, b: seq<SeqState>, c: seq<SeqState>, x: seq<int>, y: seq<int>)
    requires Joins(a, b, x) && Joins(b, c, y)
    ensures Joins(a, c, x + y) && a <= c && b <= c
  {
    hide Subseq;
    SubseqAppend(RidSeq(b[|a|..]), x, RidSeq(c[|b|..]), y);
    assert c[|a|..] == b[|a|..] + c[|b|..];
    assert RidSeq(c[|a|..]) == RidSeq(b[|a|..]) + RidSeq(c[|b|..]);
  }

  lemma JoinsOne(a: seq<SeqState>, a': seq<SeqState>, rid: int)
    requires a' == a || (|a'| == |a| + 1 && a <= a' && a'[|a|].rid == rid)
    ensures Joins(a, a', [rid])
  {
    if a' == a { JoinsNone(a, [rid]); } else { assert RidSeq(a'[|a|..]) == [rid]; }
  }

  /** st is next in line but there is no place for it beside those who run. */
  ghost predicate NoPlace(cfg: Config, q: Sched, st: SeqState) {
    |q.active| >= cfg.maxBatch || (q.active != [] && !AfterTry(cfg, q, st).1)
  }

  lemma TryJoins(cfg: Config, q: Sched, st: SeqState)
    ensures Joins(q.active, AfterTry(cfg, q, st).0.active, [st.rid])
    ensures |AfterTry(cfg, q, st).0.active| <= |q.active| + 1
  {
    JoinsOne(q.active, AfterTry(cfg, q, st).0.active, st.rid);
  }

  /** The head of the preempted queue joins, is dropped, or has no place. */
  lemma HeadMeaning(cfg: Config, blocks: nat, q: Sched)
    requires q.waiting != []
    ensures var (m, h) := AfterHead(cfg, blocks, q);
      && Joins(q.active, m.active, [q.waiting[0].rid]) && |m.active| <= |q.active| + 1
      && (if h.Blocks? then m == q && NoPlace(cfg, q, q.waiting[0]) else m.waiting == q.waiting[1..])
  {
    hide AfterTry, Hopeless, Joins;
    TryJoins(cfg, q, q.waiting[0]);
    TryFails(cfg, q, q.waiting[0]);
    JoinsNone(q.active, [q.waiting[0].rid]);
  }

  lemma TakenMore(w: seq<SeqState>, k: nat)
    requires w != [] && k < |w|
    ensures RidSeq(w[..k + 1]) == [w[0].rid] + RidSeq(w[1..][..k])
  {
    assert w[..k + 1] == [w[0]] + w[1..][..k];
  }

  /** The preempted queue went from q to m: taken from its front, in order, up to the batch
      limit; one that waits has no place. */
  ghost predicate QueueTaken(cfg: Config, q: Sched, m: Sched, blocked: bool) {
    && Tail(m.waiting, q.waiting) && Joins(q.active, m.active, RidSeq(q.waiting[..|q.waiting| - |m.waiting|]))
    && |m.active| <= Max(|q.active|, cfg.maxBatch)
    && (m.waiting != [] ==> NoPlace(cfg, m, m.waiting[0]))
    && (m.waiting != [] && !blocked ==> |m.active| >= cfg.maxBatch)
    && (blocked ==> m.waiting != [])
  }

  lemma NoneTaken(cfg: Config, q: Sched, blocked: bool)
    requires q.waiting == [] || NoPlace(cfg, q, q.waiting[0])
    requires if blocked then q.waiting != [] else q.waiting == [] || |q.active| >= cfg.maxBatch
    ensures QueueTaken(cfg, q, q, blocked)
  {
    hide Joins, NoPlace;
    JoinsNone(q.active, []);
    assert RidSeq(q.waiting[..0]) == [];
  }

  lemma OneTaken(cfg: Config, q: Sched, m: Sched, r: Sched, blocked: bool)
    requires q.waiting != [] && m.waiting == q.waiting[1..] && |q.active| < cfg.maxBatch
    requires Joins(q.active, m.active, [q.waiting[0].rid]) && |m.active| <= |q.active| + 1
    requires QueueTaken(cfg, m, r, blocked)
    ensures QueueTaken(cfg, q, r, blocked)
  {
    hide Joins, NoPlace, RidSeq;
    var k := |m.waiting| - |r.waiting|;
    TakenMore(q.waiting, k);
    JoinsThen(q.active, m.active, r.active, [q.waiting[0].rid], RidSeq(m.waiting[..k]));
  }

  lemma {:induction false} QueueMeaning(cfg: Config, blocks: nat, q: Sched)
    ensures var (m, blocked, dropped) := AfterQueue(cfg, blocks, q); QueueTaken(cfg, q, m, blocked)
    decreases |q.waiting|
  {
    hide AfterHead, Joins, QueueTaken, AfterTry;
    if q.waiting == [] || |q.active| >= cfg.maxBatch {
      NoneTaken(cfg, q, false);
    } else {
      var (m, h) := AfterHead(cfg, blocks, q);
      HeadMeaning(cfg, blocks, q);
      if h.Blocks? {
        NoneTaken(cfg, q, true);
      } else {
        QueueMeaning(cfg, blocks, m);
        var (r, blocked, dropped) := AfterQueue(cfg, blocks, m);
        OneTaken(cfg, q, m, r, blocked);
      }
    }
  }

  /** New arrivals: in order, each arrived, up to the batch limit; one that waits has not arrived
      or has no place. */
  lemma {:induction false} ArrivalsMeaning(cfg: Config, q: Sched, reqs: seq<Request>, i: nat, t: nat)
    requires i <= |reqs|
    ensures var (m, n, dropped) := AfterArrivals(cfg, q, reqs, i, t);
      && i <= n <= |reqs| && m.waiting == q.waiting && Joins(q.active, m.active, RequestIds(reqs, i, n))
      && |m.active| <= Max(|q.active|, cfg.maxBatch)
      && (forall k | i <= k < n :: reqs[k].arrival <= t)
      && (n < |reqs| ==> reqs[n].arrival > t || NoPlace(cfg, m, Fresh(reqs[n])))
      && (|q.active| >= cfg.maxBatch ==> n == i)
    decreases |reqs| - i
  {
    hide AfterTry, Joins;
    var (r, n, dropped) := AfterArrivals(cfg, q, reqs, i, t);
    if i >= |reqs| || reqs[i].arrival > t || |q.active| >= cfg.maxBatch {
      JoinsNone(q.active, []);
      assert RequestIds(reqs, i, n) == [];
    } else {
      var st := Fresh(reqs[i]);
      TryJoins(cfg, q, st);
      TryFails(cfg, q, st);
      var (m, ok) := AfterTry(cfg, q, st);
      if !ok && q.active != [] {
        JoinsNone(q.active, []);
        assert RequestIds(reqs, i, n) == [];
      } else {
        ArrivalsMeaning(cfg, m, reqs, i + 1, t);
        JoinsThen(q.active, m.active, r.active, [reqs[i].rid], RequestIds(reqs, i + 1, n));
        assert RequestIds(reqs, i, n) == [reqs[i].rid] + RequestIds(reqs, i + 1, n);
      }
    }
  }

  /** The admission phase is first come first served: preempted sequences from the front of
      their queue, then requests in order, none before it arrived and none at all while a
      preempted sequence still waits; whoever is next in line has no place. */
  lemma AdmissionMeaning(cfg: Config, blocks: nat, q: Sched, reqs: seq<Request>, i: nat, t: nat)
    requires i <= |reqs|
    ensures var (r, n, dropped) := AfterAdmission(cfg, blocks, q, reqs, i, t);
      && i <= n <= |reqs| && Tail(r.waiting, q.waiting) && |r.active| <= Max(|q.active|, cfg.maxBatch)
      && Joins(q.active, r.active, RidSeq(q.waiting[..|q.waiting| - |r.waiting|]) + RequestIds(reqs, i, n))
      && (forall k | i <= k < n :: reqs[k].arrival <= t)
      && (r.waiting != [] ==> n == i && NoPlace(cfg, r, r.waiting[0]))
      && (r.waiting == [] && n < |reqs| ==> reqs[n].arrival > t || NoPlace(cfg, r, Fresh(reqs[n])))
  {
    hide AfterQueue, AfterArrivals, Joins;
    var (m, blocked, dropped) := AfterQueue(cfg, blocks, q);
    QueueMeaning(cfg, blocks, q);
    ArrivalsMeaning(cfg, m, reqs, i, t);
    var line := RidSeq(q.waiting[..|q.waiting| - |m.waiting|]);
    if blocked {
      JoinsNone(m.active, RequestIds(reqs, i, i));
      JoinsThen(q.active, m.active, m.active, line, RequestIds(reqs, i, i));
    } else {
      var (r, n, gone) := AfterArrivals(cfg, m, reqs, i, t);
      JoinsThen(q.active, m.active, r.active, line, RequestIds(reqs, i, n));
    }
  }

  /** A round that runs anyone takes one step; one that does not ends the loop, or waits just
      until the next request arrives, with no one left in the queue. */
  lemma RoundTime(cfg: Config, blocks: nat, reqs: seq<Request>, draws: Draws, s: Loop)
    requires s.Going? && s.i <= |reqs| && (s.i < |reqs| || s.q.active != [] || s.q.waiting != [])
    ensures var (m, n, gone) := AfterAdmission(cfg, blocks, s.q, reqs, s.i, s.t);
      var e := Iterate(cfg, blocks, reqs, draws, s);
      && (m.active != [] && e.Going? ==> e.t == s.t + 1 && e.i == n)
      && (m.active == [] ==> m.waiting == [] && if n < |reqs|
                             then e.Going? && e.i == n && e.t == reqs[n].arrival > s.t && e.ended == s.ended
                             else e == Over(Finished, s.ended, s.dropped + gone))
  {
    hide AfterAdmission, AfterStep, AfterTry, Joins;
    AdmissionMeaning(cfg, blocks, s.q, reqs, s.i, s.t);
  }

  // ---- one turn ----------------------------------------------------------

  /** From q to m the sequence rid came to length len, if it still runs; the others who still
      run are as they were. */
  ghost predicate Reaches(q: Sched, m: Sched, rid: int, len: nat) {
    forall st | st in m.active :: if st.rid == rid then st.length == len else st in q.active
  }

  lemma OtherRid(a: seq<SeqState>, i: nat, j: nat)
    requires RidsDistinct(a) && i < |a| && j < |a| && i != j
    ensures a[i].rid != a[j].rid
  {
  }

  lemma GrownReaches(q: Sched, m: Sched, rid: int, len: nat, n: int)
    requires RidsDistinct(m.active) && HasRid(m.active, rid) && forall st | st in m.active :: st in q.active
    ensures Reaches(q, Grown(m, rid, len, n), rid, len)
  {
    var k := Place(m.active, rid);
    var a := Longer(m.active, k, len);
    forall st | st in a
      ensures if st.rid == rid then st.length == len else st in q.active
    {
      var x :| 0 <= x < |a| && a[x] == st;
      if x != k {
        assert m.active[x] == st;
        OtherRid(m.active, x, k);
      }
    }
  }

  /** adv tokens exactly, or a preemption of itself. */
  lemma CommitReaches(cfg: Config, q: Sched, j: nat, adv: nat)
    requires j < |q.active| && RidsDistinct(q.active) && AfterCommit(cfg, q, j, adv).Some?
    ensures Reaches(q, AfterCommit(cfg, q, j, adv).value, q.active[j].rid, q.active[j].length + adv)
  {
    hide AfterRoom, Growth, Grown, MadeRoom, Reaches;
    var st := q.active[j];
    var n := Growth(cfg, st.length, st.length + adv);
    var (m, ok) := AfterRoom(cfg, q, st.rid, n);
    if cfg.oracle {
      NoRoomMade(cfg, q, st.rid, n);
      GrownReaches(q, q, st.rid, st.length + adv, n);
    } else {
      RoomMeaning(cfg, q, st.rid, n);
      RoomLeft(cfg, q, m, ok, st.rid, n);
      if ok { GrownReaches(q, m, st.rid, st.length + adv, n); } else { NoOneReaches(q, m, st.rid, st.length + adv); }
    }
  }

  lemma NoRoomMade(cfg: Config, q: Sched, rid: int, n: int)
    requires cfg.oracle
    ensures AfterRoom(cfg, q, rid, n) == (q, true)
  {
  }

  lemma RoomLeft(cfg: Config, q: Sched, m: Sched, ok: bool, rid: int, n: int)
    requires MadeRoom(cfg, q, m, ok, rid, n)
    ensures RidsDistinct(m.active) && forall st | st in m.active :: st in q.active
    ensures if ok then HasRid(m.active, rid) else m.active == []
  {
  }

  lemma NoOneReaches(q: Sched, m: Sched, rid: int, len: nat)
    requires m.active == []
    ensures Reaches(q, m, rid, len)
  {
  }

  /** The fewest blocks that hold the partial block and all tokens a round may commit. */
  lemma BranchLeast(cfg: Config, p: SpecParams, st: SeqState)
    ensures var n := BranchSize(cfg, p, st); var held := st.length % cfg.bt + p.depth + 1;
      held <= n * cfg.bt < held + cfg.bt
  {
    var held := st.length % cfg.bt + p.depth + 1;
    CeilMeaning(held, cfg.bt, Ceil(held, cfg.bt) * cfg.bt);
  }

  /** A round commits the accepted drafts and one more token, as far as the final length, or a
      single token when the pool is too tight for the branches. */
  lemma RoundReaches(cfg: Config, q: Sched, j: nat, k: nat)
    requires j < |q.active| && RidsDistinct(q.active) && cfg.spec.Some? && q.active[j].length < q.active[j].totalLen
    requires AfterRound(cfg, q, j, k).Some?
    ensures var st := q.active[j];
      var len := if q.free < cfg.spec.value.width * BranchSize(cfg, cfg.spec.value, st)
                 then st.length + 1 else Min(st.length + k + 1, st.totalLen);
      Reaches(q, AfterRound(cfg, q, j, k).value, st.rid, len)
  {
    hide AfterCommit, BranchSize, Reaches;
    var st, n := q.active[j], BranchBlocks(cfg, cfg.spec.value, q.active[j]);
    var adv := Accepted(st, k);
    if q.free < n {
      CommitReaches(cfg, q, j, 1);
    } else if cfg.spec.value.copyback {
      var p := q.(free := q.free - n);
      CommitReaches(cfg, p, j, adv);
      SameActive(p, AfterCommit(cfg, p, j, adv).value, q, AfterRound(cfg, q, j, k).value, st.rid, st.length + adv);
    } else {
      assert HasRid(q.active, st.rid);
      GrownReaches(q, q, st.rid, st.length + adv, Growth(cfg, st.length, st.length + adv));
    }
  }

  lemma SameActive(p: Sched, m: Sched, p': Sched, m': Sched, rid: int, len: nat)
    requires p.active == p'.active && m.active == m'.active && Reaches(p, m, rid, len)
    ensures Reaches(p', m', rid, len)
  {
  }

  /** The contiguous policy's region holds the branches of a round at every length, with none to
      spare at a length one short of a block boundary. */
  lemma RegionHolds(cfg: Config, p: SpecParams, st: SeqState)
    requires cfg.spanned && cfg.spec == Some(p)
    ensures BranchBlocks(cfg, p, st) <= ScratchPerSeq(cfg)
    ensures st.length % cfg.bt == cfg.bt - 1 ==> BranchBlocks(cfg, p, st) == ScratchPerSeq(cfg)
  {
    var n, s := BranchSize(cfg, p, st), ScratchBlocks(p, cfg.bt);
    CeilMono(st.length % cfg.bt + p.depth + 1, cfg.bt - 1 + p.depth + 1, cfg.bt);
    MulMono(n, s, p.width);
    assert p.width * n == n * p.width && p.width * s == s * p.width;
  }

  // ---- the first in line -------------------------------------------------

  /** rid runs or waits with len tokens. */
  ghost predicate Has(q: Sched, rid: int, len: nat) {
    exists st | st in q.active || st in q.waiting :: st.rid == rid && st.length == len
  }

  lemma MadeHas(cfg: Config, q: Sched, m: Sched, ok: bool, r: int, n: int, rid: int, len: nat)
    requires MadeRoom(cfg, q, m, ok, r, n) && Has(q, rid, len)
    ensures Has(m, rid, len)
  {
    var st :| (st in q.active || st in q.waiting) && st.rid == rid && st.length == len;
    if st in q.active {
      assert st in m.active || Requeued(st) in m.waiting;
    } else {
      var d := |m.waiting| - |q.waiting|;
      assert m.waiting[d..] == q.waiting;
      assert st in m.waiting[d..];
    }
  }

  lemma GrownHas(m: Sched, r: int, len': nat, n: int, rid: int, len: nat)
    requires RidsDistinct(m.active) && Has(m, rid, len) && r != rid
    ensures Has(Grown(m, r, len', n), rid, len) && RidsDistinct(Grown(m, r, len', n).active)
  {
    var st :| (st in m.active || st in m.waiting) && st.rid == rid && st.length == len;
    var k := Place(m.active, r);
    if st in m.active && k < |m.active| {
      var x :| 0 <= x < |m.active| && m.active[x] == st;
      assert Longer(m.active, k, len')[x] == st;
    }
  }

  /** Another's commit takes no tokens from rid, preempted or not. */
  lemma CommitHas(cfg: Config, q: Sched, j: nat, adv: nat, rid: int, len: nat)
    requires j < |q.active| && RidsDistinct(q.active) && AfterCommit(cfg, q, j, adv).Some?
    requires Has(q, rid, len) && q.active[j].rid != rid
    ensures Has(AfterCommit(cfg, q, j, adv).value, rid, len) && RidsDistinct(AfterCommit(cfg, q, j, adv).value.active)
  {
    hide AfterRoom, Growth, Grown, MadeRoom, Has;
    var st := q.active[j];
    var n := Growth(cfg, st.length, st.length + adv);
    var (m, ok) := AfterRoom(cfg, q, st.rid, n);
    if cfg.oracle {
      NoRoomMade(cfg, q, st.rid, n);
    } else {
      assert HasRid(q.active, st.rid);
      RoomMeaning(cfg, q, st.rid, n);
      RoomLeft(cfg, q, m, ok, st.rid, n);
      MadeHas(cfg, q, m, ok, st.rid, n, rid, len);
    }
    if ok { GrownHas(m, st.rid, st.length + adv, n, rid, len); }
  }

  lemma SameLists(p: Sched, q: Sched, rid: int, len: nat)
    requires p.active == q.active && p.waiting == q.waiting && Has(p, rid, len)
    ensures Has(q, rid, len)
  {
  }

  lemma TurnHas(cfg: Config, q: Sched, j: nat, t: nat, draws: Draws, rid: int, len: nat)
    requires j < |q.active| && RidsDistinct(q.active) && AfterTurn(cfg, q, j, t, draws).Some?
    requires Has(q, rid, len) && q.active[j].rid != rid
    ensures Has(AfterTurn(cfg, q, j, t, draws).value, rid, len)
    ensures RidsDistinct(AfterTurn(cfg, q, j, t, draws).value.active)
  {
    hide AfterCommit, BranchBlocks, Accepted, Growth, Grown, Has;
    var st := q.active[j];
    if cfg.spec.None? {
      CommitHas(cfg, q, j, 1, rid, len);
      return;
    }
    var n := BranchBlocks(cfg, cfg.spec.value, st);
    var adv := Accepted(st, Min(draws(t, st.rid).0, cfg.spec.value.depth));
    if q.free < n {
      CommitHas(cfg, q, j, 1, rid, len);
    } else if cfg.spec.value.copyback {
      var p := q.(free := q.free - n);
      SameLists(q, p, rid, len);
      CommitHas(cfg, p, j, adv, rid, len);
      SameLists(AfterCommit(cfg, p, j, adv).value, AfterTurn(cfg, q, j, t, draws).value, rid, len);
    } else {
      GrownHas(q, st.rid, st.length + adv, Growth(cfg, st.length, st.length + adv), rid, len);
    }
  }

  lemma NextHas(cfg: Config, q: Sched, finished: seq<int>, r: int, t: nat, draws: Draws, rid: int, len: nat)
    requires RidsDistinct(q.active) && AfterNext(cfg, q, finished, r, t, draws).Some? && Has(q, rid, len) && r != rid
    ensures var m := AfterNext(cfg, q, finished, r, t, draws).value.0; Has(m, rid, len) && RidsDistinct(m.active)
  {
    hide AfterTurn, Has;
    var j := Place(q.active, r);
    if j < |q.active| { TurnHas(cfg, q, j, t, draws, rid, len); }
  }

  /** The sequence admitted first takes its turn first, in the state the step began in, and
      what it has then no later turn takes away, whoever preempts it. */
  lemma {:induction false} FirstServed(cfg: Config, q: Sched, m: Sched, ids: seq<int>, t: nat, draws: Draws, len: nat)
    requires q.active != [] && RidsDistinct(q.active) && |ids| > 0 && ids[0] == q.active[0].rid && Distinct(ids)
    requires AfterTurn(cfg, q, 0, t, draws) == Some(m) && RidsDistinct(m.active) && Has(m, ids[0], len)
    requires AfterTurns(cfg, q, ids, t, draws).Some?
    ensures var r := AfterTurns(cfg, q, ids, t, draws).value.0; Has(r, ids[0], len) && RidsDistinct(r.active)
  {
    hide AfterTurn, AfterNext, Has;
    var n := |ids| - 1;
    var p := ids[..n];
    if n == 0 {
      assert AfterTurns(cfg, q, p, t, draws) == Some((q, []));
      FirstNext(cfg, q, m, t, draws);
    } else {
      assert p[0] == ids[0] && ids[n] != ids[0];
      FirstServed(cfg, q, m, p, t, draws, len);
      var (x, finished) := AfterTurns(cfg, q, p, t, draws).value;
      NextHas(cfg, x, finished, ids[n], t, draws, ids[0], len);
    }
  }

  lemma FirstNext(cfg: Config, q: Sched, m: Sched, t: nat, draws: Draws)
    requires q.active != [] && AfterTurn(cfg, q, 0, t, draws) == Some(m)
    ensures AfterNext(cfg, q, [], q.active[0].rid, t, draws).Some?
    ensures AfterNext(cfg, q, [], q.active[0].rid, t, draws).value.0 == m
  {
    hide AfterTurn;
  }
}
