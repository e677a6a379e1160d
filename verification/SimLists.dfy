// What the loop keeps about its lists: who may be in them, who has finished, and what
// admission and a step do to them.
module SimLists {
  import opened Counting
  import opened SimState
  import opened SimSteps
  import opened SimGrowth
  import opened SimTally
  import opened SimRounds
  import opened Schedule

  /** x is the end of y. */
  ghost predicate Tail(x: seq<SeqState>, y: seq<SeqState>) {
    |x| <= |y| && x == y[|y| - |x|..]
  }

  /** Some of the queue's head was taken off, onto the running list or dropped. */
  ghost predicate Drawn(a0: seq<SeqState>, w0: seq<SeqState>, a: seq<SeqState>, w: seq<SeqState>, dropped: seq<int>) {
    && Rids(a) + Rids(w) + multiset(dropped) == Rids(a0) + Rids(w0)
    && Work(a) + Work(w) <= Work(a0) + Work(w0)
    && a0 <= a && Tail(w, w0) && NoShorter(a0, w0, a, w)
    && (w0 == [] ==> dropped == [])
  }

  lemma NoneDrawn(a: seq<SeqState>, w: seq<SeqState>)
    ensures Drawn(a, w, a, w, [])
  {
    hide Rids, Work;
    SameShorter(a, w);
  }

  lemma DrawnMeaning(a0: seq<SeqState>, w0: seq<SeqState>, a: seq<SeqState>, w: seq<SeqState>, dropped: seq<int>)
    requires Drawn(a0, w0, a, w, dropped)
    ensures Rids(a) + Rids(w) + multiset(dropped) == Rids(a0) + Rids(w0)
    ensures Work(a) + Work(w) <= Work(a0) + Work(w0)
    ensures a0 <= a && Tail(w, w0) && NoShorter(a0, w0, a, w) && (w0 == [] ==> dropped == [])
  {
  }

  lemma DrawnNext(a0: seq<SeqState>, w0: seq<SeqState>, a: seq<SeqState>, w: seq<SeqState>, dropped: seq<int>,
                  a': seq<SeqState>, w': seq<SeqState>, h: HeadStep, dropped': seq<int>)
    requires Drawn(a0, w0, a, w, dropped) && w != [] && a <= a' && w' == (if h.Blocks? then w else w[1..])
    requires Rids(a') + Rids(w') + (if h.Leaves? then multiset{w[0].rid} else multiset{}) == Rids(a) + Rids(w)
    requires Work(a') + Work(w') <= Work(a) + Work(w) && NoShorter(a, w, a', w')
    requires dropped' == if h.Leaves? then dropped + [w[0].rid] else dropped
    ensures Drawn(a0, w0, a', w', dropped')
  {
    hide Rids, Work, NoShorter;
    ShorterTrans(a0, w0, a, w, a', w');
    assert a0 <= a';
  }

  /** rid's request needs more blocks than there are. */
  ghost predicate Misfit(cfg: Config, blocks: nat, reqs: seq<Request>, rid: int) {
    exists k | 0 <= k < |reqs| :: reqs[k].rid == rid && TotalWithScratch(cfg, Fresh(reqs[k])) > blocks
  }

  lemma MisfitIs(cfg: Config, blocks: nat, reqs: seq<Request>, k: nat)
    requires k < |reqs| && TotalWithScratch(cfg, Fresh(reqs[k])) > blocks
    ensures Misfit(cfg, blocks, reqs, reqs[k].rid)
  {
  }

  /** st is one of requests i0 to i, at its prompt length. */
  ghost predicate Starts(st: SeqState, reqs: seq<Request>, i0: nat, i: nat)
    requires i <= |reqs|
  {
    exists k | i0 <= k < i :: st.rid == reqs[k].rid && st.length == reqs[k].promptLen
  }

  /** From position m on run requests i0 to i, at their prompt lengths. */
  ghost predicate Newcomers(a: seq<SeqState>, m: nat, reqs: seq<Request>, i0: nat, i: nat)
    requires i <= |reqs|
  {
    forall x | m <= x < |a| :: Starts(a[x], reqs, i0, i)
  }

  lemma NoNewcomers(a: seq<SeqState>, reqs: seq<Request>, i: nat)
    requires i <= |reqs|
    ensures Newcomers(a, |a|, reqs, i, i)
  {
  }

  lemma OneNewcomer(a: seq<SeqState>, a': seq<SeqState>, m: nat, reqs: seq<Request>, i0: nat, i: nat)
    requires m <= |a| && i0 <= i < |reqs| && Newcomers(a, m, reqs, i0, i)
    requires a' == a || (&& |a'| == |a| + 1 && a <= a'
                         && a'[|a|].rid == reqs[i].rid && a'[|a|].length == reqs[i].promptLen)
    ensures Newcomers(a', m, reqs, i0, i + 1)
  {
    forall x | m <= x < |a'|
      ensures Starts(a'[x], reqs, i0, i + 1)
    {
      if x < |a| {
        assert a'[x] == a[x] && Starts(a[x], reqs, i0, i);
      } else {
        assert a'[x].rid == reqs[i].rid;
      }
    }
  }

  /** Requests i0 to i have been reached: they run, or are dropped. */
  ghost predicate Arrived(a0: seq<SeqState>, a: seq<SeqState>, w: seq<SeqState>, reqs: seq<Request>, i0: nat, i: nat,
                          out: multiset<int>, dropped: seq<int>)
    requires i0 <= i <= |reqs|
  {
    && Rids(a) + Rids(w) + (out + multiset(dropped)) == Rids(FreshAll(reqs[..i]))
    && Work(a) + Work(FreshAll(reqs[i..])) <= Work(a0) + Work(FreshAll(reqs[i0..]))
    && (a == [] && i > i0 ==> Work(a) + Work(FreshAll(reqs[i..])) < Work(a0) + Work(FreshAll(reqs[i0..])))
    && a0 <= a && Newcomers(a, |a0|, reqs, i0, i)
  }

  lemma NoneArrived(a: seq<SeqState>, w: seq<SeqState>, reqs: seq<Request>, i: nat, out: multiset<int>)
    requires i <= |reqs| && Rids(a) + Rids(w) + out == Rids(FreshAll(reqs[..i]))
    ensures Arrived(a, a, w, reqs, i, i, out, [])
  {
    hide Rids, Work, FreshAll;
    NoNewcomers(a, reqs, i);
    assert out + multiset([]) == out;
  }

  lemma ArrivedMeaning(a0: seq<SeqState>, a: seq<SeqState>, w: seq<SeqState>, reqs: seq<Request>, i0: nat, i: nat,
                       out: multiset<int>, dropped: seq<int>)
    requires i0 <= i <= |reqs| && Arrived(a0, a, w, reqs, i0, i, out, dropped)
    ensures Rids(a) + Rids(w) + (out + multiset(dropped)) == Rids(FreshAll(reqs[..i]))
    ensures Work(a) + Work(FreshAll(reqs[i..])) <= Work(a0) + Work(FreshAll(reqs[i0..]))
    ensures a == [] && i > i0 ==> Work(a) + Work(FreshAll(reqs[i..])) < Work(a0) + Work(FreshAll(reqs[i0..]))
    ensures a0 <= a && Newcomers(a, |a0|, reqs, i0, i)
  {
  }

  lemma ArrivedNext(a0: seq<SeqState>, a: seq<SeqState>, a': seq<SeqState>, w: seq<SeqState>, reqs: seq<Request>,
                    i0: nat, i: nat, out: multiset<int>, dropped: seq<int>, h: HeadStep, dropped': seq<int>)
    requires i0 <= i < |reqs| && Arrived(a0, a, w, reqs, i0, i, out, dropped) && !h.Blocks?
    requires h.Enters? ==> Rids(a') == Rids(a) + multiset{reqs[i].rid} && Work(a') == Work(a) + WorkOf(Fresh(reqs[i]))
    requires h.Enters? ==> |a'| == |a| + 1 && a <= a' && a'[|a|].rid == reqs[i].rid
    requires h.Enters? ==> a'[|a|].length == reqs[i].promptLen
    requires h.Leaves? ==> a' == a
    requires dropped' == (if h.Leaves? then dropped + [reqs[i].rid] else dropped) && WorkOf(Fresh(reqs[i])) > 0
    ensures Arrived(a0, a', w, reqs, i0, i + 1, out, dropped')
  {
    hide Rids, Work, WorkOf, FreshAll, Newcomers;
    NextReached(reqs, i);
    OneNewcomer(a, a', |a0|, reqs, i0, i);
    assert a0 <= a';
  }

  /** The only running sequence leaves no one running. */
  lemma Alone(cfg: Config, a: seq<SeqState>, cache: Cache, rid: int, j: nat)
    requires j < |a| && RidsDistinct(a) && forall i | 0 <= i < |a| :: a[i].rid == rid
    ensures Rest(a, j) == [] && !HasRid(Rest(a, j), rid)
  {
    if |a| > 1 { assert a[0].rid == a[1].rid; }
  }

  lemma OtherStays(a: seq<SeqState>, k: nat, rid: int)
    requires k < |a| && a[k].rid != rid && HasRid(a, rid)
    ensures HasRid(Rest(a, k), rid)
  {
    var i :| 0 <= i < |a| && a[i].rid == rid;
    assert Rest(a, k)[if i < k then i else i - 1].rid == rid;
  }

  lemma DescendsSmaller(a: seq<SeqState>, w: seq<SeqState>, a1: seq<SeqState>, w1: seq<SeqState>,
                        a2: seq<SeqState>, w2: seq<SeqState>)
    requires Descends(a, w, a1, w1) && Descends(a1, w1, a2, w2) && |a2| < |a1|
    ensures Work(a2) + Work(w2) < Work(a) + Work(w)
  {
    hide Rids, Work;
  }

  lemma SelfPreempted(rid: int, a: seq<SeqState>, w: seq<SeqState>, a': seq<SeqState>, w': seq<SeqState>)
    requires Descends(a, w, a', w') && !HasRid(a', rid) && Work(a') + Work(w') < Work(a) + Work(w)
    ensures Stepped(rid, a, w, a', w')
  {
    hide Rids, Work;
    forall st | st in a'
      ensures st.rid != rid
    {
      var i :| 0 <= i < |a'| && a'[i] == st;
    }
  }

  /** A surviving sequence is exactly as it was. */
  lemma SameState(a: seq<SeqState>, w: seq<SeqState>, a': seq<SeqState>, w': seq<SeqState>, j: nat, k: int)
    requires Descends(a, w, a', w') && RidsDistinct(a) && j < |a| && 0 <= k < |a'| && a'[k].rid == a[j].rid
    ensures a'[k] == a[j]
  {
    hide Rids, Work;
    assert a'[k] in a;
    var i :| 0 <= i < |a| && a[i] == a'[k];
  }

  ghost predicate WaitOk(cfg: Config, waiting: seq<SeqState>) {
    forall i | 0 <= i < |waiting| :: Known(cfg, waiting[i]) && waiting[i].scratch == []
  }

  /** No sequence has reached its final length. */
  ghost predicate Strict(q: seq<SeqState>) {
    forall i | 0 <= i < |q| :: q[i].length < q[i].totalLen
  }

  /** No request is in the lists twice. */
  ghost predicate Once(active: seq<SeqState>, waiting: seq<SeqState>) {
    forall k :: (Rids(active) + Rids(waiting))[k] <= 1
  }

  lemma HeadOut(cfg: Config, active: seq<SeqState>, waiting: seq<SeqState>)
    requires waiting != [] && WaitOk(cfg, waiting) && Strict(waiting)
    ensures Rids(waiting) == Rids(waiting[1..]) + multiset{waiting[0].rid}
    ensures Work(waiting) == Work(waiting[1..]) + WorkOf(waiting[0]) && WorkOf(waiting[0]) > 0
    ensures WaitOk(cfg, waiting[1..]) && Strict(waiting[1..]) && Known(cfg, waiting[0]) && waiting[0].scratch == []
    ensures waiting[0].length < waiting[0].totalLen
  {
    hide Rids, Work, Known;
    Pick(waiting, 0);
    assert waiting[..0] + waiting[1..] == waiting[1..];
  }

  /** The head of the queue is not running as well. */
  lemma OnceHead(active: seq<SeqState>, waiting: seq<SeqState>, dropped: seq<int>, a: seq<SeqState>, w: seq<SeqState>)
    requires Once(a, w) && waiting != [] && Drawn(a, w, active, waiting, dropped)
    ensures !HasRid(active, waiting[0].rid)
  {
    hide Rids;
    var k := waiting[0].rid;
    RidsMember(active, k);
    RidsMember(waiting, k);
    assert HasRid(waiting, k);
    assert (Rids(a) + Rids(w))[k] <= 1;
    assert (Rids(active) + Rids(waiting) + multiset(dropped))[k] <= 1;
  }

  lemma JoinedTally(cfg: Config, a: seq<SeqState>, st: SeqState, a': seq<SeqState>)
    requires |a'| == |a| + 1 && a' == a + [Admitted(st, TotalWithScratch(cfg, st), a'[|a|].scratch)]
    requires Patient(a) && st.preempts <= 1000 && Strict(a) && st.length < st.totalLen
    ensures Rids(a') == Rids(a) + multiset{st.rid} && Work(a') == Work(a) + WorkOf(st)
    ensures Patient(a') && Strict(a') && a' != []
  {
    hide Rids, Work;
    var x := Admitted(st, TotalWithScratch(cfg, st), a'[|a|].scratch);
    Concat(a, [x]);
    One(x);
  }

  /** What the workload promises of a request. */
  ghost predicate RequestOk(cfg: Config, r: Request) {
    && r.rid >= 0 && r.outputLen >= 1
    && (r.prefix.Some? ==>
          && !cfg.compacts && r.prefix.value in cfg.prefixLens
          && cfg.prefixLens[r.prefix.value] == r.prefixLen <= r.promptLen)
  }

  ghost predicate RequestsOk(cfg: Config, reqs: seq<Request>) {
    DistinctRequests(reqs) && forall i | 0 <= i < |reqs| :: RequestOk(cfg, reqs[i])
  }

  lemma FreshKnown(cfg: Config, r: Request)
    requires RequestOk(cfg, r)
    ensures var st := Fresh(r);
      && Known(cfg, st) && st.scratch == [] && st.length < st.totalLen
      && st.preempts == 0 && st.rid == r.rid
  {
  }

  lemma FreshWork(cfg: Config, r: Request)
    requires RequestOk(cfg, r)
    ensures WorkOf(Fresh(r)) > 0
  {
  }

  /** A request not reached yet does not run. */
  lemma NewRid(reqs: seq<Request>, i: nat, active: seq<SeqState>, waiting: seq<SeqState>, out: multiset<int>)
    requires DistinctRequests(reqs) && i < |reqs| && Rids(active) + Rids(waiting) + out == Rids(FreshAll(reqs[..i]))
    ensures !HasRid(active, reqs[i].rid)
  {
    hide Rids, FreshAll;
    NotYet(reqs, i);
    RidsMember(active, reqs[i].rid);
  }

  /** Exactly those who have reached the final length are listed. */
  ghost predicate Late(q: seq<SeqState>, finished: seq<int>) {
    forall i | 0 <= i < |q| :: q[i].length >= q[i].totalLen <==> q[i].rid in finished
  }

  /** The step so far: the same requests, and less work once anyone had a turn. */
  ghost predicate Turned(a0: seq<SeqState>, w0: seq<SeqState>, a: seq<SeqState>, w: seq<SeqState>, started: bool) {
    && Rids(a) + Rids(w) == Rids(a0) + Rids(w0)
    && Work(a) + Work(w) <= Work(a0) + Work(w0)
    && (started ==> Work(a) + Work(w) < Work(a0) + Work(w0))
    && NoShorter(a0, w0, a, w)
  }

  lemma StartTurned(a: seq<SeqState>, w: seq<SeqState>)
    ensures Turned(a, w, a, w, false)
  {
  }

  lemma TurnedStep(a0: seq<SeqState>, w0: seq<SeqState>, a: seq<SeqState>, w: seq<SeqState>,
                   a': seq<SeqState>, w': seq<SeqState>, started: bool, rid: int)
    requires Turned(a0, w0, a, w, started) && Stepped(rid, a, w, a', w')
    ensures Turned(a0, w0, a', w', true)
  {
    hide Rids, Work, NoShorter;
    SteppedShorter(rid, a, w, a', w');
    ShorterTrans(a0, w0, a, w, a', w');
  }

  lemma ListedRun(a: seq<SeqState>, ids: seq<int>, finished: seq<int>)
    requires ids == RidSeq(a) && forall f | f in finished :: f in ids
    ensures forall f | f in finished :: HasRid(a, f)
  {
    forall f | f in finished
      ensures HasRid(a, f)
    {
      var i :| 0 <= i < |ids| && ids[i] == f;
      assert a[i].rid == f;
    }
  }

  lemma StrictLate(a: seq<SeqState>, w: seq<SeqState>)
    requires Strict(a) && Strict(w)
    ensures Late(a, []) && Late(w, [])
  {
  }

  /** Those finished are distinct, and among the first x. */
  ghost predicate Roll(ids: seq<int>, x: nat, finished: seq<int>)
    requires x <= |ids|
  {
    Distinct(finished) && forall f | f in finished :: f in ids[..x]
  }

  lemma RollNext(ids: seq<int>, x: nat, finished: seq<int>)
    requires x < |ids| && Distinct(ids) && Roll(ids, x, finished)
    ensures Roll(ids, x + 1, finished) && Roll(ids, x + 1, finished + [ids[x]])
  {
    assert ids[..x + 1] == ids[..x] + [ids[x]];
    assert ids[x] !in ids[..x];
    forall i | 0 <= i < |finished|
      ensures finished[i] != ids[x]
    {
      assert finished[i] in finished;
    }
  }

  /** Someone else was preempted, so someone has had a turn. */
  lemma SkipTurned(a0: seq<SeqState>, w0: seq<SeqState>, a: seq<SeqState>, w: seq<SeqState>, ids: seq<int>, x: nat)
    requires x < |ids| && ids == RidSeq(a0) && !HasRid(a, ids[x]) && (x == 0 ==> a == a0) && Turned(a0, w0, a, w, x > 0)
    ensures x > 0 && Turned(a0, w0, a, w, true) && RidSeq(a) != ids
  {
    hide Rids, Work;
    SeqHas(a0, x);
    if RidSeq(a) == ids { SeqHas(a, x); }
  }

  lemma SeqHas(a: seq<SeqState>, x: nat)
    requires x < |a|
    ensures HasRid(a, RidSeq(a)[x])
  {
    assert a[x].rid == RidSeq(a)[x];
  }

  lemma SteppedRids(rid: int, a: seq<SeqState>, w: seq<SeqState>, a': seq<SeqState>, w': seq<SeqState>)
    requires Stepped(rid, a, w, a', w')
    ensures Rids(a') + Rids(w') == Rids(a) + Rids(w)
  {
    hide Rids, Work;
  }

  /** A sequence whose turn comes is not finished yet. */
  lemma NotLate(a: seq<SeqState>, j: nat, finished: seq<int>, ids: seq<int>, x: nat)
    requires j < |a| && Late(a, finished) && x < |ids| && a[j].rid == ids[x] && Distinct(ids) && Roll(ids, x, finished)
    ensures a[j].length < a[j].totalLen && ids[x] !in finished
  {
    RollNext(ids, x, finished);
    assert ids[x] !in ids[..x];
  }

  lemma LateStep(rid: int, a: seq<SeqState>, w: seq<SeqState>, a': seq<SeqState>, w': seq<SeqState>,
                 finished: seq<int>, finished': seq<int>, k: int)
    requires Stepped(rid, a, w, a', w') && Late(a, finished) && Late(w, finished) && RidsDistinct(a') && Once(a', w')
    requires rid !in finished
    requires if k >= 0 then k < |a'| && a'[k].rid == rid else !HasRid(a', rid)
    requires finished' == if k >= 0 && a'[k].length >= a'[k].totalLen then finished + [rid] else finished
    ensures Late(a', finished') && Late(w', finished')
  {
    hide Rids, Work;
    forall i | 0 <= i < |a'|
      ensures a'[i].length >= a'[i].totalLen <==> a'[i].rid in finished'
    {
      assert a'[i] in a';
      if a'[i].rid != rid {
        var n :| 0 <= n < |a| && a[n] == a'[i];
      }
    }
    forall i | 0 <= i < |w'|
      ensures w'[i].length >= w'[i].totalLen <==> w'[i].rid in finished'
    {
      assert w'[i] in w';
      assert MayWait(a, w, w'[i]);
      if k >= 0 { NotBoth(a', w', k, i); }
      if w'[i] in w {
        var n :| 0 <= n < |w| && w[n] == w'[i];
      } else {
        var n :| 0 <= n < |a| && w'[i] == Requeued(a[n]);
      }
    }
  }

  /** No one both runs and waits. */
  lemma NotBoth(a: seq<SeqState>, w: seq<SeqState>, k: nat, i: nat)
    requires Once(a, w) && k < |a| && i < |w|
    ensures a[k].rid != w[i].rid
  {
    hide Rids;
    RidsMember(a, a[k].rid);
    RidsMember(w, w[i].rid);
    assert HasRid(a, a[k].rid) && HasRid(w, w[i].rid);
    assert (Rids(a) + Rids(w))[a[k].rid] <= 1;
  }

  /** A finished sequence that no longer runs waits, at its final length. */
  lemma GoneWaits(a: seq<SeqState>, w: seq<SeqState>, a0: seq<SeqState>, w0: seq<SeqState>, finished: seq<int>)
    requires Rids(a) + Rids(w) == Rids(a0) + Rids(w0) && Late(w, finished)
    requires (forall f | f in finished :: HasRid(a0, f)) && !(forall f | f in finished :: HasRid(a, f))
    ensures !Strict(w)
  {
    hide Rids;
    var f :| f in finished && !HasRid(a, f);
    RidsMember(a0, f);
    RidsMember(a, f);
    RidsMember(w, f);
    assert f in Rids(a) + Rids(w);
    var i :| 0 <= i < |w| && w[i].rid == f;
    assert w[i].length >= w[i].totalLen;
  }

  lemma ProgressRids(a: seq<SeqState>, a': seq<SeqState>, j: nat)
    requires j < |a| && Progress(a, a', j)
    ensures RidSeq(a') == RidSeq(a)
  {
  }

  ghost predicate AllKnown(cfg: Config, a: seq<SeqState>) {
    forall i | 0 <= i < |a| :: Known(cfg, a[i])
  }

  /** Patience and the queue's good order survive a turn. */
  lemma StepKeeps(cfg: Config, rid: int, a: seq<SeqState>, w: seq<SeqState>, a': seq<SeqState>, w': seq<SeqState>)
    requires Stepped(rid, a, w, a', w') && Patient(a) && WaitOk(cfg, w) && AllKnown(cfg, a)
    ensures Patient(a') && WaitOk(cfg, w')
  {
    hide Rids, Work;
    forall i | 0 <= i < |a'|
      ensures a'[i].preempts <= 1000
    {
      assert a'[i] in a';
    }
    forall i | 0 <= i < |w'|
      ensures Known(cfg, w'[i]) && w'[i].scratch == []
    {
      assert w'[i] in w';
      assert MayWait(a, w, w'[i]);
    }
  }

  /** The first x of the finished have left, all of whom were running. */
  ghost predicate Parted(a0: seq<SeqState>, a: seq<SeqState>, finished: seq<int>, x: nat)
    requires x <= |finished|
  {
    && (forall st | st in a :: st in a0)
    && Rids(a) + multiset(finished[..x]) == Rids(a0) && Work(a) <= Work(a0)
    && (forall y | x <= y < |finished| :: HasRid(a, finished[y]) <==> HasRid(a0, finished[y]))
    && (forall y | 0 <= y < x :: HasRid(a0, finished[y]))
  }

  lemma PartedFrom(a: seq<SeqState>, finished: seq<int>)
    ensures Parted(a, a, finished, 0)
  {
    hide Rids, Work, HasRid;
    assert multiset(finished[..0]) == multiset{};
  }

  lemma PartMissing(a0: seq<SeqState>, a: seq<SeqState>, finished: seq<int>, x: nat)
    requires x < |finished| && Parted(a0, a, finished, x) && !HasRid(a, finished[x])
    ensures !forall f | f in finished :: HasRid(a0, f)
  {
    hide Rids, Work, HasRid;
    assert finished[x] in finished;
  }

  lemma PartedAll(a0: seq<SeqState>, a: seq<SeqState>, finished: seq<int>)
    requires Parted(a0, a, finished, |finished|)
    ensures Rids(a) + multiset(finished) == Rids(a0) && Work(a) <= Work(a0)
    ensures (forall st | st in a :: st in a0) && forall f | f in finished :: HasRid(a0, f)
  {
    hide Rids, Work, HasRid;
    assert finished[..|finished|] == finished;
  }

  lemma PartNext(a0: seq<SeqState>, a: seq<SeqState>, j: nat, finished: seq<int>, x: nat)
    requires x < |finished| && Distinct(finished) && Parted(a0, a, finished, x) && j < |a| && a[j].rid == finished[x]
    ensures Parted(a0, Rest(a, j), finished, x + 1)
  {
    hide Rids, Work, WorkOf, HasRid, Distinct;
    Pick(a, j);
    Running(a, j);
    FinishedNext(finished, x);
    OthersStay(a, j, finished, x);
    forall st | st in Rest(a, j)
      ensures st in a0
    {
      assert st in a;
    }
  }

  lemma Running(a: seq<SeqState>, j: nat)
    requires j < |a|
    ensures HasRid(a, a[j].rid)
  {
  }

  lemma FinishedNext(finished: seq<int>, x: nat)
    requires x < |finished|
    ensures multiset(finished[..x + 1]) == multiset(finished[..x]) + multiset{finished[x]}
  {
    assert finished[..x + 1] == finished[..x] + [finished[x]];
  }

  lemma OthersStay(a: seq<SeqState>, j: nat, finished: seq<int>, x: nat)
    requires j < |a| && x < |finished| && a[j].rid == finished[x] && Distinct(finished)
    ensures forall y | x < y < |finished| :: HasRid(Rest(a, j), finished[y]) <==> HasRid(a, finished[y])
  {
    forall y | x < y < |finished|
      ensures HasRid(Rest(a, j), finished[y]) <==> HasRid(a, finished[y])
    {
      if HasRid(a, finished[y]) { OtherStays(a, j, finished[y]); }
      if i :| 0 <= i < |Rest(a, j)| && Rest(a, j)[i].rid == finished[y] {
        assert a[if i < j then i else i + 1].rid == finished[y];
      }
    }
  }

  /** Steps until the next arrival. */
  function Wait(reqs: seq<Request>, i: nat, t: nat): nat {
    if i < |reqs| && reqs[i].arrival > t then reqs[i].arrival - t else 0
  }

  lemma NothingYet(reqs: seq<Request>)
    ensures Rids([]) + Rids([]) + multiset{} == Rids(FreshAll(reqs[..0])) && Strict([])
  {
  }

  lemma MoreDropped(ended: seq<int>, dropped: seq<int>, gone: seq<int>)
    ensures multiset(ended) + multiset(dropped) + multiset(gone) == multiset(ended) + multiset(dropped + gone)
  {
  }

  lemma MoreEnded(ended: seq<int>, dropped: seq<int>, gone: seq<int>)
    ensures multiset(ended) + multiset(dropped) + multiset(gone) == multiset(ended + gone) + multiset(dropped)
  {
  }

  lemma AllEnded(active: seq<SeqState>, waiting: seq<SeqState>)
    requires active == [] && waiting == []
    ensures Rids(active) == multiset{} && Rids(waiting) == multiset{}
  {
  }

  lemma DrawnOut(a: multiset<int>, w: multiset<int>, d: multiset<int>, a0: multiset<int>, w0: multiset<int>,
                 out: multiset<int>, all: multiset<int>)
    requires a + w + d == a0 + w0 && a0 + w0 + out == all
    ensures a + w + (out + d) == all
  {
  }

  lemma GoneToo(out: multiset<int>, dropped: seq<int>, gone: seq<int>)
    ensures out + multiset(dropped) + multiset(gone) == out + multiset(dropped + gone)
  {
  }

  lemma AtMostOnceAll(reqs: seq<Request>, i: nat, active: seq<SeqState>, waiting: seq<SeqState>, out: multiset<int>)
    requires DistinctRequests(reqs) && i <= |reqs|
    requires Rids(active) + Rids(waiting) + out == Rids(FreshAll(reqs[..i]))
    ensures Once(active, waiting)
  {
    hide Rids, FreshAll;
    forall k
      ensures (Rids(active) + Rids(waiting))[k] <= 1
    {
      AtMostOnce(reqs, i, k);
      assert (Rids(active) + Rids(waiting) + out)[k] <= 1;
    }
  }

  lemma SameOnce(a0: seq<SeqState>, w0: seq<SeqState>, a: seq<SeqState>, w: seq<SeqState>)
    requires Rids(a) + Rids(w) == Rids(a0) + Rids(w0) && Once(a0, w0)
    ensures Once(a, w)
  {
    hide Rids;
    forall k
      ensures (Rids(a) + Rids(w))[k] <= 1
    {
      assert (Rids(a0) + Rids(w0))[k] <= 1;
    }
  }

  /** Once those at their final length have left, no one is at it. */
  lemma StrictAfter(a: seq<SeqState>, a': seq<SeqState>, w: seq<SeqState>, finished: seq<int>)
    requires Late(a, finished) && Late(w, finished) && Once(a, w) && Rids(a') + multiset(finished) == Rids(a)
    requires forall st | st in a' :: st in a
    ensures Strict(a') && Strict(w)
  {
    hide Rids;
    forall i | 0 <= i < |a'|
      ensures a'[i].length < a'[i].totalLen
    {
      assert a'[i] in a';
      var n :| 0 <= n < |a| && a[n] == a'[i];
      InFinished(a, a', w, finished, a'[i].rid);
      assert HasRid(a', a'[i].rid);
    }
    forall i | 0 <= i < |w|
      ensures w[i].length < w[i].totalLen
    {
      InFinished(a, a', w, finished, w[i].rid);
      assert HasRid(w, w[i].rid);
    }
  }

  lemma InFinished(a: seq<SeqState>, a': seq<SeqState>, w: seq<SeqState>, finished: seq<int>, k: int)
    requires Once(a, w) && Rids(a') + multiset(finished) == Rids(a)
    ensures k in finished ==> !HasRid(a', k) && !HasRid(w, k)
  {
    hide Rids;
    RidsMember(a', k);
    RidsMember(w, k);
    assert (Rids(a) + Rids(w))[k] <= 1;
    assert (Rids(a') + multiset(finished))[k] == Rids(a)[k];
  }

}
