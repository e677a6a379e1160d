// Lemmas behind one sequence's round: room for growth, branch bookkeeping, and what a step
// may do to the scheduler's lists.
module SimRounds {
  import opened Counting
  import opened Bookkeeping
  import opened AllocatorView
  import opened SimState
  import opened SimSteps
  import opened SimGrowth
  import opened SimTally

  // ---- room --------------------------------------------------------------

  /** What is owed to one sequence is part of what is committed. */
  lemma OwedWithin(cfg: Config, active: seq<SeqState>, j: nat, cache: Cache, s: Store)
    requires cfg.oracle && j < |active| && forall i | 0 <= i < |active| :: SeqOk(cfg, cache, s, active[i])
    ensures 0 <= Owed(active[j], s.tables) <= Committed(active, s.tables)
  {
    CommittedPick(active, j, s.tables);
    CommittedNat(cfg, active[..j] + active[j + 1..], cache, s);
    OwedNat(cfg, cache, s, active[j]);
  }

  /** The promise covers every length up to the final one. */
  lemma OwedCovers(cfg: Config, cache: Cache, s: Store, st: SeqState, len: nat)
    requires cfg.oracle && SeqOk(cfg, cache, s, st) && len <= st.totalLen
    ensures Owed(st, s.tables) >= Ceil(len, cfg.bt) - Ceil(st.length, cfg.bt)
    ensures cfg.spanned ==> st.rid in s.slack && s.slack[st.rid] >= Ceil(len, cfg.bt) - Ceil(st.length, cfg.bt)
  {
    CeilMono(len, st.totalLen, cfg.bt);
  }

  /** Oracle admission over a shared pool leaves the blocks any sequence may still need. */
  lemma RoomToGrow(cfg: Config, active: seq<SeqState>, j: nat, cache: Cache, s: Store, len: nat)
    requires Good(cfg, active, cache, s) && Room(cfg, active, s) && cfg.oracle && !cfg.spanned
    requires j < |active| && len <= active[j].totalLen
    ensures FreeCount(s) >= Ceil(len, cfg.bt) - Ceil(active[j].length, cfg.bt)
  {
    hide SeqOk, FreeCount;
    OwedWithin(cfg, active, j, cache, s);
    OwedCovers(cfg, cache, s, active[j], len);
  }

  /** After i of the blocks towards len, the length the table covers. */
  function Midway(from: nat, to: nat, b: pos, i: nat): nat {
    if Ceil(from, b) + i >= Ceil(to, b) then to
    else if i == 0 then from
    else (Ceil(from, b) + i) * b
  }

  lemma MidwayMeaning(from: nat, to: nat, b: pos, i: nat)
    requires from <= to && i <= Ceil(to, b) - Ceil(from, b)
    ensures from <= Midway(from, to, b, i) <= to
    ensures Ceil(Midway(from, to, b, i), b) == Ceil(from, b) + i
  {
    var c, d := Ceil(from, b), Ceil(to, b);
    if c + i < d && i > 0 {
      CeilUnique((c + i) * b, b, c + i);
      MulMono(c, c + i, b);
      MulMono(c + i + 1, d, b);
      MulDistributes(c + i, 1, b);
    }
  }

  // ---- branches ----------------------------------------------------------

  lemma FlatAppend(branches: seq<seq<nat>>, br: seq<nat>)
    ensures multiset(Flat(branches + [br])) == multiset(Flat(branches)) + multiset(br)
  {
    assert (branches + [br])[..|branches|] == branches;
  }

  lemma {:induction false} FlatPrefix(branches: seq<seq<nat>>, i: nat)
    requires i <= |branches|
    ensures multiset(Flat(branches[..i])) <= multiset(Flat(branches))
  {
    var n := |branches| - 1;
    if i <= n {
      FlatPrefix(branches[..n], i);
      assert branches[..n][..i] == branches[..i];
      assert multiset(Flat(branches)) == multiset(Flat(branches[..n])) + multiset(branches[n]);
    } else {
      assert branches[..i] == branches;
    }
  }

  lemma FlatNext(branches: seq<seq<nat>>, i: nat)
    requires i < |branches|
    ensures multiset(branches[i]) <= multiset(Flat(branches)) - multiset(Flat(branches[..i]))
    ensures multiset(Flat(branches)) - multiset(Flat(branches[..i])) - multiset(branches[i])
         == multiset(Flat(branches)) - multiset(Flat(branches[..i + 1]))
  {
    assert branches[..i + 1][..i] == branches[..i];
    FlatPrefix(branches, i + 1);
  }

  lemma {:induction false} FlatMember(branches: seq<seq<nat>>, x: nat) returns (i: nat)
    requires x in multiset(Flat(branches))
    ensures i < |branches| && x in branches[i]
  {
    var n := |branches| - 1;
    assert multiset(Flat(branches)) == multiset(Flat(branches[..n])) + multiset(branches[n]);
    if x in branches[n] {
      i := n;
    } else {
      i := FlatMember(branches[..n], x);
    }
  }

  /** Branch blocks are in no table. */
  lemma BranchesApart(s: Store, branches: seq<seq<nat>>)
    requires forall i | 0 <= i < |branches| :: Unused(s, branches[i])
    ensures HeldApart(s.(held := multiset(Flat(branches))))
  {
    forall x | x in multiset(Flat(branches))
      ensures x !in Refs(s.tables)
    {
      var i := FlatMember(branches, x);
      assert Uses(s, x) == 0;
    }
  }

  /** count branches of n blocks each were taken from s0, where nothing was held. */
  ghost predicate Branched(s0: Store, s: Store, branches: seq<seq<nat>>, count: nat, n: nat) {
    && s == s0.(held := multiset(Flat(branches))) && |branches| == count
    && forall i | 0 <= i < count :: |branches[i]| == n && Unused(s0, branches[i])
  }

  lemma BranchedNone(s0: Store, n: nat)
    requires s0.held == multiset{}
    ensures Branched(s0, s0, [], 0, n)
  {
    assert multiset(Flat([])) == multiset{};
  }

  lemma BranchedNext(s0: Store, s: Store, s': Store, branches: seq<seq<nat>>, count: nat, n: nat, br: seq<nat>)
    requires s0.held == multiset{} && Branched(s0, s, branches, count, n) && Holds(s, s', br) && |br| == n
    ensures Branched(s0, s', branches + [br], count + 1, n)
  {
    hide Flat, Unused;
    FlatAppend(branches, br);
    assert s0.held + multiset(Flat(branches)) == multiset(Flat(branches));
    UnusedEarlier(s0, s, multiset(Flat(branches)), br);
  }

  lemma BranchesCount(s0: Store, s: Store, branches: seq<seq<nat>>, count: nat, n: nat)
    requires Branched(s0, s, branches, count, n)
    ensures |branches| == count
  {
  }

  lemma BranchesHeld(s0: Store, s: Store, branches: seq<seq<nat>>, n: nat)
    requires Branched(s0, s, branches, |branches|, n)
    ensures s.held == multiset(Flat(branches)) && HeldApart(s)
  {
    hide Flat, Unused;
    BranchesApart(s0, branches);
  }

  lemma DropSpare(active: seq<SeqState>, s: Store, s': Store, bs: seq<nat>)
    requires Drops(s, s', bs)
    ensures Spare(active, s') >= Spare(active, s)
  {
    LiveShrinks(s, s');
  }

  // ---- what a step may do to the lists -----------------------------------

  /** A preempted sequence as it waits: its tokens stay, its blocks are gone. */
  function Requeued(st: SeqState): SeqState {
    st.(scratch := [], preempts := st.preempts + 1)
  }

  ghost predicate MayWait(a: seq<SeqState>, w: seq<SeqState>, st: SeqState) {
    st in w || exists i | 0 <= i < |a| :: st == Requeued(a[i])
  }

  /** Some running sequences were preempted, the rest is unchanged. */
  ghost predicate Descends(a: seq<SeqState>, w: seq<SeqState>, a': seq<SeqState>, w': seq<SeqState>) {
    && (forall st | st in a' :: st in a)
    && (forall st | st in w' :: MayWait(a, w, st))
    && Rids(a') + Rids(w') == Rids(a) + Rids(w)
    && Work(a') + Work(w') <= Work(a) + Work(w)
    && (a' != a ==> Work(a') + Work(w') < Work(a) + Work(w))
  }

  ghost predicate Patient(a: seq<SeqState>) {
    forall i | 0 <= i < |a| :: a[i].preempts <= 1000
  }

  lemma DescendsSelf(a: seq<SeqState>, w: seq<SeqState>)
    ensures Descends(a, w, a, w)
  {
  }

  lemma DescendsPreempt(a: seq<SeqState>, w: seq<SeqState>, j: nat)
    requires j < |a| && Patient(a)
    ensures Descends(a, w, Rest(a, j), [Requeued(a[j])] + w)
  {
    hide Rids, Work;
    Pick(a, j);
    Concat([Requeued(a[j])], w);
    One(Requeued(a[j]));
    assert MayWait(a, w, Requeued(a[j]));
  }

  lemma DescendsTrans(a: seq<SeqState>, w: seq<SeqState>, a1: seq<SeqState>, w1: seq<SeqState>,
                      a2: seq<SeqState>, w2: seq<SeqState>)
    requires Descends(a, w, a1, w1) && Descends(a1, w1, a2, w2)
    ensures Descends(a, w, a2, w2)
  {
    hide Rids, Work;
    forall st | st in w2
      ensures MayWait(a, w, st)
    {
      if st !in w1 {
        var i :| 0 <= i < |a1| && st == Requeued(a1[i]);
        assert a1[i] in a1;
        var k :| 0 <= k < |a| && a[k] == a1[i];
      } else {
        assert MayWait(a, w, st);
      }
    }
  }

  lemma PatientKept(a: seq<SeqState>, a': seq<SeqState>)
    requires Patient(a) && forall st | st in a' :: st in a
    ensures Patient(a')
  {
    forall i | 0 <= i < |a'|
      ensures a'[i].preempts <= 1000
    {
      assert a'[i] in a';
    }
  }

  /** st is an earlier entry of the list, moved on by at least one token. */
  ghost predicate MovedOn(a: seq<SeqState>, st: SeqState) {
    exists i | 0 <= i < |a| :: a[i].rid == st.rid && a[i].length < st.length
  }

  /** One sequence's round: others may be preempted, rid moves on by at least one token or
      is preempted itself. */
  ghost predicate Stepped(rid: int, a: seq<SeqState>, w: seq<SeqState>, a': seq<SeqState>, w': seq<SeqState>) {
    && (forall st | st in a' && st.rid != rid :: st in a)
    && (forall st | st in a' && st.rid == rid :: st.length <= st.totalLen && st.preempts <= 1000 && MovedOn(a, st))
    && (forall st | st in w' :: MayWait(a, w, st))
    && Rids(a') + Rids(w') == Rids(a) + Rids(w)
    && Work(a') + Work(w') < Work(a) + Work(w)
  }

  /** Sequence j moved on by at least one token, and nothing else changed. */
  ghost predicate Progress(a: seq<SeqState>, a': seq<SeqState>, j: nat)
    requires j < |a|
  {
    && |a'| == |a| && a' == Longer(a, j, a'[j].length)
    && a[j].length < a'[j].length <= a[j].totalLen
  }

  /** Preemptions, then progress of the surviving sequence j. */
  lemma SteppedLonger(a: seq<SeqState>, w: seq<SeqState>, a1: seq<SeqState>, w1: seq<SeqState>, j: nat, len: nat)
    requires Descends(a, w, a1, w1) && j < |a1| && Patient(a1) && RidsDistinct(a1)
    requires a1[j].length < len <= a1[j].totalLen
    ensures Stepped(a1[j].rid, a, w, Longer(a1, j, len), w1)
  {
    hide Rids, Work;
    var a2 := Longer(a1, j, len);
    Update(a1, j, a1[j].(length := len));
    forall st | st in a2 && st.rid != a1[j].rid
      ensures st in a
    {
      var i :| 0 <= i < |a2| && a2[i] == st;
      assert a1[i] in a1;
    }
    assert a1[j] in a;
    var k :| 0 <= k < |a| && a[k] == a1[j];
    forall st | st in a2 && st.rid == a1[j].rid
      ensures st.length <= st.totalLen && st.preempts <= 1000 && MovedOn(a, st)
    {
      var i :| 0 <= i < |a2| && a2[i] == st;
      assert i == j;
      assert a[k].rid == st.rid && a[k].length < st.length;
    }
  }

  // ---- lengths -----------------------------------------------------------

  /** Some entry of the lists is st's, and no longer than it. */
  ghost predicate Elder(a: seq<SeqState>, w: seq<SeqState>, st: SeqState) {
    || (exists o | o in a :: o.rid == st.rid && o.length <= st.length)
    || (exists o | o in w :: o.rid == st.rid && o.length <= st.length)
  }

  /** Every listed sequence was listed before, with no more tokens. */
  ghost predicate NoShorter(a: seq<SeqState>, w: seq<SeqState>, a': seq<SeqState>, w': seq<SeqState>) {
    (forall st | st in a' :: Elder(a, w, st)) && (forall st | st in w' :: Elder(a, w, st))
  }

  lemma SameShorter(a: seq<SeqState>, w: seq<SeqState>)
    ensures NoShorter(a, w, a, w)
  {
  }

  lemma ShorterTrans(a: seq<SeqState>, w: seq<SeqState>, a1: seq<SeqState>, w1: seq<SeqState>,
                     a2: seq<SeqState>, w2: seq<SeqState>)
    requires NoShorter(a, w, a1, w1) && NoShorter(a1, w1, a2, w2)
    ensures NoShorter(a, w, a2, w2)
  {
    forall st | st in a2 || st in w2
      ensures Elder(a, w, st)
    {
      assert Elder(a1, w1, st);
      var o :| (o in a1 || o in w1) && o.rid == st.rid && o.length <= st.length;
      assert Elder(a, w, o);
    }
  }

  /** A sequence's turn shortens no one, those it preempts included. */
  lemma SteppedShorter(rid: int, a: seq<SeqState>, w: seq<SeqState>, a': seq<SeqState>, w': seq<SeqState>)
    requires Stepped(rid, a, w, a', w')
    ensures NoShorter(a, w, a', w')
  {
    hide Rids, Work;
    forall st | st in a'
      ensures Elder(a, w, st)
    {
      if st.rid == rid {
        var i :| 0 <= i < |a| && a[i].rid == st.rid && a[i].length < st.length;
        assert a[i] in a;
      } else {
        assert st in a;
      }
    }
    forall st | st in w'
      ensures Elder(a, w, st)
    {
      assert MayWait(a, w, st);
      if st !in w {
        var i :| 0 <= i < |a| && st == Requeued(a[i]);
        assert a[i] in a;
      }
    }
  }

  /** The head of the queue enters, or goes. */
  lemma HeadShorter(cfg: Config, a: seq<SeqState>, w: seq<SeqState>, scratch: seq<nat>)
    requires w != []
    ensures NoShorter(a, w, a, w[1..])
    ensures NoShorter(a, w, a + [Admitted(w[0], TotalWithScratch(cfg, w[0]), scratch)], w[1..])
  {
    var x := Admitted(w[0], TotalWithScratch(cfg, w[0]), scratch);
    assert w[0] in w && Elder(a, w, x);
    forall st | st in a + [x]
      ensures Elder(a, w, st)
    {
      assert st in a || st == x;
    }
    forall st | st in w[1..]
      ensures Elder(a, w, st)
    {
      assert st in w;
    }
  }

  lemma FewerShorter(a0: seq<SeqState>, w0: seq<SeqState>, a: seq<SeqState>, w: seq<SeqState>, a': seq<SeqState>)
    requires NoShorter(a0, w0, a, w) && forall st | st in a' :: st in a
    ensures NoShorter(a0, w0, a', w)
  {
  }
}
