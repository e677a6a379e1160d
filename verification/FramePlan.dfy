// Best-fit admission plans: the shortest list of frames, most free first, that holds an
// admission. Minimality, and why following a plan is the most-free-frame rule.
module FramePlan {
  import opened Counting
  import opened Pool
  import opened Bookkeeping

  type Frames = seq<set<nat>>

  ghost predicate InFrames(frames: Frames, P: seq<nat>) {
    Distinct(P) && forall i | 0 <= i < |P| :: P[i] < |frames|
  }

  /** f comes no later than g in the order most free first, lowest index on ties. */
  predicate Before(frames: Frames, f: nat, g: nat)
    requires f < |frames| && g < |frames|
  {
    |frames[f]| > |frames[g]| || (|frames[f]| == |frames[g]| && f <= g)
  }

  /** f comes before every frame not among done. */
  ghost predicate BestOutside(frames: Frames, done: seq<nat>, f: nat) {
    f < |frames| && forall g | 0 <= g < |frames| && g !in done :: Before(frames, f, g)
  }

  ghost predicate BestFirst(frames: Frames, P: seq<nat>) {
    InFrames(frames, P) && forall i | 0 <= i < |P| :: BestOutside(frames, P[..i], P[i])
  }

  /** Free blocks in the frames of P. */
  function Cap(frames: Frames, P: seq<nat>): nat
    requires forall i | 0 <= i < |P| :: P[i] < |frames|
  {
    if P == [] then 0 else Cap(frames, P[..|P| - 1]) + |frames[P[|P| - 1]]|
  }

  /** P is the shortest best-first list of frames with room for n blocks. */
  ghost predicate PlanFor(frames: Frames, P: seq<nat>, n: nat) {
    && BestFirst(frames, P) && P != []
    && Cap(frames, P) >= n
    && Cap(frames, P[..|P| - 1]) < n
  }

  // ---- a plan is minimal -------------------------------------------------

  lemma {:induction false} CapConcat(frames: Frames, a: seq<nat>, b: seq<nat>)
    requires forall i | 0 <= i < |a| :: a[i] < |frames|
    requires forall i | 0 <= i < |b| :: b[i] < |frames|
    ensures Cap(frames, a + b) == Cap(frames, a) + Cap(frames, b)
  {
    if b == [] {
      assert a + b == a;
    } else {
      CapConcat(frames, a, b[..|b| - 1]);
      assert (a + b)[..|a + b| - 1] == a + b[..|b| - 1];
    }
  }

  lemma CapPrefix(frames: Frames, P: seq<nat>, i: nat, j: nat)
    requires InFrames(frames, P) && i <= j <= |P|
    ensures Cap(frames, P[..i]) <= Cap(frames, P[..j])
  {
    CapConcat(frames, P[..i], P[i..j]);
    assert P[..i] + P[i..j] == P[..j];
  }

  lemma Outsider(T: seq<nat>, S: seq<nat>) returns (i: nat)
    requires Distinct(T) && |S| < |T|
    ensures i < |T| && T[i] !in S
  {
    if forall i | 0 <= i < |T| :: T[i] in S {
      DistinctSize(T);
      assert Elems(T) <= Elems(S);
      SubsetSize(Elems(T), Elems(S));
      ElemsSize(S);
      assert false;
    }
    i :| 0 <= i < |T| && T[i] !in S;
  }

  lemma {:induction false} ElemsSize(s: seq<nat>)
    ensures |Elems(s)| <= |s|
  {
    if s != [] {
      ElemsSize(s[..|s| - 1]);
      assert s == s[..|s| - 1] + [s[|s| - 1]];
      ElemsAppend(s[..|s| - 1], s[|s| - 1]);
    }
  }

  /** No m frames have more room than the first m of a best-first list. */
  lemma {:induction false} TopCap(frames: Frames, P: seq<nat>, T: seq<nat>)
    requires BestFirst(frames, P) && InFrames(frames, T) && |T| <= |P|
    ensures Cap(frames, T) <= Cap(frames, P[..|T|])
    decreases |T|
  {
    if T != [] {
      var m := |T| - 1;
      var i := Outsider(T, P[..m]);
      var a, b := T[..i], T[i + 1..];
      assert T == a + [T[i]] + b;
      CapConcat(frames, a, [T[i]]);
      CapConcat(frames, a + [T[i]], b);
      CapConcat(frames, a, b);
      TopCap(frames, P, a + b);
      assert BestOutside(frames, P[..m], P[m]);
      assert P[..|T|][..m] == P[..m];
      assert [T[i]][..0] == [];
    }
  }

  /** Any distinct frames with room for n blocks are at least as many as the plan's. */
  lemma PlanMinimal(frames: Frames, P: seq<nat>, n: nat, T: seq<nat>)
    requires PlanFor(frames, P, n) && InFrames(frames, T) && Cap(frames, T) >= n
    ensures |P| <= |T|
  {
    if |T| < |P| {
      TopCap(frames, P, T);
      CapPrefix(frames, P, |T|, |P| - 1);
    }
  }

  lemma {:induction false} CapBound(frames: Frames, P: seq<nat>, G: nat)
    requires forall i | 0 <= i < |P| :: P[i] < |frames| && |frames[P[i]]| <= G
    ensures Cap(frames, P) <= |P| * G
    ensures (forall i | 0 <= i < |P| :: |frames[P[i]]| == G) ==> Cap(frames, P) == |P| * G
  {
    if P != [] {
      CapBound(frames, P[..|P| - 1], G);
      MulDistributes(|P| - 1, 1, G);
    }
  }

  /** With enough wholly empty frames the plan has exactly ceil(n / G) frames. */
  lemma PlanCeil(frames: Frames, P: seq<nat>, n: nat, G: pos, T: seq<nat>)
    requires PlanFor(frames, P, n) && forall f | 0 <= f < |frames| :: |frames[f]| <= G
    requires InFrames(frames, T) && forall i | 0 <= i < |T| :: |frames[T[i]]| == G
    requires (|T| - 1) * G < n <= |T| * G
    ensures |P| == |T|
  {
    CapBound(frames, T, G);
    PlanMinimal(frames, P, n, T);
    CapBound(frames, P, G);
    if |P| < |T| { MulMono(|P|, |T| - 1, G); }
  }

  // ---- following a plan --------------------------------------------------

  /** A partly consumed plan with m blocks still to place; its first frame is the
      current one unless nothing has been placed yet. */
  ghost predicate Walk(frames: Frames, P: seq<nat>, m: nat, started: bool) {
    && InFrames(frames, P) && P != []
    && (forall i | Bit(started) <= i < |P| :: BestOutside(frames, P[..i], P[i]) && frames[P[i]] != {})
    && Cap(frames, P) >= m
    && (m > 0 ==> Cap(frames, P[..|P| - 1]) < m)
    && (m == 0 ==> |P| == 1)
  }

  lemma WalkStart(frames: Frames, P: seq<nat>, n: nat)
    requires PlanFor(frames, P, n) && n > 0
    ensures Walk(frames, P, n, false)
  {
    var k := |P| - 1;
    forall i | 0 <= i < |P|
      ensures frames[P[i]] != {}
    {
      assert BestOutside(frames, P[..i], P[i]);
      assert Before(frames, P[i], P[k]);
      assert |frames[P[k]]| > 0;
    }
  }

  /** The plan after exhausted frames are popped off its front. */
  function Advance(frames: Frames, P: seq<nat>): seq<nat> {
    if P == [] || HasRoom(frames, P[0]) then P else Advance(frames, P[1..])
  }

  /** While blocks remain, at most the current frame is exhausted. */
  lemma WalkAdvance(frames: Frames, P: seq<nat>, m: nat, started: bool)
    requires Walk(frames, P, m, started) && m > 0
    ensures Advance(frames, P) != [] && HasRoom(frames, Advance(frames, P)[0])
    ensures Advance(frames, P) == if frames[P[0]] != {} then P else P[1..]
  {
    assert P[..1][..0] == [];
    assert |P| == 1 ==> P == P[..1];
  }

  /** The rule picks the plan's front frame. */
  lemma WalkPick(frames: Frames, P: seq<nat>, m: nat, started: bool, cur: map<Key, nat>, key: Key)
    requires Walk(frames, P, m, started) && m > 0
    requires if started then key in cur && cur[key] == P[0] else key !in cur
    ensures SomeRoom(frames) && Advance(frames, P) != [] && Pick(frames, cur, key) == Advance(frames, P)[0]
  {
    WalkAdvance(frames, P, m, started);
    var Q := Advance(frames, P);
    if !(started && frames[P[0]] != {}) {
      var i := if frames[P[0]] != {} then 0 else 1;
      assert BestOutside(frames, P[..i], P[i]);
      BestIs(frames, P[..i], P[i]);
    }
  }

  lemma BestIs(frames: Frames, done: seq<nat>, f: nat)
    requires BestOutside(frames, done, f) && frames[f] != {}
    requires forall g | g in done :: g < |frames| && frames[g] == {}
    ensures Best(frames) == f
  {
    var b := Best(frames);
    assert |frames[f]| > 0;
    assert b !in done ==> Before(frames, f, b);
  }

  /** Dropping an exhausted front keeps the plan walkable. */
  lemma WalkDrop(frames: Frames, P: seq<nat>, m: nat)
    requires Walk(frames, P, m, true) && m > 0 && frames[P[0]] == {}
    ensures |P| > 1 && Walk(frames, P[1..], m, false)
  {
    hide Cap, BestOutside;
    WalkAdvance(frames, P, m, true);
    var Q := P[1..];
    DropCaps(frames, P);
    forall i | 0 <= i < |Q|
      ensures BestOutside(frames, Q[..i], Q[i]) && frames[Q[i]] != {}
    {
      assert BestOutside(frames, P[..i + 1], P[i + 1]) && frames[P[i + 1]] != {};
      assert P[..i + 1] == [P[0]] + Q[..i];
      BestWithout(frames, P[0], Q[..i], Q[i]);
    }
  }

  lemma DropCaps(frames: Frames, P: seq<nat>)
    requires InFrames(frames, P) && |P| > 1 && frames[P[0]] == {}
    ensures InFrames(frames, P[1..])
    ensures Cap(frames, P[1..]) == Cap(frames, P) && Cap(frames, P[1..][..|P| - 2]) == Cap(frames, P[..|P| - 1])
  {
    var Q := P[1..];
    assert P == [P[0]] + Q && [P[0]][..0] == [];
    CapConcat(frames, [P[0]], Q);
    CapConcat(frames, [P[0]], Q[..|Q| - 1]);
    assert P[..|P| - 1] == [P[0]] + Q[..|Q| - 1];
  }

  /** An exhausted frame need not be excluded. */
  lemma BestWithout(frames: Frames, e: nat, done: seq<nat>, f: nat)
    requires BestOutside(frames, [e] + done, f) && e < |frames| && frames[e] == {} && frames[f] != {}
    ensures BestOutside(frames, done, f)
  {
    assert |frames[f]| > 0;
    forall g | 0 <= g < |frames| && g !in done
      ensures Before(frames, f, g)
    {
      assert g != e ==> g !in [e] + done;
    }
  }

  lemma {:induction false} CapUpdate(frames: Frames, P: seq<nat>, f: nat, s: set<nat>)
    requires InFrames(frames, P) && f < |frames|
    ensures Cap(frames[f := s], P) == Cap(frames, P) + if f in P then |s| - |frames[f]| else 0
  {
    if P != [] {
      var p, l := P[..|P| - 1], P[|P| - 1];
      assert P == p + [l];
      CapUpdate(frames, p, f, s);
    }
  }

  /** Taking a block from the front keeps the plan walkable. */
  lemma WalkTake(frames: Frames, P: seq<nat>, m: nat, started: bool, o: nat)
    requires Walk(frames, P, m, started) && m > 0 && o in frames[P[0]]
    ensures Walk(frames[P[0] := frames[P[0]] - {o}], P, m - 1, true)
  {
    var f := P[0];
    var frames' := frames[f := frames[f] - {o}];
    CapUpdate(frames, P, f, frames[f] - {o});
    if |P| > 1 {
      CapUpdate(frames, P[..|P| - 1], f, frames[f] - {o});
      assert f == P[..|P| - 1][0];
    }
    forall i | 1 <= i < |P|
      ensures BestOutside(frames', P[..i], P[i]) && frames'[P[i]] != {}
    {
      assert BestOutside(frames, P[..i], P[i]);
      assert P[..i][0] == f && P[i] != f;
    }
  }

  // ---- building a plan ---------------------------------------------------

  /** Wholly empty frames (all G offsets free), or partly free ones. */
  predicate InClass(s: set<nat>, G: nat, empty: bool) {
    if empty then |s| == G else 0 < |s| && |s| != G
  }

  /** Indices of the frames of one class, ascending. */
  function ClassOf(frames: Frames, G: nat, empty: bool): seq<nat> {
    if frames == [] then [] else
    var n := |frames| - 1;
    ClassOf(frames[..n], G, empty) + if InClass(frames[n], G, empty) then [n] else []
  }

  ghost predicate InBounds(frames: Frames, s: seq<nat>) {
    forall i | 0 <= i < |s| :: s[i] < |frames|
  }

  predicate Precedes(frames: Frames, f: nat, g: nat)
    requires f < |frames| && g < |frames|
  {
    Before(frames, f, g) && f != g
  }

  function InsertRanked(frames: Frames, s: seq<nat>, f: nat): (r: seq<nat>)
    requires InBounds(frames, s) && f < |frames|
    ensures InBounds(frames, r)
  {
    if s == [] then [f]
    else if Precedes(frames, s[|s| - 1], f) then s + [f]
    else InsertRanked(frames, s[..|s| - 1], f) + [s[|s| - 1]]
  }

  /** partials.sort(reverse=True) on (free, -index): most free first, low index on ties. */
  function SortRanked(frames: Frames, s: seq<nat>): (r: seq<nat>)
    requires InBounds(frames, s)
    ensures InBounds(frames, r)
  {
    if s == [] then [] else InsertRanked(frames, SortRanked(frames, s[..|s| - 1]), s[|s| - 1])
  }

  ghost predicate Ranked(frames: Frames, s: seq<nat>) {
    InBounds(frames, s) && forall i, j | 0 <= i < j < |s| :: Precedes(frames, s[i], s[j])
  }

  lemma RankedAppend(frames: Frames, s: seq<nat>, f: nat)
    requires Ranked(frames, s) && f < |frames| && forall x | x in Elems(s) :: Precedes(frames, x, f)
    ensures Ranked(frames, s + [f])
  {
    assert forall i | 0 <= i < |s| :: s[i] in Elems(s);
  }

  lemma CapSnoc(frames: Frames, P: seq<nat>, f: nat)
    requires InBounds(frames, P) && f < |frames|
    ensures Cap(frames, P + [f]) == Cap(frames, P) + |frames[f]|
  {
    assert (P + [f])[..|P|] == P;
  }

  lemma {:induction false} InsertRankedElems(frames: Frames, s: seq<nat>, f: nat)
    requires InBounds(frames, s) && f < |frames|
    ensures Elems(InsertRanked(frames, s, f)) == Elems(s) + {f}
    ensures Cap(frames, InsertRanked(frames, s, f)) == Cap(frames, s) + |frames[f]|
  {
    CapSnoc(frames, s, f);
    ElemsAppend(s, f);
    if s == [] {
      assert s + [f] == [f];
    } else {
      var p, l := s[..|s| - 1], s[|s| - 1];
      assert s == p + [l];
      ElemsAppend(p, l);
      CapSnoc(frames, p, l);
      InsertRankedElems(frames, p, f);
      ElemsAppend(InsertRanked(frames, p, f), l);
      CapSnoc(frames, InsertRanked(frames, p, f), l);
    }
  }

  lemma {:induction false} InsertRankedSorted(frames: Frames, s: seq<nat>, f: nat)
    requires f < |frames| && Ranked(frames, s) && f !in Elems(s)
    ensures Ranked(frames, InsertRanked(frames, s, f))
  {
    if s != [] {
      var p, l := s[..|s| - 1], s[|s| - 1];
      assert forall x | x in Elems(p) :: Precedes(frames, x, l);
      if Precedes(frames, l, f) {
        RankedAppend(frames, s, f);
      } else {
        InsertRankedElems(frames, p, f);
        InsertRankedSorted(frames, p, f);
        assert l in Elems(s);
        RankedAppend(frames, InsertRanked(frames, p, f), l);
      }
    }
  }

  lemma {:induction false} SortRankedMeaning(frames: Frames, s: seq<nat>)
    requires InBounds(frames, s) && Distinct(s)
    ensures var r := SortRanked(frames, s);
      Ranked(frames, r) && Elems(r) == Elems(s) && Cap(frames, r) == Cap(frames, s)
  {
    if s != [] {
      var p, l := s[..|s| - 1], s[|s| - 1];
      assert s == p + [l];
      ElemsAppend(p, l);
      CapSnoc(frames, p, l);
      SortRankedMeaning(frames, p);
      InsertRankedElems(frames, SortRanked(frames, p), l);
      InsertRankedSorted(frames, SortRanked(frames, p), l);
    }
  }

  lemma {:induction false} ClassMeaning(frames: Frames, G: nat, empty: bool)
    ensures Ascending(ClassOf(frames, G, empty))
    ensures forall f: nat :: f in Elems(ClassOf(frames, G, empty)) <==> f < |frames| && InClass(frames[f], G, empty)
  {
    if frames != [] {
      var n := |frames| - 1;
      var p := ClassOf(frames[..n], G, empty);
      ClassMeaning(frames[..n], G, empty);
      ElemsAppend(p, n);
      assert forall i | 0 <= i < |p| :: p[i] in Elems(p);
      assert p + [] == p;
    }
  }

  lemma ClassBounds(frames: Frames, G: nat, empty: bool)
    ensures InBounds(frames, ClassOf(frames, G, empty)) && Distinct(ClassOf(frames, G, empty))
  {
    ClassMeaning(frames, G, empty);
    var a := ClassOf(frames, G, empty);
    assert forall i | 0 <= i < |a| :: a[i] in Elems(a);
  }

  lemma {:induction false} CapPrefixFrames(frames: Frames, P: seq<nat>, n: nat)
    requires n <= |frames| && InBounds(frames[..n], P)
    ensures Cap(frames, P) == Cap(frames[..n], P)
  {
    if P != [] {
      CapPrefixFrames(frames, P[..|P| - 1], n);
    }
  }

  lemma ClassCapStep(frames: Frames, G: nat, empty: bool)
    requires frames != []
    ensures InBounds(frames, ClassOf(frames, G, empty))
    ensures var n := |frames| - 1;
      && InBounds(frames[..n], ClassOf(frames[..n], G, empty))
      && Cap(frames, ClassOf(frames, G, empty))
      == Cap(frames[..n], ClassOf(frames[..n], G, empty)) + if InClass(frames[n], G, empty) then |frames[n]| else 0
  {
    var n := |frames| - 1;
    var p := ClassOf(frames[..n], G, empty);
    ClassBounds(frames, G, empty);
    ClassBounds(frames[..n], G, empty);
    CapPrefixFrames(frames, p, n);
    CapSnoc(frames, p, n);
    assert p + [] == p;
  }

  /** Empty and partial frames hold every free block. */
  lemma {:induction false} SplitCap(frames: Frames, G: pos)
    ensures InBounds(frames, ClassOf(frames, G, true)) && InBounds(frames, ClassOf(frames, G, false))
    ensures Cap(frames, ClassOf(frames, G, true)) + Cap(frames, ClassOf(frames, G, false)) == SumFree(frames)
  {
    ClassBounds(frames, G, true);
    ClassBounds(frames, G, false);
    if frames != [] {
      SplitCap(frames[..|frames| - 1], G);
      ClassCapStep(frames, G, true);
      ClassCapStep(frames, G, false);
    }
  }

  /** All frames with room, best first. */
  function Order(frames: Frames, G: nat): seq<nat> {
    ClassBounds(frames, G, false);
    ClassOf(frames, G, true) + SortRanked(frames, ClassOf(frames, G, false))
  }

  /** Empty frames in index order, then the ranked partial frames, is one ranking. */
  lemma OrderRanked(frames: Frames, G: pos)
    requires forall f | 0 <= f < |frames| :: |frames[f]| <= G
    ensures Ranked(frames, Order(frames, G))
    ensures forall f: nat :: f in Elems(Order(frames, G)) <==> f < |frames| && frames[f] != {}
  {
    hide ClassOf, SortRanked, Cap;
    var a, b := ClassOf(frames, G, true), ClassOf(frames, G, false);
    ClassBounds(frames, G, true);
    ClassBounds(frames, G, false);
    ClassMeaning(frames, G, true);
    ClassMeaning(frames, G, false);
    SortRankedMeaning(frames, b);
    var c := SortRanked(frames, b);
    ElemsConcat(a, c);
    forall i, j | 0 <= i < j < |a + c|
      ensures Precedes(frames, (a + c)[i], (a + c)[j])
    {
      assert i < |a| ==> a[i] in Elems(a);
      assert j < |a| ==> a[j] in Elems(a);
      assert j >= |a| ==> c[j - |a|] in Elems(c);
    }
  }

  lemma ElemsConcat(a: seq<nat>, b: seq<nat>)
    ensures Elems(a + b) == Elems(a) + Elems(b)
  {
    assert forall x :: x in a + b <==> x in a || x in b;
  }

  /** A ranking of every frame with room is best first, and so are its prefixes. */
  lemma RankedBest(frames: Frames, all: seq<nat>, n: nat)
    requires Ranked(frames, all) && n <= |all|
    requires forall f: nat :: f in Elems(all) <==> f < |frames| && frames[f] != {}
    ensures BestFirst(frames, all[..n])
  {
    forall i | 0 <= i < n
      ensures BestOutside(frames, all[..n][..i], all[..n][i])
    {
      assert all[..n][..i] == all[..i];
      assert all[i] in Elems(all);
      assert forall j | 0 <= j < i :: all[j] in all[..i];
      forall g | 0 <= g < |frames| && g !in all[..i]
        ensures Before(frames, all[i], g)
      {
        if g in Elems(all) {
          var j :| 0 <= j < |all| && all[j] == g;
        }
      }
    }
  }

  /** Frames are appended while the capacity is short. */
  ghost predicate Filling(frames: Frames, all: seq<nat>, i: nat, chosen: seq<nat>, cap: nat, n: nat) {
    && InBounds(frames, all) && i <= |all| && chosen == all[..i]
    && cap == Cap(frames, chosen)
    && (i > 0 ==> Cap(frames, all[..i - 1]) < n)
  }

  lemma FillStep(frames: Frames, all: seq<nat>, i: nat, chosen: seq<nat>, cap: nat, n: nat, f: nat)
    requires Filling(frames, all, i, chosen, cap, n) && i < |all| && all[i] == f && cap < n
    ensures f < |frames| && Filling(frames, all, i + 1, chosen + [f], cap + |frames[f]|, n)
  {
    CapSnoc(frames, chosen, f);
    assert all[..i + 1] == chosen + [f];
  }

  /** all ranks every frame with room. */
  ghost predicate FullOrder(frames: Frames, all: seq<nat>) {
    && Ranked(frames, all) && Cap(frames, all) == SumFree(frames)
    && forall f: nat :: f in Elems(all) <==> f < |frames| && frames[f] != {}
  }

  lemma FillDone(frames: Frames, all: seq<nat>, i: nat, chosen: seq<nat>, cap: nat, n: nat)
    requires Filling(frames, all, i, chosen, cap, n) && n > 0 && FullOrder(frames, all)
    requires cap >= n || i == |all|
    ensures cap >= n <==> SumFree(frames) >= n
    ensures cap >= n ==> PlanFor(frames, chosen, n)
  {
    CapPrefix(frames, all, i, |all|);
    assert all[..|all|] == all;
    RankedBest(frames, all, i);
    if cap >= n {
      assert i > 0;
      assert all[..i][..i - 1] == all[..i - 1];
    }
  }

  lemma OrderMeaning(frames: Frames, G: pos)
    requires forall f | 0 <= f < |frames| :: |frames[f]| <= G
    ensures FullOrder(frames, Order(frames, G))
    ensures forall i | 0 <= i < |ClassOf(frames, G, true)| :: |frames[Order(frames, G)[i]]| == G
  {
    OrderRanked(frames, G);
    SplitCap(frames, G);
    ClassBounds(frames, G, false);
    SortRankedMeaning(frames, ClassOf(frames, G, false));
    CapConcat(frames, ClassOf(frames, G, true), SortRanked(frames, ClassOf(frames, G, false)));
    ClassMeaning(frames, G, true);
    forall i | 0 <= i < |ClassOf(frames, G, true)|
      ensures |frames[Order(frames, G)[i]]| == G
    {
      assert ClassOf(frames, G, true)[i] in Elems(ClassOf(frames, G, true));
    }
  }

  /** The frame choice of _plan_frames: found exactly when the pool can hold n blocks. */
  method ChoosePlan(frames: Frames, G: pos, n: nat) returns (chosen: seq<nat>, cap: nat)
    requires n > 0 && forall f | 0 <= f < |frames| :: |frames[f]| <= G
    ensures cap >= n <==> SumFree(frames) >= n
    ensures cap >= n ==> PlanFor(frames, chosen, n)
  {
    var empties, partials := SplitFrames(frames, G);
    ClassBounds(frames, G, false);
    partials := SortRanked(frames, partials);
    ghost var all := Order(frames, G);
    OrderMeaning(frames, G);
    chosen, cap := [], 0;
    var i := 0;
    while i < |empties| && cap < n
      invariant 0 <= i <= |empties| && Filling(frames, all, i, chosen, cap, n)
    {
      assert all[i] == empties[i];
      FillStep(frames, all, i, chosen, cap, n, empties[i]);
      chosen := chosen + [empties[i]];
      cap := cap + G;
      i := i + 1;
    }
    ghost var k;
    chosen, cap, k := FillPartials(frames, empties, partials, n, chosen, cap, i);
    FillDone(frames, all, k, chosen, cap, n);
  }

  lemma IndexRight(a: seq<nat>, b: seq<nat>, k: nat, j: nat)
    requires k == |a| + j && j < |b|
    ensures k < |a + b| && (a + b)[k] == b[j]
  {
  }

  /** The second loop: partial frames, once the empty ones are used up. */
  method FillPartials(frames: Frames, ghost empties: seq<nat>, partials: seq<nat>, n: nat,
                      chosen0: seq<nat>, cap0: nat, ghost i: nat)
    returns (chosen: seq<nat>, cap: nat, ghost k: nat)
    requires Filling(frames, empties + partials, i, chosen0, cap0, n) && (cap0 < n ==> i == |empties|)
    ensures Filling(frames, empties + partials, k, chosen, cap, n)
    ensures cap >= n || k == |empties| + |partials|
  {
    chosen, cap, k := chosen0, cap0, i;
    var j := 0;
    while j < |partials| && cap < n
      invariant 0 <= j <= |partials| && Filling(frames, empties + partials, k, chosen, cap, n)
      invariant cap < n || j > 0 ==> k == |empties| + j
    {
      IndexRight(empties, partials, k, j);
      FillStep(frames, empties + partials, k, chosen, cap, n, partials[j]);
      chosen := chosen + [partials[j]];
      cap := cap + |frames[partials[j]]|;
      j, k := j + 1, k + 1;
    }
  }

  method SplitFrames(frames: Frames, G: pos) returns (empties: seq<nat>, partials: seq<nat>)
    ensures empties == ClassOf(frames, G, true) && partials == ClassOf(frames, G, false)
  {
    empties, partials := [], [];
    for f := 0 to |frames|
      invariant empties == ClassOf(frames[..f], G, true) && partials == ClassOf(frames[..f], G, false)
    {
      assert frames[..f + 1][..f] == frames[..f];
      var k := |frames[f]|;
      if k == G {
        empties := empties + [f];
      } else if k != 0 {
        partials := partials + [f];
      }
    }
    assert frames[..|frames|] == frames;
  }
}
