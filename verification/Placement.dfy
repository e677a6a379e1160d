// Where a fresh admission lands: in exactly the frames of a best-fit plan, so in as few as
// possible; and block for block in whole frames when enough of them are empty.
module Placement {
  import opened Counting
  import opened Pool
  import opened Bookkeeping
  import opened FramePlan

  // ---- a fresh admission touches the plan's frames -----------------------

  /** The frames blocks bs lie in. */
  ghost function FramesOf(G: pos, bs: seq<nat>): set<int> {
    set b | b in bs :: b / G
  }

  ghost function Ints(P: seq<nat>): set<int> {
    Elems<int>(P)
  }

  /** The rule's pool partway through a fresh admission that walks plan P. */
  ghost predicate Walking(p: Pool, key: Key, P: seq<nat>, m: nat, started: bool) {
    && p.Framed? && Walk(p.frames, P, m, started)
    && if started then key in p.cur && p.cur[key] == P[0] else key !in p.cur
  }

  /** One block comes from the front of the walk, which loses at most a front already used. */
  lemma WalkOne(p: Pool, size: nat, key: Key, P: seq<nat>, m: nat, started: bool) returns (Q: seq<nat>)
    requires Walking(p, key, P, m, started) && m > 0 && PoolOk(p, size)
    ensures !Empty(p) && Q != []
    ensures Q == P || (started && Q == P[1..])
    ensures var (p', b) := Take(p, key);
      p'.Framed? && p'.G == p.G && Walking(p', key, Q, m - 1, true) && b / p.G == Q[0]
  {
    WalkAdvance(p.frames, P, m, started);
    WalkPick(p.frames, P, m, started, p.cur, key);
    Q := Advance(p.frames, P);
    var o := MinOf(p.frames[Q[0]]);
    if p.frames[P[0]] == {} {
      assert started;
      WalkDrop(p.frames, P, m);
      WalkTake(p.frames, Q, m, false, o);
    } else {
      WalkTake(p.frames, Q, m, started, o);
    }
    DivUnique(BlockId(p.G, Q[0], o), p.G, Q[0], o);
  }

  /** Frames used so far plus frames still to walk are the plan. */
  ghost predicate Covered(P: seq<nat>, used: set<int>, Q: seq<nat>, started: bool) {
    Ints(P) == used + Ints(Q) && (started ==> Q != [] && Q[0] as int in used)
  }

  lemma CoveredStep(P: seq<nat>, used: set<int>, Q: seq<nat>, started: bool, R: seq<nat>)
    requires Covered(P, used, Q, started) && R != [] && (R == Q || (started && R == Q[1..]))
    ensures Covered(P, used + {R[0] as int}, R, true)
  {
    assert R[0] in R;
    if R != Q {
      assert Q == [Q[0]] + R;
      assert forall f: int :: f in Q <==> f == Q[0] || f in R;
    }
  }

  /** State m after handing out bs along plan P from state l, with Q still to walk. */
  ghost predicate Walked(l: Ledger, m: Ledger, bs: seq<nat>, key: Key, P: seq<nat>, Q: seq<nat>, left: nat,
                         started: bool) {
    && Walking(m.pool, key, Q, left, started) && l.pool.Framed? && m.pool.G == l.pool.G
    && Covered(P, FramesOf(l.pool.G, bs), Q, started)
  }

  lemma WalkedNone(l: Ledger, key: Key, P: seq<nat>, n: nat)
    requires Walking(l.pool, key, P, n, false)
    ensures Walked(l, l, [], key, P, P, n, false)
  {
  }

  lemma WalkNext(l: Ledger, m: Ledger, key: Key, P: seq<nat>, R: seq<nat>, left: nat, started: bool, bs: seq<nat>)
    returns (Q: seq<nat>)
    requires Walked(l, m, bs, key, P, R, left, started) && left > 0 && PoolOk(m.pool, m.numBlocks)
    ensures var (m', b) := Alloc(m, key);
      Walked(l, m', bs + [b], key, P, Q, left - 1, true)
  {
    hide Walk, PoolOk, Take, Covered, FramesOf;
    Q := WalkOne(m.pool, m.numBlocks, key, R, left, started);
    CoveredStep(P, FramesOf(m.pool.G, bs), R, started, Q);
    FramesOfSnoc(m.pool.G, bs, Take(m.pool, key).1);
  }

  /** Where the walk stands after i of n blocks. */
  ghost predicate WalkedAt(l: Ledger, key: Key, P: seq<nat>, Q: seq<nat>, n: nat, i: nat) {
    i <= n && var (m, bs) := AllocN(l, key, i); Walked(l, m, bs, key, P, Q, n - i, i > 0)
  }

  lemma WalkedAtNext(l: Ledger, held: multiset<nat>, key: Key, P: seq<nat>, R: seq<nat>, n: nat, i: nat)
    returns (Q: seq<nat>)
    requires Exact(l, held) && n <= |Free(l.pool)| && 0 < i <= n && WalkedAt(l, key, P, R, n, i - 1)
    ensures WalkedAt(l, key, P, Q, n, i)
  {
    hide Exact, PoolOk, Free, Alloc, AllocN, Walked, Took;
    AllocNNext(l, key, i);
    AllocNExact(l, held, key, i - 1);
    var (m, bs) := AllocN(l, key, i - 1);
    ExactPool(m, held + multiset(bs));
    Q := WalkNext(l, m, key, P, R, n - (i - 1), i - 1 > 0, bs);
  }

  lemma WalkedAtNone(l: Ledger, key: Key, P: seq<nat>, n: nat)
    requires Walking(l.pool, key, P, n, false)
    ensures WalkedAt(l, key, P, P, n, 0)
  {
    hide Walked, Walking;
    WalkedNone(l, key, P, n);
  }

  lemma {:induction false} WalkMany(l: Ledger, held: multiset<nat>, key: Key, P: seq<nat>, n: nat, i: nat)
    returns (Q: seq<nat>)
    requires Exact(l, held) && n <= |Free(l.pool)| && Walking(l.pool, key, P, n, false) && i <= n
    ensures WalkedAt(l, key, P, Q, n, i)
  {
    hide WalkedAt, Exact, Walking, Free;
    if i == 0 {
      Q := P;
      WalkedAtNone(l, key, P, n);
    } else {
      var R := WalkMany(l, held, key, P, n, i - 1);
      Q := WalkedAtNext(l, held, key, P, R, n, i);
    }
  }

  lemma ExactPool(l: Ledger, held: multiset<nat>)
    requires Exact(l, held)
    ensures PoolOk(l.pool, l.numBlocks)
  {
  }

  lemma FramesOfSnoc(G: pos, bs: seq<nat>, b: nat)
    ensures FramesOf(G, bs + [b]) == FramesOf(G, bs) + {b / G}
  {
    assert forall x :: x in bs + [b] <==> x in bs || x == b;
    assert b in bs + [b];
    assert FramesOf(G, bs) <= FramesOf(G, bs + [b]) by {
      assert forall x | x in bs :: x in bs + [b];
    }
  }

  /** A plan exists exactly for what the pool can hold. */
  lemma PlanExists(frames: Frames, G: pos, n: nat) returns (P: seq<nat>)
    requires 0 < n <= SumFree(frames) && forall f | 0 <= f < |frames| :: |frames[f]| <= G
    ensures PlanFor(frames, P, n)
  {
    var all := Order(frames, G);
    OrderMeaning(frames, G);
    P := [];
    var cap, i := 0, 0;
    while cap < n && i < |all|
      invariant i <= |all| && Filling(frames, all, i, P, cap, n)
    {
      FillStep(frames, all, i, P, cap, n, all[i]);
      P, cap, i := P + [all[i]], cap + |frames[all[i]]|, i + 1;
    }
    FillDone(frames, all, i, P, cap, n);
  }

  lemma FrameSizes(l: Ledger, held: multiset<nat>)
    requires Exact(l, held) && l.pool.Framed?
    ensures forall f | 0 <= f < |l.pool.frames| :: |l.pool.frames[f]| <= l.pool.G
    ensures |Free(l.pool)| == SumFree(l.pool.frames)
  {
    NumFreeSize(l);
    BelowSize(l.pool.G);
    forall f | 0 <= f < |l.pool.frames|
      ensures |l.pool.frames[f]| <= l.pool.G
    {
      SubsetSize(l.pool.frames[f], Below(l.pool.G));
    }
  }

  /** The frames a fresh admission of n blocks touches are exactly those of a shortest
      best-first plan. */
  lemma TouchesPlan(l: Ledger, held: multiset<nat>, key: Key, n: nat) returns (P: seq<nat>)
    requires Exact(l, held) && l.pool.Framed? && key !in l.pool.cur && 0 < n <= |Free(l.pool)|
    ensures PlanFor(l.pool.frames, P, n) && FramesOf(l.pool.G, AllocN(l, key, n).1) == Ints(P)
  {
    FrameSizes(l, held);
    P := PlanExists(l.pool.frames, l.pool.G, n);
    WalkStart(l.pool.frames, P, n);
    var Q := WalkMany(l, held, key, P, n, n);
    assert Q == [Q[0]];
  }

  lemma {:induction false} IntsSize(P: seq<nat>)
    requires Distinct(P)
    ensures |Ints(P)| == |P|
  {
    if P != [] {
      var p := P[..|P| - 1];
      IntsSize(p);
      assert P == p + [P[|P| - 1]];
      ElemsAppend<int>(p, P[|P| - 1]);
    }
  }

  /** No set of frames with room for n blocks is smaller than the set a fresh admission
      of n blocks touches. */
  lemma FewestFrames(l: Ledger, held: multiset<nat>, id: int, n: nat, T: seq<nat>)
    requires Exact(l, held) && l.pool.Framed? && Seq(id) !in l.pool.cur && 0 < n <= |Free(l.pool)|
    requires InFrames(l.pool.frames, T) && Cap(l.pool.frames, T) >= n
    ensures |FramesOf(l.pool.G, Admit(l, id, n).1)| <= |T|
  {
    var P := TouchesPlan(l, held, Seq(id), n);
    IntsSize(P);
    PlanMinimal(l.pool.frames, P, n, T);
  }

  /** With ceil(n / G) wholly empty frames, a fresh admission touches exactly that many. */
  lemma CeilFrames(l: Ledger, held: multiset<nat>, id: int, n: nat, T: seq<nat>)
    requires Exact(l, held) && l.pool.Framed? && Seq(id) !in l.pool.cur && 0 < n <= |Free(l.pool)|
    requires InFrames(l.pool.frames, T) && forall i | 0 <= i < |T| :: |l.pool.frames[T[i]]| == l.pool.G
    requires (|T| - 1) * l.pool.G < n <= |T| * l.pool.G
    ensures |FramesOf(l.pool.G, Admit(l, id, n).1)| == |T|
  {
    FrameSizes(l, held);
    var P := TouchesPlan(l, held, Seq(id), n);
    IntsSize(P);
    PlanCeil(l.pool.frames, P, n, l.pool.G, T);
  }
}
