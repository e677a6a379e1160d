// The in-order coalescer: greedy contiguous commands, proved fewest among all
// order-preserving cuts, and compared with the windowed count.
module InOrder {
  import opened Counting
  import opened Commands
  import opened Optimality
  import opened Windowed

  /** A cut vector marks the bursts that open a new command. */
  type Cuts = seq<bool>

  function Trues(c: Cuts): nat {
    if c == [] then 0 else Trues(c[..|c| - 1]) + Bit(c[|c| - 1])
  }

  /** First burst of the command that holds burst i. */
  function Start(c: Cuts, i: nat): (j: nat)
    requires i < |c|
    ensures j <= i
  {
    if i == 0 || c[i] then i else Start(c, i - 1)
  }

  /** Bursts lo..hi form one command: one row, no bank twice, at most B of them. */
  ghost predicate LegalSegment(s: seq<Burst>, lo: nat, hi: nat, B: nat) {
    && lo <= hi <= |s|
    && hi - lo <= B
    && forall i, j | lo <= i < j < hi :: s[i].row == s[j].row && s[i].bank != s[j].bank
  }

  ghost predicate LegalCuts(s: seq<Burst>, c: Cuts, B: nat) {
    && |c| == |s|
    && (s != [] ==> c[0])
    && forall j | 0 <= j < |s| :: LegalSegment(s, Start(c, j), j + 1, B)
  }

  // ---- the greedy cuts ---------------------------------------------------

  ghost function BanksIn(s: seq<Burst>, lo: nat, hi: nat): set<nat>
    requires lo <= hi <= |s|
  {
    set i | lo <= i < hi :: s[i].bank
  }

  /** Burst n cannot join the open command lo..n. */
  ghost predicate Closes(s: seq<Burst>, lo: nat, n: nat, B: nat)
    requires lo < n < |s|
  {
    s[n].row != s[n - 1].row || s[n].bank in BanksIn(s, lo, n) || n - lo == B
  }

  ghost function Greedy(s: seq<Burst>, B: nat): (c: Cuts)
    ensures |c| == |s|
  {
    if s == [] then [] else
    var n := |s| - 1;
    var p := Greedy(s[..n], B);
    p + [n == 0 || Closes(s, Start(p, n - 1), n, B)]
  }

  lemma {:induction false} StartPrefix(c: Cuts, b: bool, i: nat)
    requires i < |c|
    ensures Start(c + [b], i) == Start(c, i)
  {
    if i > 0 && !c[i] {
      StartPrefix(c, b, i - 1);
    }
  }

  /** Appending one flag to a cut vector. */
  lemma Snoc(c: Cuts, b: bool)
    ensures Trues(c + [b]) == Trues(c) + Bit(b)
    ensures Start(c + [b], |c|) == if b || c == [] then |c| else Start(c, |c| - 1)
  {
    assert (c + [b])[..|c|] == c;
    if c != [] {
      StartPrefix(c, b, |c| - 1);
    }
  }

  lemma LegalPrefix(s: seq<Burst>, c: Cuts, B: nat)
    requires LegalCuts(s, c, B) && s != []
    ensures LegalCuts(s[..|s| - 1], c[..|s| - 1], B)
  {
    var n := |s| - 1;
    assert c == c[..n] + [c[n]];
    forall j | 0 <= j < n
      ensures LegalSegment(s[..n], Start(c[..n], j), j + 1, B)
    {
      StartPrefix(c[..n], c[n], j);
      assert LegalSegment(s, Start(c, j), j + 1, B);
    }
  }

  /** Extending a legal open command by a burst that does not close it stays legal. */
  lemma ExtendLegal(s: seq<Burst>, lo: nat, n: nat, B: nat)
    requires lo < n < |s|
    requires LegalSegment(s, lo, n, B) && !Closes(s, lo, n, B)
    ensures LegalSegment(s, lo, n + 1, B)
  {
    forall i | lo <= i < n
      ensures s[i].row == s[n].row && s[i].bank != s[n].bank
    {
      assert s[i].bank in BanksIn(s, lo, n);
    }
  }

  lemma {:induction false} GreedyLegal(s: seq<Burst>, B: nat)
    requires B > 0
    ensures LegalCuts(s, Greedy(s, B), B)
  {
    if s != [] {
      var n := |s| - 1;
      var p, c := Greedy(s[..n], B), Greedy(s, B);
      GreedyLegal(s[..n], B);
      forall j | 0 <= j < |s|
        ensures LegalSegment(s, Start(c, j), j + 1, B)
      {
        if j < n {
          StartPrefix(p, c[n], j);
          assert LegalSegment(s[..n], Start(p, j), j + 1, B);
        } else if !c[n] {
          StartPrefix(p, c[n], n - 1);
          assert LegalSegment(s[..n], Start(p, n - 1), n, B);
          ExtendLegal(s, Start(p, n - 1), n, B);
        }
      }
    }
  }

  /** A burst that legally joins a command joins every later-started part of it. */
  lemma StaysOpen(s: seq<Burst>, lo: nat, lo': nat, n: nat, B: nat)
    requires lo <= lo' < n < |s| && LegalSegment(s, lo, n + 1, B)
    ensures !Closes(s, lo', n, B)
  {
    assert s[n - 1].row == s[n].row;
  }

  /** Greedy is ahead of c on s: fewer commands, or as many and a later open command. */
  ghost predicate Ahead(g: Cuts, c: Cuts)
    requires |g| == |c| > 0
  {
    || Trues(g) < Trues(c)
    || (Trues(g) == Trues(c) && Start(g, |g| - 1) >= Start(c, |c| - 1))
  }

  lemma AheadStep(g: Cuts, c: Cuts, x: bool, y: bool)
    requires |g| == |c| > 0 && Ahead(g, c)
    requires !y && Start(c, |c| - 1) <= Start(g, |g| - 1) ==> !x
    ensures Ahead(g + [x], c + [y])
  {
    Snoc(g, x);
    Snoc(c, y);
  }

  /** Cutting only when forced to keeps the lead for one more burst. */
  lemma AheadNext(s: seq<Burst>, p: Cuts, c: Cuts, n: nat, B: nat)
    requires B > 0 && LegalCuts(s, c, B) && n > 0 && |s| == n + 1 && |p| == n && Ahead(p, c[..n])
    ensures Ahead(p + [Closes(s, Start(p, n - 1), n, B)], c)
  {
    hide Ahead, LegalSegment, Closes, Trues;
    assert c == c[..n] + [c[n]];
    Snoc(c[..n], c[n]);
    if !c[n] && Start(c[..n], n - 1) <= Start(p, n - 1) {
      assert LegalSegment(s, Start(c, n), n + 1, B);
      StaysOpen(s, Start(c, n), Start(p, n - 1), n, B);
    }
    AheadStep(p, c[..n], Closes(s, Start(p, n - 1), n, B), c[n]);
  }

  lemma {:induction false} StaysAhead(s: seq<Burst>, c: Cuts, B: nat)
    requires B > 0 && LegalCuts(s, c, B) && s != []
    ensures Ahead(Greedy(s, B), c)
  {
    var n := |s| - 1;
    if n > 0 {
      LegalPrefix(s, c, B);
      StaysAhead(s[..n], c[..n], B);
      AheadNext(s, Greedy(s[..n], B), c, n, B);
    }
  }

  /** The greedy cut is legal and no legal cut of the stream has fewer commands. */
  lemma InOrderOptimal(s: seq<Burst>, B: nat)
    requires B > 0
    ensures LegalCuts(s, Greedy(s, B), B)
    ensures forall c | LegalCuts(s, c, B) :: Trues(Greedy(s, B)) <= Trues(c)
  {
    GreedyLegal(s, B);
    forall c | LegalCuts(s, c, B)
      ensures Trues(Greedy(s, B)) <= Trues(c)
    {
      if s != [] {
        StaysAhead(s, c, B);
      }
    }
  }

  // ---- hits --------------------------------------------------------------

  /** Commands after the first whose row is the previous command's row. */
  function HitCuts(s: seq<Burst>, c: Cuts): nat
    requires |c| == |s|
  {
    if s == [] then 0 else
    var n := |s| - 1;
    HitCuts(s[..n], c[..n]) + Bit(c[n] && n > 0 && s[n].row == s[n - 1].row)
  }

  /** For every legal cut the misses are exactly the row runs. */
  lemma {:induction false} MissesAreRuns(s: seq<Burst>, c: Cuts, B: nat)
    requires LegalCuts(s, c, B)
    ensures Trues(c) == HitCuts(s, c) + Runs(s)
  {
    if s != [] {
      var n := |s| - 1;
      LegalPrefix(s, c, B);
      MissesAreRuns(s[..n], c[..n], B);
      if n > 0 && !c[n] {
        assert LegalSegment(s, Start(c, n), n + 1, B);
        assert s[n - 1].row == s[n].row;
      }
    }
  }

  // ---- the loop ----------------------------------------------------------

  /** Row open before the command that holds the last burst of s. */
  ghost function RowBefore(s: seq<Burst>, c: Cuts): int
    requires |c| == |s|
  {
    if s == [] || Start(c, |s| - 1) == 0 then -1 else s[Start(c, |s| - 1) - 1].row
  }

  ghost function LastRow(s: seq<Burst>): int {
    if s == [] then -1 else s[|s| - 1].row
  }

  ghost function OpenBanks(s: seq<Burst>, c: Cuts): set<nat>
    requires |c| == |s|
  {
    if s == [] then {} else BanksIn(s, Start(c, |s| - 1), |s|)
  }

  lemma {:induction false} BanksInSize(s: seq<Burst>, lo: nat, hi: nat, B: nat)
    requires LegalSegment(s, lo, hi, B)
    ensures |BanksIn(s, lo, hi)| == hi - lo
  {
    if lo < hi {
      BanksInSize(s, lo, hi - 1, B);
      assert BanksIn(s, lo, hi) == BanksIn(s, lo, hi - 1) + {s[hi - 1].bank};
    }
  }

  /** The loop's test for issuing the open command before burst b. */
  ghost predicate Issues(s: seq<Burst>, b: Burst, B: nat) {
    var open := OpenBanks(s, Greedy(s, B));
    b.row != LastRow(s) || b.bank in open || |open| == B
  }

  lemma IssuesMeaning(s: seq<Burst>, b: Burst, B: nat)
    requires B > 0
    ensures Greedy(s + [b], B) == Greedy(s, B) + [Issues(s, b, B)]
  {
    var n, t, c := |s|, s + [b], Greedy(s, B);
    assert t[..n] == s;
    if n > 0 {
      var lo := Start(c, n - 1);
      GreedyLegal(s, B);
      assert LegalSegment(s, lo, n, B);
      BanksInSize(s, lo, n, B);
      assert BanksIn(t, lo, n) == BanksIn(s, lo, n);
    }
  }

  lemma BanksAppend(s: seq<Burst>, lo: nat, b: Burst)
    requires lo <= |s|
    ensures BanksIn(s + [b], lo, |s| + 1) == BanksIn(s, lo, |s|) + {b.bank}
  {
    assert (s + [b])[|s|] == b;
    assert forall i | lo <= i < |s| :: (s + [b])[i] == s[i];
  }

  /** How the open command moves when a burst is appended. */
  lemma OpenStep(s: seq<Burst>, c: Cuts, b: Burst, x: bool)
    requires |c| == |s| && (s == [] ==> x)
    ensures RowBefore(s + [b], c + [x]) == if x then LastRow(s) else RowBefore(s, c)
    ensures OpenBanks(s + [b], c + [x]) == if x then {b.bank} else OpenBanks(s, c) + {b.bank}
  {
    Snoc(c, x);
    if x {
      BanksAppend(s, |s|, b);
      assert BanksIn(s, |s|, |s|) == {};
    } else {
      BanksAppend(s, Start(c, |s| - 1), b);
    }
  }

  /** The loop variables of _coalesce_inorder after the bursts s, cut as c. */
  ghost predicate Tracks(s: seq<Burst>, c: Cuts, nCmds: nat, nHits: nat, openRow: int, curRow: int, curBanks: set<nat>)
  {
    && |c| == |s|
    && curRow == LastRow(s)
    && openRow == RowBefore(s, c)
    && curBanks == OpenBanks(s, c)
    && nCmds + Bit(curRow != -1) == Trues(c)
    && nHits + Bit(curRow != -1 && curRow == openRow) == HitCuts(s, c)
  }

  lemma TracksStep(s: seq<Burst>, c: Cuts, b: Burst, x: bool,
                   nCmds: nat, nHits: nat, openRow: int, curRow: int, curBanks: set<nat>)
    requires Tracks(s, c, nCmds, nHits, openRow, curRow, curBanks) && (curRow == -1 ==> x)
    ensures x && curRow != -1 ==>
              Tracks(s + [b], c + [x], nCmds + 1, nHits + Bit(curRow == openRow), curRow, b.row, {b.bank})
    ensures x && curRow == -1 ==> Tracks(s + [b], c + [x], nCmds, nHits, openRow, b.row, {b.bank})
    ensures !x && b.row == curRow ==> Tracks(s + [b], c + [x], nCmds, nHits, openRow, curRow, curBanks + {b.bank})
  {
    Snoc(c, x);
    OpenStep(s, c, b, x);
  }

  lemma NothingTracked(B: nat)
    ensures Greedy([], B) == [] && Tracks([], [], 0, 0, -1, -1, {})
  {
  }

  /** _coalesce_inorder. */
  method CoalesceInOrder(s: seq<Burst>, B: nat) returns (nCmds: nat, nHits: nat, n: nat)
    requires B > 0
    ensures nCmds == Trues(Greedy(s, B))
    ensures nHits == HitCuts(s, Greedy(s, B))
    ensures n == |s|
  {
    hide Greedy, Trues, HitCuts, LastRow, RowBefore, OpenBanks;
    nCmds, nHits := 0, 0;
    var openRow: int, curRow: int := -1, -1;
    var curBanks: set<nat> := {};
    NothingTracked(B);
    ghost var seen: seq<Burst>, c: Cuts := [], [];
    var i := 0;
    while i < |s|
      invariant 0 <= i <= |s|
      invariant seen == s[..i] && c == Greedy(seen, B)
      invariant Tracks(seen, c, nCmds, nHits, openRow, curRow, curBanks)
    {
      var b, r := s[i].bank, s[i].row;
      IssuesMeaning(seen, s[i], B);
      TracksStep(seen, c, s[i], Issues(seen, s[i], B), nCmds, nHits, openRow, curRow, curBanks);
      seen, c := seen + [s[i]], c + [Issues(seen, s[i], B)];
      if r != curRow || b in curBanks || |curBanks| == B {
        if curRow != -1 {
          nCmds := nCmds + 1;
          nHits := nHits + Bit(curRow == openRow);
          openRow := curRow;
        }
        curRow := r;
        curBanks := {b};
      } else {
        curBanks := curBanks + {b};
      }
      i := i + 1;
    }
    assert seen == s;
    if curRow != -1 {
      nCmds := nCmds + 1;
      nHits := nHits + Bit(curRow == openRow);
    }
    n := |s|;
  }

  // ---- windowed against in-order -----------------------------------------

  /** Legal except that the first burst may continue a command opened earlier. */
  ghost predicate LegalTail(s: seq<Burst>, c: Cuts, B: nat) {
    |c| == |s| && forall j | 0 <= j < |s| :: LegalSegment(s, Start(c, j), j + 1, B)
  }

  lemma {:induction false} StartDrop(c: Cuts, k: nat, i: nat)
    requires k <= i < |c|
    ensures Start(c[k..], i - k) == if Start(c, i) < k then 0 else Start(c, i) - k
  {
    if i > k && !c[i] {
      StartDrop(c, k, i - 1);
    }
  }

  lemma LegalDrop(s: seq<Burst>, c: Cuts, B: nat, k: nat)
    requires LegalTail(s, c, B) && k <= |s|
    ensures LegalTail(s[k..], c[k..], B)
  {
    forall j | 0 <= j < |s| - k
      ensures LegalSegment(s[k..], Start(c[k..], j), j + 1, B)
    {
      StartDrop(c, k, j + k);
      assert LegalSegment(s, Start(c, j + k), j + k + 1, B);
    }
  }

  lemma {:induction false} StartTake(c: Cuts, k: nat, i: nat)
    requires i < k <= |c|
    ensures Start(c[..k], i) == Start(c, i)
  {
    if i > 0 && !c[i] {
      StartTake(c, k, i - 1);
    }
  }

  lemma LegalTake(s: seq<Burst>, c: Cuts, B: nat, k: nat)
    requires LegalTail(s, c, B) && k <= |s|
    ensures LegalTail(s[..k], c[..k], B)
  {
    forall j | 0 <= j < k
      ensures LegalSegment(s[..k], Start(c[..k], j), j + 1, B)
    {
      StartTake(c, k, j);
      assert LegalSegment(s, Start(c, j), j + 1, B);
    }
  }

  lemma {:induction false} TruesSplit(c: Cuts, k: nat)
    requires k <= |c|
    ensures Trues(c) == Trues(c[..k]) + Trues(c[k..])
  {
    if k < |c| {
      var n := |c| - 1;
      TruesSplit(c[..n], k);
      assert c[..n][..k] == c[..k] && c[..n][k..] == c[k..][..n - k];
    } else {
      assert c[..k] == c;
    }
  }

  /** Two bursts with no cut between them share a command. */
  lemma {:induction false} SameCommand(c: Cuts, i: nat, j: nat)
    requires i <= j < |c|
    ensures Trues(c[..i + 1]) <= Trues(c[..j + 1])
    ensures Trues(c[..i + 1]) == Trues(c[..j + 1]) ==> Start(c, j) <= i
  {
    if i < j {
      SameCommand(c, i, j - 1);
      assert c[..j + 1][..j] == c[..j];
    }
  }

  lemma {:induction false} TruesGrow(c: Cuts, i: nat)
    requires i < |c|
    ensures Bit(c[0]) <= Trues(c[..i + 1]) <= Trues(c)
  {
    TruesSplit(c, i + 1);
    TruesSplit(c[..i + 1], 1);
    Snoc([], c[0]);
    assert c[..i + 1][..1] == [c[0]] == [] + [c[0]];
  }

  /** In-order commands of a window are one legal assignment of its bursts. */
  lemma CutsAssign(w: seq<Burst>, c: Cuts, B: nat)
    requires LegalTail(w, c, B) && B > 0 && BanksBelow(w, B) && w != []
    ensures SumM(Groups(w, B)) <= Trues(c) + Bit(!c[0])
  {
    hide LegalTail, Trues, Groups, SumM, LegalAssignment, BanksBelow;
    SameSize(w, c, B);
    var off := Bit(c[0]);
    forall i {:trigger c[..i + 1]} | 0 <= i < |w|
      ensures off <= Trues(c[..i + 1]) <= Trues(c)
    {
      TruesGrow(c, i);
    }
    var a := seq(|w|, i requires 0 <= i < |w| => Trues(c[..i + 1]) - off);
    forall i, j | 0 <= i < j < |w| && a[i] == a[j]
      ensures w[i].row == w[j].row && w[i].bank != w[j].bank
    {
      TogetherLegal(w, c, B, i, j);
    }
    OneCommandEach(w, a, Trues(c) + 1 - off);
    WindowOptimal(w, B);
  }

  lemma SameSize(w: seq<Burst>, c: Cuts, B: nat)
    requires LegalTail(w, c, B)
    ensures |c| == |w|
  {
  }

  /** Bursts that share a command have one row and distinct banks. */
  lemma TogetherLegal(w: seq<Burst>, c: Cuts, B: nat, i: nat, j: nat)
    requires LegalTail(w, c, B) && i < j < |w| && |c| == |w| && Trues(c[..i + 1]) == Trues(c[..j + 1])
    ensures w[i].row == w[j].row && w[i].bank != w[j].bank
  {
    hide Trues;
    SameCommand(c, i, j);
    assert LegalSegment(w, Start(c, j), j + 1, B);
  }

  lemma OneCommandEach(w: seq<Burst>, a: seq<nat>, n: nat)
    requires |a| == |w| && forall i | 0 <= i < |w| :: a[i] < n
    requires forall i, j | 0 <= i < j < |w| && a[i] == a[j] :: w[i].row == w[j].row && w[i].bank != w[j].bank
    ensures LegalAssignment(w, a, n)
  {
  }

  lemma {:induction false} WindowedAgainstCuts(s: seq<Burst>, c: Cuts, B: nat, W: nat)
    requires LegalTail(s, c, B) && B > 0 && W > 0 && BanksBelow(s, B)
    ensures TotalCmds(Windows(s, W), B) <= Trues(c) + |Windows(s, W)| - Bit(s != [] && c[0])
  {
    if s != [] {
      var n := Min(W, |s|);
      LegalTake(s, c, B, n);
      LegalDrop(s, c, B, n);
      TruesSplit(c, n);
      CutsAssign(s[..n], c[..n], B);
      WindowedAgainstCuts(s[n..], c[n..], B, W);
      TotalCmdsCons(s[..n], Windows(s[n..], W), B);
    }
  }

  /** Windowing costs at most one extra command per window boundary. */
  lemma WindowedNearInOrder(s: seq<Burst>, B: nat, W: nat)
    requires B > 0 && W > 0 && BanksBelow(s, B) && s != []
    ensures TotalCmds(Windows(s, W), B) <= Trues(Greedy(s, B)) + |Windows(s, W)| - 1
  {
    GreedyLegal(s, B);
    WindowedAgainstCuts(s, Greedy(s, B), B, W);
  }
}
