// The windowed coalescer: its loop, its command and miss counts over a whole stream.
module Windowed {
  import opened Counting
  import opened Commands
  import opened Optimality

  /** The stream cut into consecutive windows of W bursts, the last one shorter. */
  function Windows(s: seq<Burst>, W: nat): seq<seq<Burst>>
    requires W > 0
  {
    if s == [] then [] else
    var n := Min(W, |s|);
    [s[..n]] + Windows(s[n..], W)
  }

  ghost predicate AllWindows(ws: seq<seq<Burst>>, B: nat) {
    forall k | 0 <= k < |ws| :: ws[k] != [] && BanksBelow(ws[k], B)
  }

  function Join(ws: seq<seq<Burst>>): seq<Burst> {
    if ws == [] then [] else Join(ws[..|ws| - 1]) + ws[|ws| - 1]
  }

  /** Row left open after the windows ws: the row of the last burst, -1 when cold. */
  function Carry(ws: seq<seq<Burst>>): int {
    if ws == [] || ws[|ws| - 1] == [] then -1 else
    var w := ws[|ws| - 1]; w[|w| - 1].row
  }

  /** numpy's searchsorted on an ascending row list. */
  function SearchSorted(gs: seq<Group>, c: int): (i: nat)
    ensures i <= |gs|
  {
    if gs == [] then 0 else SearchSorted(gs[..|gs| - 1], c) + Bit(gs[|gs| - 1].row < c)
  }

  predicate CarryPresent(gs: seq<Group>, c: int) {
    var i := SearchSorted(gs, c);
    i < |gs| && gs[i].row == c
  }

  ghost predicate HasRow(gs: seq<Group>, c: int) {
    exists j | 0 <= j < |gs| :: gs[j].row == c
  }

  lemma {:induction false} SearchSortedMeaning(gs: seq<Group>, c: int)
    requires RowsAscending(gs)
    ensures var i := SearchSorted(gs, c);
      (forall j | 0 <= j < i :: gs[j].row < c) && (forall j | i <= j < |gs| :: gs[j].row >= c)
  {
    if gs != [] {
      SearchSortedMeaning(gs[..|gs| - 1], c);
    }
  }

  /** The binary search finds the carried row exactly when the window holds it. */
  lemma CarryPresentMeaning(gs: seq<Group>, c: int)
    requires RowsAscending(gs)
    ensures CarryPresent(gs, c) <==> HasRow(gs, c)
  {
    SearchSortedMeaning(gs, c);
  }

  function WindowMisses(gs: seq<Group>, c: int): nat {
    if CarryPresent(gs, c) then |gs| - 1 else |gs|
  }

  function TotalCmds(ws: seq<seq<Burst>>, B: nat): nat
    requires B > 0
  {
    if ws == [] then 0 else TotalCmds(ws[..|ws| - 1], B) + SumM(Groups(ws[|ws| - 1], B))
  }

  function TotalMisses(ws: seq<seq<Burst>>, B: nat): nat
    requires B > 0
  {
    if ws == [] then 0 else
    TotalMisses(ws[..|ws| - 1], B) + WindowMisses(Groups(ws[|ws| - 1], B), Carry(ws[..|ws| - 1]))
  }

  lemma WindowsStep(s: seq<Burst>, W: nat, pos: nat, done: seq<seq<Burst>>)
    requires W > 0 && pos < |s|
    ensures var e := Min(pos + W, |s|);
      done + Windows(s[pos..], W) == done + [s[pos..e]] + Windows(s[e..], W)
  {
    var e := Min(pos + W, |s|);
    assert s[pos..][..Min(W, |s[pos..]|)] == s[pos..e];
    assert s[pos..][Min(W, |s[pos..]|)..] == s[e..];
  }

  lemma TotalsAppend(ws: seq<seq<Burst>>, w: seq<Burst>, B: nat)
    requires B > 0 && w != []
    ensures TotalCmds(ws + [w], B) == TotalCmds(ws, B) + SumM(Groups(w, B))
    ensures TotalMisses(ws + [w], B) == TotalMisses(ws, B) + WindowMisses(Groups(w, B), Carry(ws))
    ensures Carry(ws + [w]) == w[|w| - 1].row
  {
    assert (ws + [w])[..|ws|] == ws;
  }

  /** coalesce_channel in window mode. */
  method CoalesceWindows(s: seq<Burst>, B: nat, W: nat) returns (nCmds: nat, nHits: int, n: nat)
    requires B > 0 && W > 0
    ensures nCmds == TotalCmds(Windows(s, W), B)
    ensures nHits == nCmds - TotalMisses(Windows(s, W), B)
    ensures n == |s|
  {
    n := |s|;
    nCmds, nHits := 0, 0;
    var carry: int := -1;
    var pos := 0;
    ghost var done: seq<seq<Burst>> := [];
    while pos < n
      invariant pos <= n
      invariant Windows(s, W) == done + Windows(s[pos..], W)
      invariant carry == Carry(done)
      invariant nCmds == TotalCmds(done, B)
      invariant nHits == nCmds - TotalMisses(done, B)
    {
      var w := s[pos..Min(pos + W, n)];
      var gs := Groups(w, B);
      var cmds := SumM(gs);
      var d := |gs|;
      var i := SearchSorted(gs, carry);
      var present := i < d && gs[i].row == carry;
      var misses := d - Bit(present);
      nCmds := nCmds + cmds;
      nHits := nHits + cmds - misses;
      carry := w[|w| - 1].row;
      WindowsStep(s, W, pos, done);
      TotalsAppend(done, w, B);
      done := done + [w];
      pos := Min(pos + W, n);
    }
    assert s[pos..] == [] && done + [] == done;
  }

  // ---- totals over a whole stream ---------------------------------------

  lemma {:induction false} WindowsJoin(s: seq<Burst>, B: nat, W: nat)
    requires W > 0 && BanksBelow(s, B)
    ensures AllWindows(Windows(s, W), B) && Join(Windows(s, W)) == s
  {
    if s != [] {
      var n := Min(W, |s|);
      WindowsJoin(s[n..], B, W);
      JoinCons(s[..n], Windows(s[n..], W));
      assert s == s[..n] + s[n..];
    }
  }

  lemma {:induction false} JoinCons(w: seq<Burst>, ws: seq<seq<Burst>>)
    ensures Join([w] + ws) == w + Join(ws)
  {
    if ws == [] {
      assert ([w] + ws)[..0] == [];
    } else {
      var p, l := ws[..|ws| - 1], ws[|ws| - 1];
      JoinCons(w, p);
      assert ([w] + ws)[..|ws|] == [w] + p;
      assert w + Join(p) + l == w + (Join(p) + l);
    }
  }

  lemma {:induction false} TotalCmdsCons(w: seq<Burst>, ws: seq<seq<Burst>>, B: nat)
    requires B > 0
    ensures TotalCmds([w] + ws, B) == SumM(Groups(w, B)) + TotalCmds(ws, B)
  {
    if ws == [] {
      assert ([w] + ws)[..0] == [];
    } else {
      TotalCmdsCons(w, ws[..|ws| - 1], B);
      assert ([w] + ws)[..|ws|] == [w] + ws[..|ws| - 1];
    }
  }

  lemma {:induction false} SumMLength(gs: seq<Group>)
    requires forall j | 0 <= j < |gs| :: gs[j].m >= 1
    ensures |gs| <= SumM(gs)
  {
    if gs != [] {
      SumMLength(gs[..|gs| - 1]);
    }
  }

  /** One window: at least a command per row, and enough commands for its bursts. */
  lemma WindowBounds(w: seq<Burst>, B: nat)
    requires B > 0 && BanksBelow(w, B)
    ensures |Groups(w, B)| <= SumM(Groups(w, B))
    ensures |w| <= SumM(Groups(w, B)) * B
  {
    GroupsMeaning(w, B);
    var gs := Groups(w, B);
    assert forall j | 0 <= j < |gs| :: IsDemand(w, gs[j].row, gs[j].m);
    SumMLength(gs);
    WindowOptimal(w, B);
    var a :| LegalAssignment(w, a, SumM(gs));
    Capacity(w, a, SumM(gs), B);
  }

  lemma {:induction false} TotalBounds(ws: seq<seq<Burst>>, B: nat)
    requires B > 0 && AllWindows(ws, B)
    ensures TotalMisses(ws, B) <= TotalCmds(ws, B)
    ensures |Join(ws)| <= TotalCmds(ws, B) * B
  {
    hide SumM, Groups, BanksBelow;
    if ws != [] {
      var p, w := ws[..|ws| - 1], ws[|ws| - 1];
      TotalBounds(p, B);
      WindowBounds(w, B);
      MulDistributes(TotalCmds(p, B), SumM(Groups(w, B)), B);
    }
  }

  /** Hits lie between 0 and the command count, and M2 is at most 1. */
  lemma MetricsInRange(s: seq<Burst>, B: nat, W: nat)
    requires B > 0 && W > 0 && BanksBelow(s, B)
    ensures TotalMisses(Windows(s, W), B) <= TotalCmds(Windows(s, W), B)
    ensures |s| <= TotalCmds(Windows(s, W), B) * B
  {
    WindowsJoin(s, B, W);
    TotalBounds(Windows(s, W), B);
  }

  // ---- distinct rows <= windowed misses <= row runs ----------------------

  /** Number of maximal runs of equal rows. */
  function Runs(s: seq<Burst>): nat {
    if s == [] then 0 else
    var n := |s| - 1;
    Runs(s[..n]) + Bit(n == 0 || s[n].row != s[n - 1].row)
  }

  lemma {:induction false} RunsConcat(a: seq<Burst>, b: seq<Burst>)
    ensures Runs(a + b) == Runs(a) + Runs(b) - Bit(a != [] && b != [] && a[|a| - 1].row == b[0].row)
  {
    if b == [] {
      assert a + b == a;
    } else {
      RunsConcat(a, b[..|b| - 1]);
      assert (a + b)[..|a + b| - 1] == a + b[..|b| - 1];
    }
  }

  lemma RowsAppend(s: seq<Burst>, b: Burst)
    ensures Rows(s + [b]) == Rows(s) + {b.row}
  {
    assert (s + [b])[|s|] == b && forall i | 0 <= i < |s| :: (s + [b])[i] == s[i];
  }

  lemma {:induction false} RowsAtMostRuns(s: seq<Burst>)
    ensures |Rows(s)| <= Runs(s)
  {
    if s != [] {
      var n := |s| - 1;
      RowsAtMostRuns(s[..n]);
      assert s == s[..n] + [s[n]];
      RowsAppend(s[..n], s[n]);
      assert n > 0 && s[n].row == s[n - 1].row ==> s[..n][n - 1].row in Rows(s[..n]);
    }
  }

  lemma {:induction false} GroupRowsSize(gs: seq<Group>)
    requires RowsAscending(gs)
    ensures |GroupRows(gs)| == |gs|
  {
    if gs != [] {
      var p := gs[..|gs| - 1];
      GroupRowsSize(p);
      assert gs == p + [gs[|gs| - 1]];
      GroupRowsAppend(p, gs[|gs| - 1]);
    }
  }

  /** A window misses once per row it holds, except the row carried in. */
  lemma WindowMissesMeaning(w: seq<Burst>, B: nat, c: int)
    requires B > 0 && BanksBelow(w, B)
    ensures WindowMisses(Groups(w, B), c) == |Rows(w)| - Bit(c >= 0 && c in Rows(w))
  {
    var gs := Groups(w, B);
    GroupsMeaning(w, B);
    GroupRowsSize(gs);
    CarryPresentMeaning(gs, c);
    assert HasRow(gs, c) <==> c >= 0 && c in GroupRows(gs);
  }

  lemma CarryIsLast(ws: seq<seq<Burst>>, B: nat)
    requires AllWindows(ws, B)
    ensures ws == [] <==> Join(ws) == []
    ensures ws != [] ==> Join(ws)[|Join(ws)| - 1].row == Carry(ws) && Carry(ws) in Rows(Join(ws))
  {
    if ws != [] {
      assert Join(ws)[|Join(ws)| - 1].row in Rows(Join(ws));
    }
  }

  lemma RowsConcat(a: seq<Burst>, b: seq<Burst>)
    ensures Rows(a + b) == Rows(a) + Rows(b)
  {
    assert forall i | 0 <= i < |a| :: (a + b)[i] == a[i];
    assert forall i | 0 <= i < |b| :: (a + b)[|a| + i] == b[i];
  }

  lemma SandwichStep(a: seq<Burst>, w: seq<Burst>, B: nat, c: int)
    requires B > 0 && BanksBelow(w, B) && w != []
    requires if a == [] then c == -1 else c == a[|a| - 1].row
    ensures |Rows(a + w)| - |Rows(a)| <= WindowMisses(Groups(w, B), c) <= Runs(a + w) - Runs(a)
  {
    WindowMissesMeaning(w, B, c);
    RowsConcat(a, w);
    RunsConcat(a, w);
    RowsAtMostRuns(w);
    var fresh' := Rows(w) - Rows(a);
    assert Rows(a) + Rows(w) == Rows(a) + fresh';
    assert w[0].row in Rows(w);
    if c >= 0 && c in Rows(w) {
      assert c in Rows(a);
      SubsetSize(fresh', Rows(w) - {c});
    } else {
      SubsetSize(fresh', Rows(w));
    }
  }

  lemma {:induction false} SandwichWindows(ws: seq<seq<Burst>>, B: nat)
    requires B > 0 && AllWindows(ws, B)
    ensures |Rows(Join(ws))| <= TotalMisses(ws, B) <= Runs(Join(ws))
  {
    if ws != [] {
      var p, w := ws[..|ws| - 1], ws[|ws| - 1];
      SandwichWindows(p, B);
      CarryIsLast(p, B);
      SandwichStep(Join(p), w, B, Carry(p));
    }
  }

  /** For every stream and window: distinct rows <= windowed misses <= row runs. */
  lemma MissSandwich(s: seq<Burst>, B: nat, W: nat)
    requires B > 0 && W > 0 && BanksBelow(s, B)
    ensures |Rows(s)| <= TotalMisses(Windows(s, W), B) <= Runs(s)
  {
    WindowsJoin(s, B, W);
    SandwichWindows(Windows(s, W), B);
  }
}
