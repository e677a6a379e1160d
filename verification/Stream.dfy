// The emitted command stream against the counting coalescer: equal command counts in
// both modes, equal in-order hits, and the exact hit difference in window mode.
module Stream {
  import opened Counting
  import opened Commands
  import opened Optimality
  import opened Windowed
  import opened InOrder

  /** One issued all-bank command. */
  datatype Command = Command(row: nat, col: nat)

  /** Row hits of a stream: commands whose row equals the previous command's row. */
  function Adjacent(out: seq<Command>): nat {
    if |out| < 2 then 0 else
    Adjacent(out[..|out| - 1]) + Bit(out[|out| - 1].row == out[|out| - 2].row)
  }

  lemma {:induction false} AdjacentConcat(a: seq<Command>, b: seq<Command>)
    ensures Adjacent(a + b) == Adjacent(a) + Adjacent(b)
                             + Bit(a != [] && b != [] && a[|a| - 1].row == b[0].row)
  {
    if b == [] {
      assert a + b == a;
    } else {
      AdjacentConcat(a, b[..|b| - 1]);
      assert (a + b)[..|a + b| - 1] == a + b[..|b| - 1];
    }
  }

  /** Row of the first and of the last group or command, -1 when there is none. */
  function FirstRow(gs: seq<Group>): int { if gs == [] then -1 else gs[0].row }

  function FinalRow(gs: seq<Group>): int { if gs == [] then -1 else gs[|gs| - 1].row }

  function OpenRow(out: seq<Command>): int { if out == [] then -1 else out[|out| - 1].row }

  // ---- in-order mode -----------------------------------------------------

  /** The first burst of each command stands for it. */
  function Heads(s: seq<Burst>, c: Cuts): seq<Command>
    requires |c| == |s|
  {
    if s == [] then [] else
    var n := |s| - 1;
    Heads(s[..n], c[..n]) + (if c[n] then [Command(s[n].row, s[n].col)] else [])
  }

  /** As many commands as cuts, with the same hits. */
  lemma {:induction false} HeadsMeaning(s: seq<Burst>, c: Cuts, B: nat)
    requires LegalCuts(s, c, B)
    ensures |Heads(s, c)| == Trues(c)
    ensures Adjacent(Heads(s, c)) == HitCuts(s, c)
    ensures s != [] ==> Heads(s, c) != [] && Heads(s, c)[|Heads(s, c)| - 1].row == LastRow(s)
  {
    if s != [] {
      var n := |s| - 1;
      LegalPrefix(s, c, B);
      HeadsMeaning(s[..n], c[..n], B);
      if c[n] {
        AdjacentConcat(Heads(s[..n], c[..n]), [Command(s[n].row, s[n].col)]);
      } else {
        assert LegalSegment(s, Start(c, n), n + 1, B);
        assert s[n - 1].row == s[n].row;
        assert Heads(s, c) == Heads(s[..n], c[..n]);
      }
    }
  }

  /** The loop variables of the in-order stream after the bursts s, cut as c. */
  ghost predicate Emits(s: seq<Burst>, c: Cuts, out: seq<Command>, curRow: int, curCol: nat, curBanks: set<nat>) {
    && |c| == |s|
    && curRow == LastRow(s)
    && curBanks == OpenBanks(s, c)
    && Heads(s, c) == if curRow == -1 then out else out + [Command(curRow, curCol)]
  }

  lemma EmitsStep(s: seq<Burst>, c: Cuts, b: Burst, x: bool,
                  out: seq<Command>, curRow: int, curCol: nat, curBanks: set<nat>)
    requires Emits(s, c, out, curRow, curCol, curBanks) && (curRow == -1 ==> x)
    ensures x ==> Emits(s + [b], c + [x], Heads(s, c), b.row, b.col, {b.bank})
    ensures !x && b.row == curRow ==> Emits(s + [b], c + [x], out, curRow, curCol, curBanks + {b.bank})
  {
    OpenStep(s, c, b, x);
  }

  lemma NothingEmitted(B: nat)
    ensures Greedy([], B) == [] && Emits([], [], [], -1, 0, {})
  {
  }

  /** coalesce_channel_stream in in-order mode. */
  method StreamInOrder(s: seq<Burst>, B: nat) returns (out: seq<Command>)
    requires B > 0
    ensures out == Heads(s, Greedy(s, B))
  {
    hide Greedy, Heads, LastRow, RowBefore, OpenBanks;
    out := [];
    var curRow: int, curCol := -1, 0;
    var curBanks: set<nat> := {};
    NothingEmitted(B);
    ghost var seen: seq<Burst>, c: Cuts := [], [];
    var i := 0;
    while i < |s|
      invariant 0 <= i <= |s|
      invariant seen == s[..i] && c == Greedy(seen, B)
      invariant curRow >= -1 && Emits(seen, c, out, curRow, curCol, curBanks)
    {
      var b, r := s[i].bank, s[i].row;
      IssuesMeaning(seen, s[i], B);
      EmitsStep(seen, c, s[i], Issues(seen, s[i], B), out, curRow, curCol, curBanks);
      seen, c := seen + [s[i]], c + [Issues(seen, s[i], B)];
      if r != curRow || b in curBanks || |curBanks| == B {
        if curRow != -1 {
          out := out + [Command(curRow, curCol)];
        }
        curRow, curCol, curBanks := r, s[i].col, {b};
      } else {
        curBanks := curBanks + {b};
      }
      i := i + 1;
    }
    assert seen == s;
    if curRow != -1 {
      out := out + [Command(curRow, curCol)];
    }
  }

  /** In-order: the stream has exactly the counted commands and the counted hits. */
  lemma InOrderAgrees(s: seq<Burst>, B: nat)
    requires B > 0
    ensures |Heads(s, Greedy(s, B))| == Trues(Greedy(s, B))
    ensures Adjacent(Heads(s, Greedy(s, B))) == HitCuts(s, Greedy(s, B))
  {
    GreedyLegal(s, B);
    HeadsMeaning(s, Greedy(s, B), B);
  }

  // ---- emission order of one window --------------------------------------

  /** Index of the first group at row r, or |gs| when there is none. */
  function Find(gs: seq<Group>, r: int): (j: nat)
    ensures j <= |gs|
    ensures j < |gs| ==> gs[j].row == r
    ensures forall k | 0 <= k < j :: gs[k].row != r
  {
    if gs == [] || gs[0].row == r then 0 else 1 + Find(gs[1..], r)
  }

  function MoveLast(gs: seq<Group>, j: nat): seq<Group>
    requires j < |gs|
  {
    gs[..j] + gs[j + 1..] + [gs[j]]
  }

  function MoveFirst(gs: seq<Group>, j: nat): seq<Group>
    requires j < |gs|
  {
    [gs[j]] + gs[..j] + gs[j + 1..]
  }

  /** The last burst's group goes last, then the carried row's group goes first. */
  function EmitOrder(gs: seq<Group>, last: int, c: int): seq<Group> {
    var g := LastBurstLast(gs, last);
    var i := Find(g, c);
    if i < |g| then MoveFirst(g, i) else g
  }

  ghost predicate RowsDistinct(gs: seq<Group>) {
    forall i, j | 0 <= i < j < |gs| :: gs[i].row != gs[j].row
  }

  lemma {:induction false} SumMConcat(a: seq<Group>, b: seq<Group>)
    ensures SumM(a + b) == SumM(a) + SumM(b)
  {
    if b == [] {
      assert a + b == a;
    } else {
      SumMConcat(a, b[..|b| - 1]);
      assert (a + b)[..|a + b| - 1] == a + b[..|b| - 1];
    }
  }

  /** A rearrangement keeps the groups: same total, same rows, all distinct. */
  ghost predicate Rearranged(gs: seq<Group>, hs: seq<Group>) {
    && |hs| == |gs|
    && SumM(hs) == SumM(gs)
    && RowsDistinct(hs)
    && (forall k | 0 <= k < |hs| :: hs[k] in gs)
    && forall k | 0 <= k < |gs| :: gs[k] in hs
  }

  lemma MoveSum(gs: seq<Group>, j: nat)
    requires j < |gs|
    ensures SumM(MoveLast(gs, j)) == SumM(gs) && SumM(MoveFirst(gs, j)) == SumM(gs)
  {
    hide SumM;
    var a, x, b := gs[..j], [gs[j]], gs[j + 1..];
    assert gs == a + x + b;
    SumMConcat(a, x); SumMConcat(a + x, b);
    SumMConcat(a, b); SumMConcat(a + b, x);
    SumMConcat(x, a); SumMConcat(x + a, b);
  }

  lemma MoveLastRearranges(gs: seq<Group>, j: nat)
    requires j < |gs| && RowsDistinct(gs)
    ensures Rearranged(gs, MoveLast(gs, j))
  {
    hide SumM;
    MoveSum(gs, j);
    var hs := MoveLast(gs, j);
    forall k | 0 <= k < |gs|
      ensures gs[k] in hs
    {
      assert k < j ==> hs[k] == gs[k];
      assert k > j ==> hs[k - 1] == gs[k];
      assert hs[|gs| - 1] == gs[j];
    }
  }

  lemma MoveFirstRearranges(gs: seq<Group>, j: nat)
    requires j < |gs| && RowsDistinct(gs)
    ensures Rearranged(gs, MoveFirst(gs, j))
  {
    hide SumM;
    MoveSum(gs, j);
    var hs := MoveFirst(gs, j);
    forall k | 0 <= k < |gs|
      ensures gs[k] in hs
    {
      assert k < j ==> hs[k + 1] == gs[k];
      assert k > j ==> hs[k] == gs[k];
      assert hs[0] == gs[j];
    }
  }

  /** Carried row equals the last burst's row while other rows share the window. */
  predicate Conflict(gs: seq<Group>, last: int, c: int) { c == last && |gs| > 1 }

  lemma RearrangedRows(gs: seq<Group>, hs: seq<Group>, r: int)
    requires Rearranged(gs, hs)
    ensures HasRow(gs, r) <==> HasRow(hs, r)
  {
    if HasRow(gs, r) {
      var k :| 0 <= k < |gs| && gs[k].row == r;
      assert gs[k] in hs;
    }
    if HasRow(hs, r) {
      var k :| 0 <= k < |hs| && hs[k].row == r;
      assert hs[k] in gs;
    }
  }

  lemma RearrangedTrans(fs: seq<Group>, gs: seq<Group>, hs: seq<Group>)
    requires Rearranged(fs, gs) && Rearranged(gs, hs)
    ensures Rearranged(fs, hs)
  {
  }

  function LastBurstLast(gs: seq<Group>, last: int): seq<Group> {
    var j := Find(gs, last);
    if j < |gs| && |gs| > 1 then MoveLast(gs, j) else gs
  }

  lemma LastBurstLastEnds(gs: seq<Group>, last: int)
    requires RowsDistinct(gs) && HasRow(gs, last)
    ensures var g := LastBurstLast(gs, last);
      Rearranged(gs, g) && g != [] && FinalRow(g) == last
  {
    if |gs| > 1 {
      MoveLastRearranges(gs, Find(gs, last));
    }
  }

  /** First and last row issued by a window. */
  lemma EmitEnds(gs: seq<Group>, last: int, c: int)
    requires RowsDistinct(gs) && HasRow(gs, last)
    ensures var hs := EmitOrder(gs, last, c);
      && Rearranged(gs, hs)
      && hs != []
      && (HasRow(gs, c) <==> FirstRow(hs) == c)
      && (FinalRow(hs) == last <==> !Conflict(gs, last, c))
  {
    var g := LastBurstLast(gs, last);
    LastBurstLastEnds(gs, last);
    RearrangedRows(gs, g, c);
    var i := Find(g, c);
    if i < |g| {
      MoveFirstRearranges(g, i);
      RearrangedTrans(gs, g, MoveFirst(g, i));
    }
  }

  // ---- window mode -------------------------------------------------------

  function Repeat(c: Command, m: nat): seq<Command> {
    seq(m, _ => c)
  }

  function Expand(gs: seq<Group>): seq<Command> {
    if gs == [] then [] else
    var e := gs[|gs| - 1];
    Expand(gs[..|gs| - 1]) + Repeat(Command(e.row, e.col), e.m)
  }

  lemma {:induction false} AdjacentRepeat(c: Command, m: nat)
    requires m >= 1
    ensures Adjacent(Repeat(c, m)) == m - 1
  {
    if m > 1 {
      AdjacentRepeat(c, m - 1);
      assert Repeat(c, m)[..m - 1] == Repeat(c, m - 1);
    }
  }

  /** Issuing groups after out: one miss per group unless the first row is open. */
  lemma {:induction false} ExpandMeaning(out: seq<Command>, gs: seq<Group>)
    requires RowsDistinct(gs) && forall k | 0 <= k < |gs| :: gs[k].m >= 1
    ensures |out + Expand(gs)| == |out| + SumM(gs)
    ensures Adjacent(out + Expand(gs))
        == Adjacent(out) + SumM(gs) - |gs| + Bit(gs != [] && OpenRow(out) == FirstRow(gs))
    ensures gs != [] ==> OpenRow(out + Expand(gs)) == FinalRow(gs)
  {
    if gs == [] {
      assert out + Expand(gs) == out;
    } else {
      var p, e := gs[..|gs| - 1], gs[|gs| - 1];
      var x := Repeat(Command(e.row, e.col), e.m);
      ExpandMeaning(out, p);
      AdjacentRepeat(Command(e.row, e.col), e.m);
      AdjacentConcat(out + Expand(p), x);
      assert out + Expand(gs) == out + Expand(p) + x;
    }
  }

  /** The commands issued for the windows ws. */
  function StreamOf(ws: seq<seq<Burst>>, B: nat): seq<Command>
    requires B > 0
  {
    if ws == [] then [] else StreamOf(Prefix(ws), B) + Expand(Issue(ws, B))
  }

  function Prefix(ws: seq<seq<Burst>>): seq<seq<Burst>> {
    if ws == [] then [] else ws[..|ws| - 1]
  }

  function LastGroups(ws: seq<seq<Burst>>, B: nat): seq<Group>
    requires B > 0
  {
    if ws == [] then [] else Groups(ws[|ws| - 1], B)
  }

  /** Groups of the last window, in issue order. */
  function Issue(ws: seq<seq<Burst>>, B: nat): seq<Group>
    requires B > 0
  {
    EmitOrder(LastGroups(ws, B), Carry(ws), Carry(Prefix(ws)))
  }

  lemma NoWindows(B: nat)
    requires B > 0
    ensures Carry([]) == -1 && StreamOf([], B) == []
  {
  }

  lemma StreamNext(done: seq<seq<Burst>>, w: seq<Burst>, B: nat)
    requires B > 0 && w != []
    ensures Carry(done + [w]) == w[|w| - 1].row
    ensures StreamOf(done + [w], B) == StreamOf(done, B) + Expand(EmitOrder(Groups(w, B), w[|w| - 1].row, Carry(done)))
  {
    hide Groups, EmitOrder, Expand;
    assert Prefix(done + [w]) == done;
  }

  /** coalesce_channel_stream in window mode. */
  method StreamWindows(s: seq<Burst>, B: nat, W: nat) returns (out: seq<Command>)
    requires B > 0 && W > 0
    ensures out == StreamOf(Windows(s, W), B)
  {
    hide Groups, EmitOrder, Expand, Carry;
    out := [];
    var carry: int := -1;
    var pos := 0;
    NoWindows(B);
    ghost var done: seq<seq<Burst>> := [];
    while pos < |s|
      invariant pos <= |s|
      invariant Windows(s, W) == done + Windows(s[pos..], W)
      invariant carry == Carry(done)
      invariant out == StreamOf(done, B)
    {
      var w := s[pos..Min(pos + W, |s|)];
      var groups := EmitOrder(Groups(w, B), w[|w| - 1].row, carry);
      StreamNext(done, w, B);
      out := out + Expand(groups);
      carry := w[|w| - 1].row;
      WindowsStep(s, W, pos, done);
      done := done + [w];
      pos := Min(pos + W, |s|);
    }
    assert s[pos..] == [] && done + [] == done;
  }

  // ---- agreement in window mode ------------------------------------------

  /** The last window holds other rows, yet its carried-in row is its last burst's row. */
  predicate InConflict(ws: seq<seq<Burst>>, B: nat)
    requires B > 0
  {
    Conflict(LastGroups(ws, B), Carry(ws), Carry(Prefix(ws)))
  }

  function Conflicts(ws: seq<seq<Burst>>, B: nat): nat
    requires B > 0
  {
    if ws == [] then 0 else Conflicts(Prefix(ws), B) + Bit(InConflict(ws, B))
  }

  /** A counted hit the stream does not have: the carried row follows a conflict. */
  predicate Lost(ws: seq<seq<Burst>>, B: nat)
    requires B > 0
  {
    InConflict(Prefix(ws), B) && CarryPresent(LastGroups(ws, B), Carry(Prefix(ws)))
  }

  /** A stream hit the count does not have: the row issued last before reappears. */
  predicate Gained(ws: seq<seq<Burst>>, B: nat)
    requires B > 0
  {
    && InConflict(Prefix(ws), B)
    && !CarryPresent(LastGroups(ws, B), Carry(Prefix(ws)))
    && FinalRow(Issue(Prefix(ws), B)) == FirstRow(Issue(ws, B))
  }

  function Losses(ws: seq<seq<Burst>>, B: nat): nat
    requires B > 0
  {
    if ws == [] then 0 else Losses(Prefix(ws), B) + Bit(Lost(ws, B))
  }

  function Gains(ws: seq<seq<Burst>>, B: nat): nat
    requires B > 0
  {
    if ws == [] then 0 else Gains(Prefix(ws), B) + Bit(Gained(ws, B))
  }

  /** What the last window issues, and in which rows it starts and ends. */
  ghost predicate IssueFacts(ws: seq<seq<Burst>>, B: nat, gs: seq<Group>, hs: seq<Group>)
    requires B > 0
  {
    && hs != [] && |hs| == |gs| && SumM(hs) == SumM(gs) && RowsDistinct(hs)
    && (forall k | 0 <= k < |hs| :: hs[k].m >= 1)
    && (CarryPresent(gs, Carry(Prefix(ws))) <==> FirstRow(hs) == Carry(Prefix(ws)))
    && (FinalRow(hs) == Carry(ws) <==> !InConflict(ws, B))
  }

  lemma IssueEnds(ws: seq<seq<Burst>>, B: nat)
    requires B > 0 && AllWindows(ws, B) && ws != []
    ensures IssueFacts(ws, B, LastGroups(ws, B), Issue(ws, B))
  {
    hide EmitOrder, Groups, SearchSorted, SumM;
    var w := ws[|ws| - 1];
    var gs := Groups(w, B);
    GroupsMeaning(w, B);
    assert w[|w| - 1].row in GroupRows(gs);
    EmitEnds(gs, Carry(ws), Carry(Prefix(ws)));
    CarryPresentMeaning(gs, Carry(Prefix(ws)));
    assert forall j | 0 <= j < |gs| :: IsDemand(w, gs[j].row, gs[j].m);
  }

  /** The stream of the windows so far: its length, and the row it leaves issued. */
  lemma {:induction false} StreamMeaning(ws: seq<seq<Burst>>, B: nat)
    requires B > 0 && AllWindows(ws, B)
    ensures |StreamOf(ws, B)| == TotalCmds(ws, B)
    ensures OpenRow(StreamOf(ws, B)) == if ws == [] then -1 else FinalRow(Issue(ws, B))
  {
    if ws != [] {
      StreamMeaning(Prefix(ws), B);
      IssueEnds(ws, B);
      ExpandMeaning(StreamOf(Prefix(ws), B), Issue(ws, B));
    }
  }

  /** How one more window changes counted misses against stream misses. */
  lemma DifferenceStep(ws: seq<seq<Burst>>, B: nat)
    requires B > 0 && AllWindows(ws, B) && ws != []
    ensures var gs := LastGroups(ws, B);
      |gs| - WindowMisses(gs, Carry(Prefix(ws))) - Bit(OpenRow(StreamOf(Prefix(ws), B)) == FirstRow(Issue(ws, B)))
      == Bit(Lost(ws, B)) - Bit(Gained(ws, B))
  {
    var p := Prefix(ws);
    IssueEnds(ws, B);
    StreamMeaning(p, B);
    if p != [] {
      IssueEnds(p, B);
    }
  }

  /** The hit difference is exactly the losses minus the gains after conflicts. */
  lemma {:induction false} HitDifference(ws: seq<seq<Burst>>, B: nat)
    requires B > 0 && AllWindows(ws, B)
    ensures TotalCmds(ws, B) - TotalMisses(ws, B) - Adjacent(StreamOf(ws, B)) == Losses(ws, B) - Gains(ws, B)
  {
    if ws != [] {
      HitDifference(Prefix(ws), B);
      DifferenceStep(ws, B);
      IssueEnds(ws, B);
      ExpandMeaning(StreamOf(Prefix(ws), B), Issue(ws, B));
    }
  }

  /** Losses and gains only follow windows in conflict, and exclude one another. */
  lemma {:induction false} FewDifferences(ws: seq<seq<Burst>>, B: nat)
    requires B > 0
    ensures Losses(ws, B) + Gains(ws, B) <= Conflicts(Prefix(ws), B)
  {
    if ws != [] {
      FewDifferences(Prefix(ws), B);
    }
  }

  /** Window mode: equal command counts; hits differ, either way, by at most the number
      of non-final windows in conflict. */
  lemma WindowModeAgrees(s: seq<Burst>, B: nat, W: nat)
    requires B > 0 && W > 0 && BanksBelow(s, B)
    ensures var ws := Windows(s, W);
      var hits, streamed := TotalCmds(ws, B) - TotalMisses(ws, B), Adjacent(StreamOf(ws, B));
      && |StreamOf(ws, B)| == TotalCmds(ws, B)
      && hits - streamed == Losses(ws, B) - Gains(ws, B)
      && Abs(hits - streamed) <= Conflicts(Prefix(ws), B)
  {
    hide TotalCmds, TotalMisses, Adjacent, StreamOf, Losses, Gains, Conflicts, Windows;
    WindowsJoin(s, B, W);
    var ws := Windows(s, W);
    StreamMeaning(ws, B);
    HitDifference(ws, B);
    FewDifferences(ws, B);
  }

  // ---- the difference can go either way ----------------------------------

  /** Two bursts in banks 0 and 1 at the given rows. */
  function Pair(a: nat, b: nat): seq<Burst> { [Burst(0, a, 0), Burst(1, b, 0)] }

  lemma PairGroups(a: nat, b: nat)
    requires a < b
    ensures var gs := Groups(Pair(a, b), 2);
      |gs| == 2 && gs[0].row == a && gs[1].row == b
  {
    var w := Pair(a, b);
    var gs := Groups(w, 2);
    GroupsMeaning(w, 2);
    GroupRowsSize(gs);
    assert w[0].row == a && w[1].row == b;
    assert Rows(w) == {a, b};
    assert gs[0].row in GroupRows(gs) && gs[1].row in GroupRows(gs);
  }

  lemma SingleGroup(a: nat)
    ensures var gs := Groups(Pair(a, a), 2);
      |gs| == 1 && gs[0].row == a
  {
    var w := Pair(a, a);
    var gs := Groups(w, 2);
    GroupsMeaning(w, 2);
    GroupRowsSize(gs);
    assert w[0].row == a && w[1].row == a;
    assert Rows(w) == {a};
    assert gs[0].row in GroupRows(gs);
  }

  /** Rows a,c then b,c then b,b in windows of two: the stream has more row hits than are
      counted, so the lower bound asserted by the repository's test fails here. */
  lemma StreamCanHitMore(a: nat, b: nat, c: nat)
    requires b < c
    ensures var ws := Windows(Pair(a, c) + Pair(b, c) + Pair(b, b), 2);
      TotalCmds(ws, 2) - TotalMisses(ws, 2) < Adjacent(StreamOf(ws, 2))
  {
    WindowsOfThree(Pair(a, c), Pair(b, c), Pair(b, b));
    PairGroups(b, c);
    SingleGroup(b);
    GainAfterConflict(Pair(a, c), Pair(b, c), Pair(b, b), b, c);
  }

  /** Windows u, v, x end at rows c, c; v also holds b and x holds only b. */
  lemma GainAfterConflict(u: seq<Burst>, v: seq<Burst>, x: seq<Burst>, b: nat, c: nat)
    requires u != [] && v != [] && AllWindows([u, v, x], 2) && b != c
    requires u[|u| - 1].row == c && v[|v| - 1].row == c
    requires |Groups(v, 2)| == 2 && Groups(v, 2)[0].row == b && Groups(v, 2)[1].row == c
    requires |Groups(x, 2)| == 1 && Groups(x, 2)[0].row == b
    ensures TotalCmds([u, v, x], 2) - TotalMisses([u, v, x], 2) < Adjacent(StreamOf([u, v, x], 2))
  {
    hide Groups, SumM, SearchSorted;
    var ws, w2, w1 := [u, v, x], [u, v], [u];
    assert Prefix(ws) == w2 && Prefix(w2) == w1 && Prefix(w1) == [];
    assert Carry([]) == -1 && Carry(w1) == c && Carry(w2) == c;
    var gv, gx := Groups(v, 2), Groups(x, 2);
    assert LastGroups(w2, 2) == gv && LastGroups(ws, 2) == gx;
    assert InConflict(w2, 2) && FinalRow(Issue(w2, 2)) == b;
    CarryPresentMeaning(gx, c);
    NoLossAfter(ws, w2, w1);
    IssueEnds(ws, 2);
    HitDifference(ws, 2);
    assert |Issue(ws, 2)| == 1;
    assert Gained(ws, 2);
  }

  lemma NoLossAfter(ws: seq<seq<Burst>>, w2: seq<seq<Burst>>, w1: seq<seq<Burst>>)
    requires Prefix(ws) == w2 && Prefix(w2) == w1 && |w1| == 1 && !InConflict(w1, 2)
    requires !CarryPresent(LastGroups(ws, 2), Carry(w2))
    ensures Losses(ws, 2) == 0
  {
    assert Prefix(w1) == [] && Losses(w1, 2) == 0 && Losses(w2, 2) == 0;
  }

  lemma WindowsOfThree(u: seq<Burst>, v: seq<Burst>, x: seq<Burst>)
    requires |u| == |v| == |x| == 2
    ensures Windows(u + v + x, 2) == [u, v, x]
  {
    assert u + v + x == u + (v + x) && x == x + [];
    PairFirst(x, []);
    PairFirst(v, x);
    PairFirst(u, v + x);
  }

  lemma PairFirst(u: seq<Burst>, rest: seq<Burst>)
    requires |u| == 2
    ensures Windows(u + rest, 2) == [u] + Windows(rest, 2)
  {
    assert (u + rest)[..2] == u && (u + rest)[2..] == rest;
  }
}
