// The window-mode stream spelled out, command by command: which columns are issued, how often,
// and in which order, without the grouping that computes it.
module StreamOrder {
  import opened Counting
  import opened Commands
  import opened Windowed
  import opened InOrder
  import opened Stream

  // ---- columns -----------------------------------------------------------

  /** Burst i of w stands for its row: no burst of the row has a lower bank, or the same bank
      and an earlier place. */
  ghost predicate Leads(w: seq<Burst>, i: nat)
    requires i < |w|
  {
    forall j | 0 <= j < |w| && w[j].row == w[i].row ::
      w[i].bank < w[j].bank || (w[i].bank == w[j].bank && i <= j)
  }

  /** col is the column of the burst that stands for the row. */
  ghost predicate LeadCol(w: seq<Burst>, row: nat, col: nat) {
    exists i | 0 <= i < |w| :: w[i].row == row && w[i].col == col && Leads(w, i)
  }

  /** The first burst with key k, when there is one. */
  lemma {:induction false} FirstColIs(w: seq<Burst>, B: nat, k: nat) returns (i: nat)
    requires exists j | 0 <= j < |w| :: Key(w[j], B) == k
    ensures i < |w| && Key(w[i], B) == k && FirstCol(w, B, k) == w[i].col
    ensures forall j | 0 <= j < i :: Key(w[j], B) != k
  {
    i := 0;
    if Key(w[0], B) != k {
      var j :| 0 <= j < |w| && Key(w[j], B) == k;
      assert w[1..][j - 1] == w[j];
      var i' := FirstColIs(w[1..], B, k);
      i := i' + 1;
      forall j | 0 <= j < i
        ensures Key(w[j], B) != k
      {
        assert j > 0 ==> w[1..][j - 1] == w[j];
      }
    }
  }

  /** t has the column of the first entry of its row. */
  ghost predicate FirstFor(es: seq<Group>, t: Group) {
    exists i | 0 <= i < |es| :: es[i].row == t.row && es[i].col == t.col && forall j | 0 <= j < i :: es[j].row != t.row
  }

  lemma FirstMore(p: seq<Group>, e: Group, t: Group, m: nat)
    requires FirstFor(p, t)
    ensures FirstFor(p + [e], t.(m := m))
  {
    var i :| 0 <= i < |p| && p[i].row == t.row && p[i].col == t.col && forall j | 0 <= j < i :: p[j].row != t.row;
    assert (p + [e])[i] == p[i];
  }

  lemma FirstNew(p: seq<Group>, e: Group)
    requires e.row !in GroupRows(p)
    ensures FirstFor(p + [e], e)
  {
    assert (p + [e])[|p|] == e;
    assert forall j | 0 <= j < |p| :: p[j].row in GroupRows(p);
  }

  lemma {:induction false} FoldFirst(es: seq<Group>)
    requires RowsSorted(es)
    ensures forall j | 0 <= j < |Fold(es)| :: FirstFor(es, Fold(es)[j])
  {
    hide FirstFor, GroupRows;
    if es != [] {
      var p, e := es[..|es| - 1], es[|es| - 1];
      FoldFirst(p);
      FoldRows(p);
      assert es == p + [e];
      if e.row in GroupRows(p) { OldRow(p, e); }
      forall j | 0 <= j < |Fold(es)|
        ensures FirstFor(es, Fold(es)[j])
      {
        if j < |Fold(p)| {
          FirstMore(p, e, Fold(p)[j], Fold(es)[j].m);
        } else {
          FirstNew(p, e);
        }
      }
    }
  }

  lemma OldRow(p: seq<Group>, e: Group)
    requires RowsSorted(p) && RowsSorted(p + [e]) && e.row in GroupRows(p)
    ensures |Merge(Fold(p), e)| == |Fold(p)|
  {
    var g := Fold(p);
    FoldRows(p);
    var k :| 0 <= k < |p| && p[k].row == e.row;
    assert (p + [e])[k].row <= (p + [e])[|p| - 1].row <= (p + [e])[|p|].row;
  }

  lemma KeyOrder(b: Burst, c: Burst, B: nat)
    requires b.bank < B && c.bank < B && b.row == c.row
    ensures Key(b, B) < Key(c, B) <==> b.bank < c.bank
    ensures Key(b, B) == Key(c, B) <==> b.bank == c.bank
  {
  }

  /** The first entry of a row has the lowest bank of the row. */
  lemma FirstEntryLeads(w: seq<Burst>, B: nat, x: nat)
    requires B > 0 && BanksBelow(w, B) && x < |Entries(w, B)|
    requires forall y | 0 <= y < x :: Entries(w, B)[y].row != Entries(w, B)[x].row
    ensures LeadCol(w, Entries(w, B)[x].row, Entries(w, B)[x].col)
  {
    var u, es := UniqueKeys(w, B), Entries(w, B);
    assert u[x] in Elems(u);
    var i := FirstColIs(w, B, u[x]);
    DivUnique(u[x], B, w[i].row, w[i].bank);
    forall j | 0 <= j < |w| && w[j].row == w[i].row
      ensures w[i].bank < w[j].bank || (w[i].bank == w[j].bank && i <= j)
    {
      KeyOrder(w[i], w[j], B);
      assert Key(w[j], B) in Elems(u);
      var y :| 0 <= y < |u| && u[y] == Key(w[j], B);
      DivUnique(u[y], B, w[j].row, w[j].bank);
      assert es[y].row == es[x].row;
      assert y >= x;
    }
    assert Leads(w, i);
  }

  /** Every group carries the column of the burst that stands for its row. */
  lemma GroupCols(w: seq<Burst>, B: nat)
    requires B > 0 && BanksBelow(w, B)
    ensures forall g | g in Groups(w, B) :: LeadCol(w, g.row, g.col)
  {
    hide Entries, LeadCol;
    var es := Entries(w, B);
    EntriesAscending(w, B);
    FoldFirst(es);
    forall g | g in Groups(w, B)
      ensures LeadCol(w, g.row, g.col)
    {
      var x :| 0 <= x < |es| && es[x].row == g.row && es[x].col == g.col && forall j | 0 <= j < x :: es[j].row != g.row;
      FirstEntryLeads(w, B, x);
    }
  }

  // ---- order -------------------------------------------------------------

  /** Row r is issued before row s: the carried row c first, the last burst's row last unless
      it is carried, the others ascending. */
  predicate Ahead(r: nat, s: nat, last: int, c: int) {
    r == c || (s != c && (s == last || (r != last && r < s)))
  }

  ghost predicate InOrderOf(gs: seq<Group>, last: int, c: int) {
    forall i, j | 0 <= i < j < |gs| :: Ahead(gs[i].row, gs[j].row, last, c)
  }

  /** Before the carried row is moved: ascending, the last burst's row at the end. */
  lemma LastBurstOrder(gs: seq<Group>, last: int)
    requires RowsAscending(gs)
    ensures InOrderOf(LastBurstLast(gs, last), last, -1)
  {
  }

  lemma CarriedFirst(g: seq<Group>, i: nat, last: int, c: int)
    requires InOrderOf(g, last, -1) && RowsDistinct(g) && i < |g| && g[i].row == c
    ensures InOrderOf(MoveFirst(g, i), last, c)
  {
    var h := MoveFirst(g, i);
    forall x, y | 0 <= x < y < |h|
      ensures Ahead(h[x].row, h[y].row, last, c)
    {
      var y' := if y <= i then y - 1 else y;
      assert h[y] == g[y'] && g[y'].row != c;
      if x > 0 {
        var x' := if x <= i then x - 1 else x;
        assert h[x] == g[x'] && Ahead(g[x'].row, g[y'].row, last, -1);
      }
    }
  }

  /** The issue order of a window's rows, every pair of them. */
  lemma EmitSorted(gs: seq<Group>, last: int, c: int)
    requires RowsAscending(gs) && HasRow(gs, last)
    ensures InOrderOf(EmitOrder(gs, last, c), last, c)
  {
    hide Ahead, LastBurstLast, MoveFirst;
    var g := LastBurstLast(gs, last);
    LastBurstOrder(gs, last);
    LastBurstLastEnds(gs, last);
    var i := Find(g, c);
    if i < |g| { CarriedFirst(g, i, last, c); } else { NotCarried(g, last, c); }
  }

  lemma NotCarried(g: seq<Group>, last: int, c: int)
    requires InOrderOf(g, last, -1) && forall k | 0 <= k < |g| :: g[k].row != c
    ensures InOrderOf(g, last, c)
  {
  }

  // ---- one window --------------------------------------------------------

  /** Commands of row r in seg. */
  function Times(seg: seq<Command>, r: nat): nat {
    if seg == [] then 0 else Times(seg[..|seg| - 1], r) + Bit(seg[|seg| - 1].row == r)
  }

  ghost predicate RowsInOrder(seg: seq<Command>, last: int, c: int) {
    forall i, j | 0 <= i < j < |seg| :: seg[i].row == seg[j].row || Ahead(seg[i].row, seg[j].row, last, c)
  }

  /** seg is what a window w issues when row c was left open: each row as often as one bank
      needs it at most, with its standing column, the rows in issue order. */
  ghost predicate Issued(w: seq<Burst>, c: int, seg: seq<Command>)
    requires w != []
  {
    && (forall x | x in seg :: LeadCol(w, x.row, x.col))
    && (forall r | r in Rows(w) :: IsDemand(w, r, Times(seg, r)))
    && RowsInOrder(seg, w[|w| - 1].row, c)
  }

  lemma {:induction false} TimesConcat(a: seq<Command>, b: seq<Command>, r: nat)
    ensures Times(a + b, r) == Times(a, r) + Times(b, r)
  {
    if b == [] {
      assert a + b == a;
    } else {
      TimesConcat(a, b[..|b| - 1], r);
      assert (a + b)[..|a + b| - 1] == a + b[..|b| - 1];
    }
  }

  lemma {:induction false} TimesRepeat(c: Command, m: nat, r: nat)
    ensures Times(Repeat(c, m), r) == if c.row == r then m else 0
  {
    if m > 0 {
      TimesRepeat(c, m - 1, r);
      assert Repeat(c, m)[..m - 1] == Repeat(c, m - 1);
    }
  }

  /** Every command comes from a group. */
  ghost predicate FromGroup(gs: seq<Group>, x: Command) {
    exists k | 0 <= k < |gs| :: gs[k].row == x.row && gs[k].col == x.col
  }

  lemma {:induction false} ExpandFrom(gs: seq<Group>)
    ensures forall x | x in Expand(gs) :: FromGroup(gs, x)
  {
    if gs != [] {
      var n := |gs| - 1;
      ExpandFrom(gs[..n]);
      forall x | x in Expand(gs)
        ensures FromGroup(gs, x)
      {
        if x in Expand(gs[..n]) {
          var k :| 0 <= k < n && gs[..n][k].row == x.row && gs[..n][k].col == x.col;
          assert gs[k].row == x.row;
        } else {
          assert gs[n].row == x.row;
        }
      }
    }
  }

  lemma {:induction false} ExpandTimes(gs: seq<Group>, r: nat)
    requires RowsDistinct(gs)
    ensures !HasRow(gs, r) ==> Times(Expand(gs), r) == 0
    ensures forall k | 0 <= k < |gs| && gs[k].row == r :: Times(Expand(gs), r) == gs[k].m
  {
    if gs != [] {
      var n := |gs| - 1;
      var p, e := gs[..n], gs[n];
      ExpandTimes(p, r);
      TimesConcat(Expand(p), Repeat(Command(e.row, e.col), e.m), r);
      TimesRepeat(Command(e.row, e.col), e.m, r);
      if HasRow(p, r) {
        var k :| 0 <= k < |p| && p[k].row == r;
        assert gs[k].row == r;
      }
      assert forall k | 0 <= k < n :: p[k] == gs[k];
    }
  }

  lemma {:induction false} ExpandOrder(gs: seq<Group>, last: int, c: int)
    requires InOrderOf(gs, last, c)
    ensures RowsInOrder(Expand(gs), last, c)
  {
    if gs != [] {
      var n := |gs| - 1;
      var p, e := gs[..n], gs[n];
      ExpandOrder(p, last, c);
      ExpandFrom(p);
      var a, seg := Expand(p), Expand(gs);
      forall i, j | 0 <= i < j < |seg|
        ensures seg[i].row == seg[j].row || Ahead(seg[i].row, seg[j].row, last, c)
      {
        if i >= |a| {
          assert seg[i] == Command(e.row, e.col) && seg[j] == Command(e.row, e.col);
        } else if j < |a| {
          assert a[i].row == a[j].row || Ahead(a[i].row, a[j].row, last, c);
        } else {
          assert a[i] in a && FromGroup(p, a[i]);
          var k :| 0 <= k < |p| && p[k].row == a[i].row && p[k].col == a[i].col;
          assert p[k] == gs[k] && Ahead(gs[k].row, gs[n].row, last, c);
          assert seg[j] == Command(e.row, e.col);
        }
      }
    }
  }

  /** What a window issues, read from its bursts alone. */
  lemma WindowIssued(w: seq<Burst>, B: nat, c: int)
    requires B > 0 && w != [] && BanksBelow(w, B)
    ensures Issued(w, c, Expand(EmitOrder(Groups(w, B), w[|w| - 1].row, c)))
  {
    hide Groups, EmitOrder, Expand, LeadCol, IsDemand, Ahead, Times;
    var gs, last := Groups(w, B), w[|w| - 1].row;
    var hs := EmitOrder(gs, last, c);
    GroupsMeaning(w, B);
    GroupCols(w, B);
    assert last in GroupRows(gs);
    EmitEnds(gs, last, c);
    EmitSorted(gs, last, c);
    ExpandFrom(hs);
    ExpandOrder(hs, last, c);
    forall r | r in Rows(w)
      ensures IsDemand(w, r, Times(Expand(hs), r))
    {
      DemandIssued(w, gs, hs, r);
    }
  }

  lemma DemandIssued(w: seq<Burst>, gs: seq<Group>, hs: seq<Group>, r: nat)
    requires Grouping(w, gs) && Rearranged(gs, hs) && r in Rows(w)
    ensures IsDemand(w, r, Times(Expand(hs), r))
  {
    hide IsDemand, Expand, Times;
    assert r in GroupRows(gs);
    var k :| 0 <= k < |gs| && gs[k].row == r;
    assert gs[k] in hs;
    var k' :| 0 <= k' < |hs| && hs[k'] == gs[k];
    ExpandTimes(hs, r);
  }

  // ---- the whole stream --------------------------------------------------

  function Flat(segs: seq<seq<Command>>): seq<Command> {
    if segs == [] then [] else Flat(segs[..|segs| - 1]) + segs[|segs| - 1]
  }

  /** The stream is one segment a window, each what its window issues after the one before. */
  ghost predicate Spelled(ws: seq<seq<Burst>>, segs: seq<seq<Command>>) {
    && |segs| == |ws|
    && forall k | 0 <= k < |ws| :: ws[k] != [] && Issued(ws[k], Carry(ws[..k]), segs[k])
  }

  lemma {:induction false} StreamSpelled(ws: seq<seq<Burst>>, B: nat) returns (segs: seq<seq<Command>>)
    requires B > 0 && AllWindows(ws, B)
    ensures Spelled(ws, segs) && Flat(segs) == StreamOf(ws, B)
  {
    hide Groups, EmitOrder, Expand, Issued, Carry;
    segs := [];
    if ws != [] {
      var n := |ws| - 1;
      var p := ws[..n];
      var ps := StreamSpelled(p, B);
      StreamNext(p, ws[n], B);
      WindowIssued(ws[n], B, Carry(p));
      var seg := Expand(EmitOrder(Groups(ws[n], B), ws[n][|ws[n]| - 1].row, Carry(p)));
      segs := ps + [seg];
      assert ws == p + [ws[n]];
      forall k | 0 <= k < |ws|
        ensures ws[k] != [] && Issued(ws[k], Carry(ws[..k]), segs[k])
      {
        if k < n { assert p[k] == ws[k] && p[..k] == ws[..k] && segs[k] == ps[k]; }
      }
      assert segs[..n] == ps;
    }
  }

  ghost predicate Sized(ws: seq<seq<Burst>>, W: nat) {
    forall k | 0 <= k < |ws| :: 0 < |ws[k]| <= W && (k < |ws| - 1 ==> |ws[k]| == W)
  }

  /** All windows but the last have W bursts, and the last at least one. */
  lemma {:induction false} WindowSizes(s: seq<Burst>, W: nat)
    requires W > 0
    ensures Sized(Windows(s, W), W)
  {
    if s != [] {
      var n := Min(W, |s|);
      WindowSizes(s[n..], W);
      assert |s| <= W ==> Windows(s[n..], W) == [];
      SizedCons(s[..n], Windows(s[n..], W), W);
    }
  }

  lemma SizedCons(w: seq<Burst>, ws: seq<seq<Burst>>, W: nat)
    requires Sized(ws, W) && 0 < |w| <= W && (ws != [] ==> |w| == W)
    ensures Sized([w] + ws, W)
  {
    forall k | 0 <= k < |[w] + ws|
      ensures 0 < |([w] + ws)[k]| <= W && (k < |[w] + ws| - 1 ==> |([w] + ws)[k]| == W)
    {
      if k > 0 { assert ([w] + ws)[k] == ws[k - 1]; }
    }
  }

  // ---- in-order mode -----------------------------------------------------

  /** A greedy command ends only where the next burst would make it illegal. */
  lemma {:induction false} GreedyMaximal(s: seq<Burst>, B: nat, i: nat)
    requires 0 < i < |s| && Greedy(s, B)[i]
    ensures !LegalSegment(s, Start(Greedy(s, B), i - 1), i + 1, B)
  {
    var n := |s| - 1;
    var p, c := Greedy(s[..n], B), Greedy(s, B);
    var lo := Start(p, i - 1);
    StartPrefix(p, c[n], i - 1);
    assert c == p + [c[n]];
    if i < n {
      GreedyMaximal(s[..n], B, i);
      SegmentOfPrefix(s, n, lo, i + 1, B);
    } else {
      CannotJoin(s, lo, n, B);
    }
  }

  lemma SegmentOfPrefix(s: seq<Burst>, n: nat, lo: nat, hi: nat, B: nat)
    requires n <= |s| && hi <= n
    ensures LegalSegment(s[..n], lo, hi, B) <==> LegalSegment(s, lo, hi, B)
  {
    var p := s[..n];
    assert forall i | 0 <= i < n :: p[i] == s[i];
  }

  lemma CannotJoin(s: seq<Burst>, lo: nat, n: nat, B: nat)
    requires lo < n < |s| && Closes(s, lo, n, B)
    ensures !LegalSegment(s, lo, n + 1, B)
  {
  }

  /** The commands are the first bursts of the pieces the cuts make, in order. */
  lemma {:induction false} HeadsAre(s: seq<Burst>, c: Cuts, i: nat)
    requires |c| == |s| && i < |s| && c[i]
    ensures |Heads(s, c)| == Trues(c) && Trues(c[..i]) < Trues(c)
    ensures Heads(s, c)[Trues(c[..i])] == Command(s[i].row, s[i].col)
  {
    var n := |s| - 1;
    HeadsSize(s[..n], c[..n]);
    if i < n {
      HeadsAre(s[..n], c[..n], i);
      assert c[..n][..i] == c[..i];
    }
  }

  lemma {:induction false} HeadsSize(s: seq<Burst>, c: Cuts)
    requires |c| == |s|
    ensures |Heads(s, c)| == Trues(c)
  {
    if s != [] {
      HeadsSize(s[..|s| - 1], c[..|s| - 1]);
    }
  }
}
