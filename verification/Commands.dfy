// Windowed all-bank command coalescing: the grouping by numpy's sorted unique
// keys, the counting loop, and its optimality.
module Commands {
  import opened Counting

  /** One burst of a channel's stream. */
  datatype Burst = Burst(bank: nat, row: nat, col: nat)

  /** The bursts of one row inside a window: m is the number of commands it needs. */
  datatype Group = Group(row: nat, m: nat, col: nat)

  ghost predicate BanksBelow(w: seq<Burst>, B: nat) {
    forall i | 0 <= i < |w| :: w[i].bank < B
  }

  ghost function Rows(w: seq<Burst>): set<nat> {
    set i | 0 <= i < |w| :: w[i].row
  }

  /** Number of bursts of w at row r in bank b. */
  function Count(w: seq<Burst>, r: nat, b: nat): nat {
    if w == [] then 0 else
    Count(w[..|w| - 1], r, b) + Bit(w[|w| - 1].row == r && w[|w| - 1].bank == b)
  }

  // ---- the sorted-unique grouping ---------------------------------------

  function Key(b: Burst, B: nat): nat { b.row * B + b.bank }

  ghost function KeySet(w: seq<Burst>, B: nat): set<nat> {
    set i | 0 <= i < |w| :: Key(w[i], B)
  }

  function Insert(u: seq<nat>, k: nat): (v: seq<nat>)
    requires Ascending(u)
    ensures Ascending(v) && v != []
    ensures v[|v| - 1] == if u == [] || u[|u| - 1] < k then k else u[|u| - 1]
  {
    if u == [] then [k] else
    var p, l := u[..|u| - 1], u[|u| - 1];
    if l < k then u + [k]
    else if l == k then u
    else Insert(p, k) + [l]
  }

  lemma AscendingPrefix(u: seq<nat>)
    requires Ascending(u) && u != []
    ensures Ascending(u[..|u| - 1])
  {
  }

  lemma {:induction false} InsertElems(u: seq<nat>, k: nat)
    requires Ascending(u)
    ensures Elems(Insert(u, k)) == Elems(u) + {k}
  {
    hide Ascending, Elems;
    if u == [] {
      assert Insert(u, k) == [] + [k];
      ElemsAppend([], k);
    } else {
      var p, l := u[..|u| - 1], u[|u| - 1];
      AscendingPrefix(u);
      assert u == p + [l];
      ElemsAppend(p, l);
      ElemsAppend(u, k);
      InsertElems(p, k);
      ElemsAppend(Insert(p, k), l);
    }
  }

  lemma KeySetSnoc(w: seq<Burst>, B: nat)
    requires w != []
    ensures KeySet(w, B) == KeySet(w[..|w| - 1], B) + {Key(w[|w| - 1], B)}
  {
  }

  /** The distinct keys of a window, ascending. */
  function UniqueKeys(w: seq<Burst>, B: nat): (u: seq<nat>)
    ensures Ascending(u)
    ensures Elems(u) == KeySet(w, B)
  {
    if w == [] then [] else
    InsertElems(UniqueKeys(w[..|w| - 1], B), Key(w[|w| - 1], B));
    KeySetSnoc(w, B);
    Insert(UniqueKeys(w[..|w| - 1], B), Key(w[|w| - 1], B))
  }

  /** Column of the first burst of w carrying key k. */
  function FirstCol(w: seq<Burst>, B: nat, k: nat): nat {
    if w == [] then 0
    else if Key(w[0], B) == k then w[0].col
    else FirstCol(w[1..], B, k)
  }

  /** What numpy's unique reports for key k: its row, count and first column. */
  function Entry(w: seq<Burst>, B: nat, k: nat): Group
    requires B > 0
  {
    Group(k / B, Count(w, k / B, k % B), FirstCol(w, B, k))
  }

  function Entries(w: seq<Burst>, B: nat): (es: seq<Group>)
    requires B > 0
  {
    var u := UniqueKeys(w, B);
    seq(|u|, i requires 0 <= i < |u| => Entry(w, B, u[i]))
  }

  /** The group list after one more entry: same row as the last group, or a new group. */
  function Merge(g: seq<Group>, e: Group): seq<Group> {
    if g != [] && g[|g| - 1].row == e.row
    then g[..|g| - 1] + [g[|g| - 1].(m := Max(g[|g| - 1].m, e.m))]
    else g + [e]
  }

  /** Neighbouring entries of one row folded into a group with the largest count. */
  function Fold(es: seq<Group>): seq<Group> {
    if es == [] then [] else Merge(Fold(es[..|es| - 1]), es[|es| - 1])
  }

  function Groups(w: seq<Burst>, B: nat): seq<Group>
    requires B > 0
  {
    Fold(Entries(w, B))
  }

  // ---- what the grouping means ------------------------------------------

  /** m is the largest number of bursts any bank has at row r. */
  ghost predicate IsDemand(w: seq<Burst>, r: nat, m: nat) {
    && m >= 1
    && (exists b: nat :: Count(w, r, b) == m)
    && forall b: nat :: Count(w, r, b) <= m
  }

  ghost predicate RowsAscending(gs: seq<Group>) {
    forall i, j | 0 <= i < j < |gs| :: gs[i].row < gs[j].row
  }

  ghost function GroupRows(gs: seq<Group>): set<nat> {
    set j | 0 <= j < |gs| :: gs[j].row
  }

  /** gs lists each row of w once, ascending, with that row's demand. */
  ghost predicate Grouping(w: seq<Burst>, gs: seq<Group>) {
    && RowsAscending(gs)
    && GroupRows(gs) == Rows(w)
    && forall j | 0 <= j < |gs| :: IsDemand(w, gs[j].row, gs[j].m)
  }

  ghost predicate LargestFor(es: seq<Group>, t: Group) {
    && (exists i | 0 <= i < |es| :: es[i].row == t.row && es[i].m == t.m)
    && forall i | 0 <= i < |es| && es[i].row == t.row :: es[i].m <= t.m
  }

  ghost predicate RowsSorted(es: seq<Group>) {
    forall i, j | 0 <= i < j < |es| :: es[i].row <= es[j].row
  }

  lemma GroupRowsAppend(g: seq<Group>, e: Group)
    ensures GroupRows(g + [e]) == GroupRows(g) + {e.row}
  {
    assert (g + [e])[|g|] == e && forall j | 0 <= j < |g| :: (g + [e])[j] == g[j];
  }

  lemma MergeRows(g: seq<Group>, e: Group)
    requires RowsAscending(g) && (g != [] ==> g[|g| - 1].row <= e.row)
    ensures RowsAscending(Merge(g, e)) && GroupRows(Merge(g, e)) == GroupRows(g) + {e.row}
    ensures Merge(g, e) != [] && Merge(g, e)[|Merge(g, e)| - 1].row == e.row
  {
    if |Merge(g, e)| == |g| {
      var h := g[..|g| - 1];
      GroupRowsAppend(h, g[|g| - 1]);
      GroupRowsAppend(h, Merge(g, e)[|g| - 1]);
      assert g == h + [g[|g| - 1]];
    } else {
      GroupRowsAppend(g, e);
    }
  }

  lemma {:induction false} FoldRows(es: seq<Group>)
    requires RowsSorted(es)
    ensures es == [] <==> Fold(es) == []
    ensures es != [] ==> Fold(es)[|Fold(es)| - 1].row == es[|es| - 1].row
    ensures RowsAscending(Fold(es)) && GroupRows(Fold(es)) == GroupRows(es)
  {
    hide Merge, GroupRows;
    if es != [] {
      var p, e := es[..|es| - 1], es[|es| - 1];
      FoldRows(p);
      MergeRows(Fold(p), e);
      assert es == p + [e];
      GroupRowsAppend(p, e);
    }
  }

  lemma LargestStep(p: seq<Group>, e: Group, t: Group)
    requires LargestFor(p, t)
    ensures LargestFor(p + [e], if e.row == t.row then t.(m := Max(t.m, e.m)) else t)
  {
    var i :| 0 <= i < |p| && p[i].row == t.row && p[i].m == t.m;
    assert (p + [e])[i] == p[i] && (p + [e])[|p|] == e;
  }

  lemma LargestNew(p: seq<Group>, e: Group)
    requires e.row !in GroupRows(p)
    ensures LargestFor(p + [e], e)
  {
    assert (p + [e])[|p|] == e;
    assert forall i | 0 <= i < |p| :: p[i].row in GroupRows(p);
  }

  lemma MergeLargest(p: seq<Group>, e: Group, g: seq<Group>)
    requires RowsAscending(g) && GroupRows(g) == GroupRows(p)
    requires g != [] ==> g[|g| - 1].row <= e.row
    requires forall j | 0 <= j < |g| :: LargestFor(p, g[j])
    ensures forall j | 0 <= j < |Merge(g, e)| :: LargestFor(p + [e], Merge(g, e)[j])
  {
    forall j | 0 <= j < |g|
      ensures LargestFor(p + [e], Merge(g, e)[j])
    {
      LargestStep(p, e, g[j]);
    }
    if |Merge(g, e)| > |g| {
      LargestNew(p, e);
    }
  }

  lemma {:induction false} FoldLargest(es: seq<Group>)
    requires RowsSorted(es)
    ensures forall j | 0 <= j < |Fold(es)| :: LargestFor(es, Fold(es)[j])
  {
    if es != [] {
      var p, e := es[..|es| - 1], es[|es| - 1];
      FoldLargest(p);
      FoldRows(p);
      assert es == p + [e];
      MergeLargest(p, e, Fold(p));
    }
  }

  lemma {:induction false} CountPositive(w: seq<Burst>, r: nat, b: nat)
    ensures Count(w, r, b) > 0 <==> exists i | 0 <= i < |w| :: w[i].row == r && w[i].bank == b
  {
    if w != [] {
      CountPositive(w[..|w| - 1], r, b);
    }
  }

  lemma EntryOfBurst(w: seq<Burst>, B: nat, i: nat)
    requires B > 0 && BanksBelow(w, B) && i < |w|
    ensures Key(w[i], B) in UniqueKeys(w, B)
    ensures var e := Entry(w, B, Key(w[i], B));
      e.row == w[i].row && e.m == Count(w, w[i].row, w[i].bank) && e.m >= 1
  {
    assert Key(w[i], B) in Elems(UniqueKeys(w, B));
    DivUnique(Key(w[i], B), B, w[i].row, w[i].bank);
    CountPositive(w, w[i].row, w[i].bank);
  }

  lemma BurstOfEntry(w: seq<Burst>, B: nat, j: nat) returns (i: nat)
    requires B > 0 && BanksBelow(w, B) && j < |Entries(w, B)|
    ensures i < |w|
    ensures var e := Entries(w, B)[j];
      e.row == w[i].row && e.m == Count(w, w[i].row, w[i].bank) && e.m >= 1
  {
    var u := UniqueKeys(w, B);
    assert u[j] in Elems(u);
    i :| 0 <= i < |w| && Key(w[i], B) == u[j];
    EntryOfBurst(w, B, i);
  }

  lemma EntriesAscending(w: seq<Burst>, B: nat)
    requires B > 0
    ensures RowsSorted(Entries(w, B))
  {
    var u, es := UniqueKeys(w, B), Entries(w, B);
    forall i, j | 0 <= i < j < |es|
      ensures es[i].row <= es[j].row
    {
      DivMonotone(u[i], u[j], B);
    }
  }

  /** An entry exists for every (row, bank) pair of w, with that pair's count. */
  lemma EntryExists(w: seq<Burst>, B: nat, i: nat) returns (j: nat)
    requires B > 0 && BanksBelow(w, B) && i < |w|
    ensures j < |Entries(w, B)|
    ensures Entries(w, B)[j].row == w[i].row
    ensures Entries(w, B)[j].m == Count(w, w[i].row, w[i].bank)
  {
    EntryOfBurst(w, B, i);
    j :| 0 <= j < |UniqueKeys(w, B)| && UniqueKeys(w, B)[j] == Key(w[i], B);
  }

  /** The grouping really lists each row with the largest per-bank count. */
  lemma GroupsMeaning(w: seq<Burst>, B: nat)
    requires B > 0 && BanksBelow(w, B)
    ensures Grouping(w, Groups(w, B))
  {
    var es := Entries(w, B);
    EntriesAscending(w, B);
    FoldRows(es);
    FoldLargest(es);
    forall i | 0 <= i < |w|
      ensures w[i].row in GroupRows(es)
    {
      var j := EntryExists(w, B, i);
    }
    forall j | 0 <= j < |es|
      ensures es[j].row in Rows(w)
    {
      var i := BurstOfEntry(w, B, j);
    }
    assert GroupRows(es) == Rows(w);
    forall j | 0 <= j < |Fold(es)|
      ensures IsDemand(w, Fold(es)[j].row, Fold(es)[j].m)
    {
      LargestIsDemand(w, B, Fold(es)[j]);
    }
  }

  lemma LargestIsDemand(w: seq<Burst>, B: nat, t: Group)
    requires B > 0 && BanksBelow(w, B) && LargestFor(Entries(w, B), t)
    ensures IsDemand(w, t.row, t.m)
  {
    var es := Entries(w, B);
    var j :| 0 <= j < |es| && es[j].row == t.row && es[j].m == t.m;
    var i := BurstOfEntry(w, B, j);
    forall b: nat
      ensures Count(w, t.row, b) <= t.m
    {
      CountPositive(w, t.row, b);
      if Count(w, t.row, b) > 0 {
        var i' :| 0 <= i' < |w| && w[i'].row == t.row && w[i'].bank == b;
        var j' := EntryExists(w, B, i');
      }
    }
  }
}
