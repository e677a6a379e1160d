// The counted commands of a window are the fewest that can serve its bursts.
module Optimality {
  import opened Counting
  import opened Commands

  function SumM(gs: seq<Group>): nat {
    if gs == [] then 0 else SumM(gs[..|gs| - 1]) + gs[|gs| - 1].m
  }

  /** Burst i rides command a[i] of k; a command serves one row and no bank twice. */
  ghost predicate LegalAssignment(w: seq<Burst>, a: seq<nat>, k: nat) {
    && |a| == |w|
    && (forall i | 0 <= i < |a| :: a[i] < k)
    && forall i, j | 0 <= i < j < |w| && a[i] == a[j] :: w[i].row == w[j].row && w[i].bank != w[j].bank
  }

  // ---- no assignment uses fewer -----------------------------------------

  ghost function UsedAt(w: seq<Burst>, a: seq<nat>, r: nat, b: nat): set<nat>
    requires |a| == |w|
  {
    set i | 0 <= i < |w| && w[i].row == r && w[i].bank == b :: a[i]
  }

  ghost function Used(w: seq<Burst>, a: seq<nat>, rs: set<nat>): set<nat>
    requires |a| == |w|
  {
    set i | 0 <= i < |w| && w[i].row in rs :: a[i]
  }

  lemma {:induction false} CountUsed(w: seq<Burst>, a: seq<nat>, k: nat, r: nat, b: nat)
    requires LegalAssignment(w, a, k)
    ensures |UsedAt(w, a, r, b)| == Count(w, r, b)
  {
    if w != [] {
      var n := |w| - 1;
      CountUsed(w[..n], a[..n], k, r, b);
      UsedAtNext(w, a, n, r, b);
    }
  }

  lemma UsedAtNext(w: seq<Burst>, a: seq<nat>, n: nat, r: nat, b: nat)
    requires |w| == |a| == n + 1
    ensures UsedAt(w, a, r, b) == UsedAt(w[..n], a[..n], r, b) + if w[n].row == r && w[n].bank == b then {a[n]} else {}
  {
  }

  lemma UsedSplit(w: seq<Burst>, a: seq<nat>, k: nat, rs: set<nat>, r: nat)
    requires LegalAssignment(w, a, k) && r !in rs
    ensures |Used(w, a, rs + {r})| == |Used(w, a, rs)| + |Used(w, a, {r})|
  {
    assert Used(w, a, rs + {r}) == Used(w, a, rs) + Used(w, a, {r});
    assert Used(w, a, rs) !! Used(w, a, {r});
  }

  lemma RowNeeds(w: seq<Burst>, a: seq<nat>, k: nat, r: nat, m: nat)
    requires LegalAssignment(w, a, k) && IsDemand(w, r, m)
    ensures |Used(w, a, {r})| >= m
  {
    var b: nat :| Count(w, r, b) == m;
    CountUsed(w, a, k, r, b);
    SubsetSize(UsedAt(w, a, r, b), Used(w, a, {r}));
  }

  lemma {:induction false} RowsNeed(w: seq<Burst>, a: seq<nat>, k: nat, gs: seq<Group>)
    requires LegalAssignment(w, a, k) && RowsAscending(gs)
    requires forall j | 0 <= j < |gs| :: IsDemand(w, gs[j].row, gs[j].m)
    ensures |Used(w, a, GroupRows(gs))| >= SumM(gs)
  {
    if gs != [] {
      var p, e := gs[..|gs| - 1], gs[|gs| - 1];
      RowsNeed(w, a, k, p);
      RowNeeds(w, a, k, e.row, e.m);
      UsedSplit(w, a, k, GroupRows(p), e.row);
      assert gs == p + [e];
      GroupRowsAppend(p, e);
    }
  }

  lemma NoFewer(w: seq<Burst>, a: seq<nat>, k: nat, gs: seq<Group>)
    requires LegalAssignment(w, a, k) && Grouping(w, gs)
    ensures SumM(gs) <= k
  {
    RowsNeed(w, a, k, gs);
    BelowSize(k);
    SubsetSize(Used(w, a, GroupRows(gs)), Below(k));
  }

  // ---- one assignment uses exactly that many ----------------------------

  lemma {:induction false} SumMMonotone(gs: seq<Group>, i: nat, j: nat)
    requires i <= j <= |gs|
    ensures SumM(gs[..i]) <= SumM(gs[..j])
  {
    if i < j {
      SumMMonotone(gs, i, j - 1);
      assert gs[..j][..j - 1] == gs[..j - 1];
    }
  }

  lemma SumMStep(gs: seq<Group>, j: nat)
    requires j < |gs|
    ensures SumM(gs[..j + 1]) == SumM(gs[..j]) + gs[j].m
    ensures SumM(gs[..j + 1]) <= SumM(gs)
  {
    assert gs[..j + 1][..j] == gs[..j];
    SumMMonotone(gs, j + 1, |gs|);
    assert gs[..|gs|] == gs;
  }

  function IndexOf(gs: seq<Group>, r: nat): (j: nat)
    requires r in GroupRows(gs)
    ensures j < |gs| && gs[j].row == r
  {
    if gs[|gs| - 1].row == r then |gs| - 1 else
    assert gs == gs[..|gs| - 1] + [gs[|gs| - 1]];
    GroupRowsAppend(gs[..|gs| - 1], gs[|gs| - 1]);
    IndexOf(gs[..|gs| - 1], r)
  }

  lemma {:induction false} CountGrows(w: seq<Burst>, i: nat, j: nat, r: nat, b: nat)
    requires i <= j <= |w|
    ensures Count(w[..i], r, b) <= Count(w[..j], r, b)
    ensures i < j && w[i].row == r && w[i].bank == b ==> Count(w[..i], r, b) < Count(w[..j], r, b)
  {
    if i < j {
      CountGrows(w, i, j - 1, r, b);
      assert w[..j][..j - 1] == w[..j - 1];
    }
  }

  /** The command of burst i: its row's block of commands, indexed by its rank in its bank. */
  ghost function Place(w: seq<Burst>, gs: seq<Group>, i: nat): nat
    requires Grouping(w, gs) && i < |w|
  {
    SumM(gs[..IndexOf(gs, w[i].row)]) + Count(w[..i], w[i].row, w[i].bank)
  }

  lemma PlaceRange(w: seq<Burst>, gs: seq<Group>, i: nat)
    requires Grouping(w, gs) && i < |w|
    ensures var j := IndexOf(gs, w[i].row);
      SumM(gs[..j]) <= Place(w, gs, i) < SumM(gs[..j + 1]) <= SumM(gs)
  {
    var j := IndexOf(gs, w[i].row);
    CountGrows(w, i, |w|, w[i].row, w[i].bank);
    assert w[..|w|] == w;
    assert IsDemand(w, gs[j].row, gs[j].m);
    SumMStep(gs, j);
  }

  lemma PlaceLegal(w: seq<Burst>, gs: seq<Group>, i: nat, i': nat)
    requires Grouping(w, gs) && i < i' < |w| && Place(w, gs, i) == Place(w, gs, i')
    ensures w[i].row == w[i'].row && w[i].bank != w[i'].bank
  {
    PlaceRange(w, gs, i);
    PlaceRange(w, gs, i');
    var j, j' := IndexOf(gs, w[i].row), IndexOf(gs, w[i'].row);
    if j < j' { SumMMonotone(gs, j + 1, j'); }
    if j' < j { SumMMonotone(gs, j' + 1, j); }
    CountGrows(w, i, i', w[i].row, w[i].bank);
  }

  /** The grouped count is attained by a legal assignment and beaten by none. */
  lemma WindowOptimal(w: seq<Burst>, B: nat)
    requires B > 0 && BanksBelow(w, B)
    ensures exists a :: LegalAssignment(w, a, SumM(Groups(w, B)))
    ensures forall a, k | LegalAssignment(w, a, k) :: SumM(Groups(w, B)) <= k
  {
    var gs := Groups(w, B);
    GroupsMeaning(w, B);
    var a := seq(|w|, i requires 0 <= i < |w| => Place(w, gs, i));
    forall i | 0 <= i < |w|
      ensures a[i] < SumM(gs)
    {
      PlaceRange(w, gs, i);
    }
    forall i, j | 0 <= i < j < |w| && a[i] == a[j]
      ensures w[i].row == w[j].row && w[i].bank != w[j].bank
    {
      PlaceLegal(w, gs, i, j);
    }
    assert LegalAssignment(w, a, SumM(gs));
    forall a, k | LegalAssignment(w, a, k)
      ensures SumM(gs) <= k
    {
      NoFewer(w, a, k, gs);
    }
  }

  /** k commands of at most B bursts each serve at most B * k bursts. */
  lemma Capacity(w: seq<Burst>, a: seq<nat>, k: nat, B: nat)
    requires LegalAssignment(w, a, k) && BanksBelow(w, B)
    ensures |w| <= k * B
  {
    var slots := seq(|w|, i requires 0 <= i < |w| => a[i] * B + w[i].bank);
    forall i | 0 <= i < |w|
      ensures slots[i] < k * B
    {
      SlotBelow(a[i], w[i].bank, k, B);
    }
    forall i, j | 0 <= i < j < |w|
      ensures slots[i] != slots[j]
    {
      if slots[i] == slots[j] { SlotUnique(a[i], w[i].bank, a[j], w[j].bank, B); }
    }
    DistinctBelow(slots, k * B);
  }

  lemma SlotBelow(q: nat, b: nat, k: nat, B: nat)
    requires q < k && b < B
    ensures q * B + b < k * B
  {
    MulMono(q + 1, k, B);
    MulDistributes(q, 1, B);
  }

  lemma SlotUnique(q: nat, b: nat, q': nat, b': nat, B: nat)
    requires b < B && b' < B && q * B + b == q' * B + b'
    ensures q == q' && b == b'
  {
    DivUnique(q * B + b, B, q, b);
    DivUnique(q * B + b, B, q', b');
  }
}
