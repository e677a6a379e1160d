// Free extents of the contiguous policy: first fit, and the sort-and-merge on release.
module Extents {
  import opened Counting

  datatype Extent = Extent(start: nat, size: nat) {
    function End(): nat { start + size }

    predicate Has(x: int) { start <= x < start + size }
  }

  /** x is free. */
  ghost predicate Free(es: seq<Extent>, x: int) {
    exists i | 0 <= i < |es| :: es[i].Has(x)
  }

  /** Ascending, and no two extents touch. */
  ghost predicate Apart(es: seq<Extent>) {
    forall i, j | 0 <= i < j < |es| :: es[i].End() < es[j].start
  }

  /** Ascending and disjoint; neighbours may touch. */
  ghost predicate InOrder(es: seq<Extent>) {
    forall i, j | 0 <= i < j < |es| :: es[i].End() <= es[j].start
  }

  ghost predicate NonEmpty(es: seq<Extent>) {
    forall i | 0 <= i < |es| :: es[i].size > 0
  }

  // ---- first fit ---------------------------------------------------------

  /** Blocks start .. start + n are all free. */
  ghost predicate RunFree(es: seq<Extent>, start: int, n: nat) {
    forall x | start <= x < start + n :: Free(es, x)
  }

  /** Index of the first extent of at least n blocks, |es| when there is none. */
  function FirstFit(es: seq<Extent>, n: nat): (i: nat)
    ensures i <= |es|
    ensures forall j | 0 <= j < i :: es[j].size < n
    ensures i < |es| ==> es[i].size >= n
  {
    if es == [] then 0
    else if es[0].size >= n then 0
    else 1 + FirstFit(es[1..], n)
  }

  /** A run of free blocks lies inside one extent. */
  lemma {:induction false} RunInOne(es: seq<Extent>, start: int, n: nat) returns (i: nat)
    requires Apart(es) && n > 0 && RunFree(es, start, n)
    ensures i < |es| && es[i].start <= start && start + n <= es[i].End()
    decreases n
  {
    if n == 1 {
      assert Free(es, start);
      i :| 0 <= i < |es| && es[i].Has(start);
    } else {
      i := RunInOne(es, start, n - 1);
      var y := start + n - 1;
      assert Free(es, y);
      var j :| 0 <= j < |es| && es[j].Has(y);
      assert es[i].Has(y - 1) && es[j].Has(y);
    }
  }

  ghost predicate HasRun(es: seq<Extent>, n: nat) {
    exists start :: RunFree(es, start, n)
  }

  ghost predicate LowestRun(es: seq<Extent>, start: int, n: nat) {
    RunFree(es, start, n) && forall s | RunFree(es, s, n) :: start <= s
  }

  /** First fit finds the lowest run of n free blocks, exactly when there is one. */
  lemma FirstFitLowest(es: seq<Extent>, n: nat)
    requires Apart(es) && n > 0
    ensures var i := FirstFit(es, n);
      (i < |es| <==> HasRun(es, n)) && (i < |es| ==> LowestRun(es, es[i].start, n))
  {
    var i := FirstFit(es, n);
    if i < |es| {
      forall x | es[i].start <= x < es[i].start + n
        ensures Free(es, x)
      {
        assert es[i].Has(x);
      }
      assert RunFree(es, es[i].start, n);
    }
    forall start | RunFree(es, start, n)
      ensures i < |es| && es[i].start <= start
    {
      var j := RunInOne(es, start, n);
      if i < j { assert es[i].End() < es[j].start; }
    }
  }

  /** What admission leaves of the extents: the head of extent i is consumed. */
  function Consume(es: seq<Extent>, i: nat, n: nat): seq<Extent>
    requires i < |es| && es[i].size >= n
  {
    if es[i].size == n then es[..i] + es[i + 1..]
    else es[i := Extent(es[i].start + n, es[i].size - n)]
  }

  /** Consuming removes exactly the run handed out. */
  lemma ConsumeMeaning(es: seq<Extent>, i: nat, n: nat)
    requires i < |es| && es[i].size >= n > 0 && Apart(es) && NonEmpty(es)
    ensures Apart(Consume(es, i, n)) && NonEmpty(Consume(es, i, n))
    ensures forall x :: Free(Consume(es, i, n), x) <==> Free(es, x) && !(es[i].start <= x < es[i].start + n)
  {
    var r := Consume(es, i, n);
    forall x
      ensures Free(r, x) <==> Free(es, x) && !(es[i].start <= x < es[i].start + n)
    {
      if Free(r, x) {
        ConsumedFrom(es, i, n, x);
      }
      if Free(es, x) && !(es[i].start <= x < es[i].start + n) {
        ConsumedTo(es, i, n, x);
      }
    }
  }

  lemma ConsumedFrom(es: seq<Extent>, i: nat, n: nat, x: int)
    requires i < |es| && es[i].size >= n > 0 && Apart(es) && Free(Consume(es, i, n), x)
    ensures Free(es, x) && !(es[i].start <= x < es[i].start + n)
  {
    var r := Consume(es, i, n);
    var k :| 0 <= k < |r| && r[k].Has(x);
    var j := if |r| < |es| && k >= i then k + 1 else k;
    assert es[j].Has(x);
    if j < i { assert es[j].End() < es[i].start; }
    if i < j { assert es[i].End() < es[j].start; }
  }

  lemma ConsumedTo(es: seq<Extent>, i: nat, n: nat, x: int)
    requires i < |es| && es[i].size >= n > 0 && Free(es, x) && !(es[i].start <= x < es[i].start + n)
    ensures Free(Consume(es, i, n), x)
  {
    var r := Consume(es, i, n);
    var j :| 0 <= j < |es| && es[j].Has(x);
    var k := if |r| < |es| && j > i then j - 1 else j;
    assert r[k].Has(x);
  }

  // ---- returning an extent -----------------------------------------------

  /** Lexicographic order on [start, size] pairs. */
  predicate Less(a: Extent, b: Extent) {
    a.start < b.start || (a.start == b.start && a.size < b.size)
  }

  /** Append and sort, when all but the appended pair are in order. */
  function Insert(es: seq<Extent>, e: Extent): seq<Extent> {
    if es == [] || Less(es[|es| - 1], e) then es + [e]
    else Insert(es[..|es| - 1], e) + [es[|es| - 1]]
  }

  /** One step of the merge loop. */
  function MergeOne(merged: seq<Extent>, e: Extent): seq<Extent> {
    var n := |merged| - 1;
    if merged != [] && merged[n].End() == e.start
    then merged[n := Extent(merged[n].start, merged[n].size + e.size)]
    else merged + [e]
  }

  function MergeAll(es: seq<Extent>): seq<Extent> {
    if es == [] then [] else MergeOne(MergeAll(es[..|es| - 1]), es[|es| - 1])
  }

  /** e holds no free block. */
  ghost predicate Clear(es: seq<Extent>, e: Extent) {
    forall x | e.Has(x) :: !Free(es, x)
  }

  lemma {:induction false} InsertMeaning(es: seq<Extent>, e: Extent)
    requires InOrder(es) && NonEmpty(es) && e.size > 0 && Clear(es, e)
    ensures InOrder(Insert(es, e)) && NonEmpty(Insert(es, e))
    ensures forall x :: x in Insert(es, e) <==> x in es || x == e
  {
    if es != [] {
      var n := |es| - 1;
      var p, l := es[..n], es[n];
      assert es == p + [l];
      ClearOf(es, e, n);
      if Less(l, e) {
        assert forall i | 0 <= i < n :: es[i].End() <= l.start;
      } else {
        ClearPrefix(p, l, e);
        InsertMeaning(p, e);
        InsertBefore(Insert(p, e), p, l, e);
      }
    }
  }

  lemma ClearPrefix(p: seq<Extent>, l: Extent, e: Extent)
    requires Clear(p + [l], e)
    ensures Clear(p, e)
  {
    forall x | e.Has(x)
      ensures !Free(p, x)
    {
      FreeSnoc(p, l, x);
    }
  }

  lemma InsertBefore(r: seq<Extent>, p: seq<Extent>, l: Extent, e: Extent)
    requires InOrder(r) && NonEmpty(r) && (forall x :: x in r <==> x in p || x == e)
    requires InOrder(p + [l]) && l.size > 0 && e.End() <= l.start
    ensures InOrder(r + [l]) && NonEmpty(r + [l])
  {
    forall i | 0 <= i < |r|
      ensures r[i].End() <= l.start
    {
      assert r[i] in r;
      if r[i] in p {
        var k :| 0 <= k < |p| && p[k] == r[i];
        assert (p + [l])[k].End() <= (p + [l])[|p|].start;
      }
    }
  }

  /** Disjoint extents are apart on one side or the other. */
  lemma ClearOf(es: seq<Extent>, e: Extent, i: nat)
    requires i < |es| && es[i].size > 0 && e.size > 0 && Clear(es, e)
    ensures es[i].End() <= e.start || e.End() <= es[i].start
  {
    var x := Max(es[i].start, e.start);
    if es[i].Has(x) && e.Has(x) {
      assert Free(es, x);
    }
  }

  /** Merging keeps the free blocks, and leaves no neighbours touching. */
  lemma {:induction false} MergeMeaning(es: seq<Extent>)
    requires InOrder(es) && NonEmpty(es)
    ensures Apart(MergeAll(es)) && NonEmpty(MergeAll(es))
    ensures |MergeAll(es)| > 0 <==> |es| > 0
    ensures es != [] ==> MergeAll(es)[|MergeAll(es)| - 1].End() == es[|es| - 1].End()
    ensures forall x :: Free(MergeAll(es), x) <==> Free(es, x)
  {
    if es != [] {
      var n := |es| - 1;
      var p, e := es[..n], es[n];
      assert forall i | 0 <= i < n :: p[i] == es[i];
      MergeMeaning(p);
      MergeOneApart(MergeAll(p), e);
      forall x
        ensures Free(MergeAll(es), x) <==> Free(es, x)
      {
        MergeOneFree(MergeAll(p), e, x);
        FreeSnoc(p, e, x);
        assert es == p + [e];
      }
    }
  }

  lemma FreeSnoc(p: seq<Extent>, e: Extent, x: int)
    ensures Free(p + [e], x) <==> Free(p, x) || e.Has(x)
  {
    if e.Has(x) { assert (p + [e])[|p|].Has(x); }
    if Free(p, x) {
      var i :| 0 <= i < |p| && p[i].Has(x);
      assert (p + [e])[i].Has(x);
    }
  }

  lemma MergeOneApart(m: seq<Extent>, e: Extent)
    requires Apart(m) && NonEmpty(m) && e.size > 0 && (m != [] ==> m[|m| - 1].End() <= e.start)
    ensures Apart(MergeOne(m, e)) && NonEmpty(MergeOne(m, e))
    ensures var r := MergeOne(m, e); r != [] && r[|r| - 1].End() == e.End()
  {
  }

  lemma MergeOneFree(m: seq<Extent>, e: Extent, x: int)
    ensures Free(MergeOne(m, e), x) <==> Free(m, x) || e.Has(x)
  {
    var n := |m| - 1;
    if m != [] && m[n].End() == e.start {
      var p := m[..n];
      assert m == p + [m[n]];
      FreeSnoc(p, m[n], x);
      var big := Extent(m[n].start, m[n].size + e.size);
      assert MergeOne(m, e) == p + [big];
      FreeSnoc(p, big, x);
    } else {
      FreeSnoc(m, e, x);
    }
  }

  /** Giving back an extent of used blocks frees exactly them, and keeps the extents apart. */
  lemma ReturnMeaning(es: seq<Extent>, e: Extent)
    requires Apart(es) && NonEmpty(es) && e.size > 0 && Clear(es, e)
    ensures var r := MergeAll(Insert(es, e));
      && Apart(r) && NonEmpty(r)
      && forall x :: Free(r, x) <==> Free(es, x) || e.Has(x)
  {
    InsertMeaning(es, e);
    var s := Insert(es, e);
    MergeMeaning(s);
    forall x
      ensures Free(s, x) <==> Free(es, x) || e.Has(x)
    {
      if Free(s, x) {
        var i :| 0 <= i < |s| && s[i].Has(x);
        assert s[i] in s;
      }
      if Free(es, x) {
        var i :| 0 <= i < |es| && es[i].Has(x);
        assert es[i] in s;
      }
      if e.Has(x) { assert e in s; }
    }
  }

  /** An empty span can break the order: returned inside a free extent it stays there, and
      splits what should merge. */
  lemma EmptySpanBreaks(a: nat)
    ensures Apart([Extent(a, 2)]) && Clear([Extent(a, 2)], Extent(a + 1, 0))
    ensures !Apart(MergeAll(Insert([Extent(a, 2)], Extent(a + 1, 0))))
  {
    var x, e := Extent(a, 2), Extent(a + 1, 0);
    assert Insert([x], e) == [x, e];
    assert [x, e][..1] == [x] && [x][..0] == [];
    assert MergeAll([x]) == [x];
    var m := MergeAll([x, e]);
    assert m == [x, e];
    assert m[0].End() >= m[1].start;
  }
}
