// ContiguousOracle: one reserved span per sequence, carved first-fit from free extents.
module Contiguous {
  import opened Counting
  import opened Extents

  /** The state: each span is its table, unconsumed reservation, scratch the caller holds,
      and scratch the caller has given back. */
  datatype Layout = Layout(
    numBlocks: nat,
    extents: seq<Extent>,
    tables: Lists,
    reserved: Lists,
    scratch: Lists,
    gone: Lists,
    spans: map<int, Extent>,
    refcount: map<nat, nat>,
    taken: nat,
    freed: nat)

  /** The blocks of a span, ascending. */
  function Blocks(e: Extent): seq<nat> {
    seq(e.size, i requires 0 <= i < e.size => e.start + i)
  }

  /** One list per live sequence. */
  type Lists = map<int, seq<nat>>

  ghost predicate SameKeys(l: Layout) {
    && l.tables.Keys == l.spans.Keys && l.reserved.Keys == l.spans.Keys
    && l.scratch.Keys == l.spans.Keys && l.gone.Keys == l.spans.Keys
  }

  /** table ++ reserved ++ scratch is the span in ascending order. */
  ghost predicate Laid(l: Layout) {
    && SameKeys(l)
    && forall id | id in l.spans ::
         && l.spans[id].size > 0
         && l.tables[id] + l.reserved[id] + l.scratch[id] + l.gone[id] == Blocks(l.spans[id])
  }

  ghost predicate InSpan(spans: map<int, Extent>, id: int, x: int) {
    id in spans && spans[id].Has(x)
  }

  /** Extents and spans partition the n blocks of the pool. */
  ghost predicate Split(n: nat, es: seq<Extent>, spans: map<int, Extent>) {
    && (forall x :: 0 <= x < n <==> Free(es, x) || exists id :: InSpan(spans, id, x))
    && (forall id, x | InSpan(spans, id, x) :: !Free(es, x))
    && (forall id, id', x | InSpan(spans, id, x) && InSpan(spans, id', x) :: id == id')
  }

  ghost predicate LiveIn(tables: Lists, scratch: Lists, id: int, x: nat) {
    (id in tables && x in tables[id]) || (id in scratch && x in scratch[id])
  }

  /** Blocks in tables and held scratch have exactly one reference, others none. */
  ghost predicate Counted(rc: map<nat, nat>, tables: Lists, scratch: Lists) {
    && (forall x: nat :: x in rc <==> exists id :: LiveIn(tables, scratch, id, x))
    && (forall x | x in rc :: rc[x] == 1)
  }

  function SumSizes(es: seq<Extent>): nat {
    if es == [] then 0 else SumSizes(es[..|es| - 1]) + es[|es| - 1].size
  }

  ghost function SumLens(m: Lists): nat
    decreases |m|
  {
    if k: int :| k in m then |m[k]| + SumLens(m - {k}) else 0
  }

  /** num_free: free extents plus unconsumed reservations. */
  ghost function NumFree(l: Layout): nat {
    SumSizes(l.extents) + SumLens(l.reserved)
  }

  /** Sorted, non-empty, non-touching extents that with the spans partition the pool. */
  ghost predicate Space(l: Layout) {
    Apart(l.extents) && NonEmpty(l.extents) && Split(l.numBlocks, l.extents, l.spans)
  }

  ghost predicate Books(l: Layout) {
    Counted(l.refcount, l.tables, l.scratch) && l.taken - l.freed == |l.refcount|
  }

  ghost predicate Total(l: Layout) {
    NumFree(l) + |l.refcount| + SumLens(l.gone) == l.numBlocks
  }

  ghost predicate Inv(l: Layout) {
    Space(l) && Laid(l) && Books(l) && Total(l)
  }

  // ---- sums --------------------------------------------------------------

  lemma {:induction false} SumLensPick(m: Lists, k: int)
    requires k in m
    ensures SumLens(m) == |m[k]| + SumLens(m - {k})
    decreases |m|
  {
    var j :| j in m && SumLens(m) == |m[j]| + SumLens(m - {j});
    if j != k {
      SumLensPick(m - {j}, k);
      SumLensPick(m - {k}, j);
      assert m - {j} - {k} == m - {k} - {j};
    }
  }

  lemma SumLensSet(m: Lists, k: int, s: seq<nat>)
    ensures SumLens(m[k := s]) == SumLens(m - {k}) + |s|
    ensures k in m ==> SumLens(m[k := s]) == SumLens(m) - |m[k]| + |s|
    ensures k !in m ==> SumLens(m[k := s]) == SumLens(m) + |s|
  {
    SumLensPick(m[k := s], k);
    assert m[k := s] - {k} == m - {k};
    if k in m {
      SumLensPick(m, k);
    } else {
      assert m - {k} == m;
    }
  }

  lemma {:induction false} SumSizesConcat(a: seq<Extent>, b: seq<Extent>)
    ensures SumSizes(a + b) == SumSizes(a) + SumSizes(b)
  {
    if b == [] {
      assert a + b == a;
    } else {
      SumSizesConcat(a, b[..|b| - 1]);
      assert (a + b)[..|a + b| - 1] == a + b[..|b| - 1];
    }
  }

  lemma SumOne(e: Extent)
    ensures SumSizes([e]) == e.size
  {
    assert [e][..0] == [];
  }

  /** Replacing the middle of a list changes the sum by the difference. */
  lemma SumMiddle(a: seq<Extent>, m: seq<Extent>, b: seq<Extent>)
    ensures SumSizes(a + m + b) == SumSizes(a) + SumSizes(m) + SumSizes(b)
  {
    SumSizesConcat(a + m, b);
    SumSizesConcat(a, m);
  }

  lemma ConsumeSum(es: seq<Extent>, i: nat, n: nat)
    requires i < |es| && es[i].size >= n
    ensures SumSizes(Consume(es, i, n)) == SumSizes(es) - n
  {
    hide SumSizes;
    var a, e, b := es[..i], es[i], es[i + 1..];
    assert es == a + [e] + b;
    SumMiddle(a, [e], b);
    SumOne(e);
    if e.size == n {
      SumSizesConcat(a, b);
    } else {
      var f := Extent(e.start + n, e.size - n);
      assert Consume(es, i, n) == a + [f] + b;
      SumMiddle(a, [f], b);
      SumOne(f);
    }
  }

  lemma {:induction false} InsertSum(es: seq<Extent>, e: Extent)
    ensures SumSizes(Insert(es, e)) == SumSizes(es) + e.size
  {
    SumSizesConcat(es, [e]);
    SumOne(e);
    if es != [] {
      var n := |es| - 1;
      assert es == es[..n] + [es[n]];
      InsertSum(es[..n], e);
      SumSizesConcat(Insert(es[..n], e), [es[n]]);
      SumOne(es[n]);
    }
  }

  lemma {:induction false} MergeSum(es: seq<Extent>)
    ensures SumSizes(MergeAll(es)) == SumSizes(es)
  {
    if es != [] {
      MergeSum(es[..|es| - 1]);
    }
  }

  // ---- counts ------------------------------------------------------------

  /** refcount[b] = 1 for each b of bs. */
  function SetOnes(rc: map<nat, nat>, bs: seq<nat>): map<nat, nat> {
    rc + map b | b in bs :: 1
  }

  ghost predicate AllNew(rc: map<nat, nat>, bs: seq<nat>) {
    Distinct(bs) && forall b | b in bs :: b !in rc
  }

  lemma SetOnesSize(rc: map<nat, nat>, bs: seq<nat>)
    requires AllNew(rc, bs)
    ensures |SetOnes(rc, bs)| == |rc| + |bs|
  {
    DistinctSize(bs);
    assert SetOnes(rc, bs).Keys == rc.Keys + Elems(bs);
    assert rc.Keys !! Elems(bs);
  }

  lemma DropSize(rc: map<nat, nat>, bs: seq<nat>)
    requires Distinct(bs) && forall b | b in bs :: b in rc
    ensures |rc - Elems(bs)| == |rc| - |bs|
  {
    DistinctSize(bs);
    assert (rc - Elems(bs)).Keys == rc.Keys - Elems(bs);
    assert Elems(bs) <= rc.Keys;
  }

  /** A block of a sequence's lists lies in its span, and in no other's. */
  lemma PartInSpan(l: Layout, id: int, x: nat)
    requires Laid(l) && id in l.spans
    ensures l.spans[id].Has(x) <==> x in l.tables[id] || x in l.reserved[id] || x in l.scratch[id] || x in l.gone[id]
  {
    var e := l.spans[id];
    if e.Has(x) {
      assert Blocks(e)[x - e.start] == x;
      assert x in Blocks(e);
    }
    assert x in Blocks(e) <==> x in l.tables[id] + l.reserved[id] + l.scratch[id] + l.gone[id];
  }

  lemma BlocksDistinct(e: Extent)
    ensures Distinct(Blocks(e)) && |Blocks(e)| == e.size
  {
  }

  lemma LiveInSpan(l: Layout, id: int, x: nat)
    requires Laid(l) && LiveIn(l.tables, l.scratch, id, x)
    ensures InSpan(l.spans, id, x)
  {
    PartInSpan(l, id, x);
  }

  /** The live blocks of sequence id grow by bs. */
  lemma CountedGrow(rc: map<nat, nat>, tables: Lists, scratch: Lists, tables': Lists, scratch': Lists, id: int,
                    bs: seq<nat>)
    requires Counted(rc, tables, scratch)
    requires forall x: nat :: LiveIn(tables', scratch', id, x) <==> LiveIn(tables, scratch, id, x) || x in bs
    requires forall k, x: nat | k != id :: LiveIn(tables', scratch', k, x) <==> LiveIn(tables, scratch, k, x)
    ensures Counted(SetOnes(rc, bs), tables', scratch')
  {
    var rc' := SetOnes(rc, bs);
    forall x: nat
      ensures x in rc' <==> exists k :: LiveIn(tables', scratch', k, x)
    {
      if k :| LiveIn(tables', scratch', k, x) {
        assert LiveIn(tables, scratch, k, x) || (k == id && x in bs);
      }
      if k :| LiveIn(tables, scratch, k, x) {
        assert LiveIn(tables', scratch', k, x);
      }
      if x in bs {
        assert LiveIn(tables', scratch', id, x);
      }
    }
  }

  /** The live blocks of sequence id shrink by bs, which no one else holds. */
  lemma CountedShrink(rc: map<nat, nat>, tables: Lists, scratch: Lists, tables': Lists, scratch': Lists,
                      id: int, bs: seq<nat>)
    requires Counted(rc, tables, scratch)
    requires forall x: nat :: LiveIn(tables', scratch', id, x) <==> LiveIn(tables, scratch, id, x) && x !in bs
    requires forall k, x: nat | k != id :: LiveIn(tables', scratch', k, x) <==> LiveIn(tables, scratch, k, x)
    requires forall k, x: nat | k != id && LiveIn(tables, scratch, k, x) :: x !in bs
    ensures Counted(rc - Elems(bs), tables', scratch')
  {
    var rc' := rc - Elems(bs);
    forall x: nat
      ensures x in rc' <==> exists k :: LiveIn(tables', scratch', k, x)
    {
      if k :| LiveIn(tables', scratch', k, x) {
        assert LiveIn(tables, scratch, k, x);
      }
      if k :| LiveIn(tables, scratch, k, x) && x !in bs {
        assert LiveIn(tables', scratch', k, x);
      }
    }
  }

  // ---- operations --------------------------------------------------------

  predicate Fits(l: Layout, n: nat) {
    FirstFit(l.extents, n) < |l.extents|
  }

  /** admit: the head of the first extent that fits, unchanged when none does. */
  function Admitted(l: Layout, id: int, nPrompt: nat, nTotal: nat): Layout
    requires nPrompt <= nTotal
  {
    var i := FirstFit(l.extents, nTotal);
    if i == |l.extents| then l else
    var span := Extent(l.extents[i].start, nTotal);
    var head := Blocks(span)[..nPrompt];
    l.(extents := Consume(l.extents, i, nTotal),
       tables := l.tables[id := head], reserved := l.reserved[id := Blocks(span)[nPrompt..]],
       scratch := l.scratch[id := []], gone := l.gone[id := []], spans := l.spans[id := span],
       refcount := SetOnes(l.refcount, head), taken := l.taken + nPrompt)
  }

  lemma SplitAdmit(n: nat, es: seq<Extent>, spans: map<int, Extent>, id: int, i: nat, size: nat)
    requires Split(n, es, spans) && Apart(es) && NonEmpty(es) && id !in spans
    requires i < |es| && es[i].size >= size > 0
    ensures Split(n, Consume(es, i, size), spans[id := Extent(es[i].start, size)])
  {
    var e := Extent(es[i].start, size);
    var es', spans' := Consume(es, i, size), spans[id := e];
    ConsumeMeaning(es, i, size);
    forall x | e.Has(x)
      ensures Free(es, x)
    {
      assert es[i].Has(x);
    }
    forall x
      ensures 0 <= x < n <==> Free(es', x) || exists k :: InSpan(spans', k, x)
    {
      if e.Has(x) {
        assert InSpan(spans', id, x);
      } else {
        assert forall k :: InSpan(spans', k, x) <==> InSpan(spans, k, x);
      }
    }
    forall k, x | InSpan(spans', k, x)
      ensures !Free(es', x) && (e.Has(x) ==> k == id)
    {
      if k != id { assert InSpan(spans, k, x); }
    }
    forall k, k', x | InSpan(spans', k, x) && InSpan(spans', k', x)
      ensures k == k'
    {
      if !e.Has(x) { assert InSpan(spans, k, x) && InSpan(spans, k', x); }
    }
  }

  /** The head of a free run is not live. */
  lemma HeadNew(l: Layout, i: nat, nPrompt: nat, nTotal: nat)
    requires Laid(l) && Split(l.numBlocks, l.extents, l.spans) && Counted(l.refcount, l.tables, l.scratch)
    requires i < |l.extents| && l.extents[i].size >= nTotal >= nPrompt
    ensures AllNew(l.refcount, Blocks(Extent(l.extents[i].start, nTotal))[..nPrompt])
  {
    var head := Blocks(Extent(l.extents[i].start, nTotal))[..nPrompt];
    forall b | b in head
      ensures b !in l.refcount
    {
      assert l.extents[i].Has(b);
      assert Free(l.extents, b);
      if k :| LiveIn(l.tables, l.scratch, k, b) { LiveInSpan(l, k, b); }
    }
  }

  lemma AdmittedCounted(l: Layout, id: int, nPrompt: nat, nTotal: nat)
    requires Laid(l) && Split(l.numBlocks, l.extents, l.spans)
    requires Counted(l.refcount, l.tables, l.scratch) && id !in l.spans
    requires nPrompt <= nTotal && FirstFit(l.extents, nTotal) < |l.extents|
    ensures var m := Admitted(l, id, nPrompt, nTotal);
      Counted(m.refcount, m.tables, m.scratch) && |m.refcount| == |l.refcount| + nPrompt
  {
    hide Split, Consume, Counted, AllNew, Free, Blocks, Laid, FirstFit, SetOnes;
    HeadNew(l, FirstFit(l.extents, nTotal), nPrompt, nTotal);
    SameKeysOf(l);
    assert id !in l.tables.Keys && id !in l.scratch.Keys;
    var m := Admitted(l, id, nPrompt, nTotal);
    BlocksDistinct(m.spans[id]);
    SetOnesSize(l.refcount, m.tables[id]);
    CountedGrow(l.refcount, l.tables, l.scratch, m.tables, m.scratch, id, m.tables[id]);
  }

  lemma AdmittedLaid(l: Layout, id: int, nPrompt: nat, nTotal: nat)
    requires Laid(l) && id !in l.spans && nTotal > 0 && nPrompt <= nTotal
    ensures Laid(Admitted(l, id, nPrompt, nTotal))
  {
    hide SetOnes, Consume;
    var m := Admitted(l, id, nPrompt, nTotal);
    if id in m.spans {
      assert m.tables[id] + m.reserved[id] + m.scratch[id] + m.gone[id] == Blocks(m.spans[id]);
    }
  }

  lemma AdmittedTotal(l: Layout, id: int, nPrompt: nat, nTotal: nat)
    requires Total(l) && SameKeys(l) && id !in l.spans && nPrompt <= nTotal && FirstFit(l.extents, nTotal) < |l.extents|
    requires |Admitted(l, id, nPrompt, nTotal).refcount| == |l.refcount| + nPrompt
    ensures Total(Admitted(l, id, nPrompt, nTotal))
  {
    hide SetOnes, Consume, SumSizes, SumLens;
    var m := Admitted(l, id, nPrompt, nTotal);
    ConsumeSum(l.extents, FirstFit(l.extents, nTotal), nTotal);
    SumLensSet(l.reserved, id, m.reserved[id]);
    SumLensSet(l.gone, id, []);
  }

  lemma AdmittedInv(l: Layout, id: int, nPrompt: nat, nTotal: nat)
    requires Inv(l) && id !in l.spans && nTotal > 0 && nPrompt <= nTotal
    ensures Inv(Admitted(l, id, nPrompt, nTotal))
  {
    hide Split, Counted, Consume, SetOnes, Laid, Total, Apart, NonEmpty;
    var i := FirstFit(l.extents, nTotal);
    if i < |l.extents| {
      SplitAdmit(l.numBlocks, l.extents, l.spans, id, i, nTotal);
      AdmittedCounted(l, id, nPrompt, nTotal);
      ConsumeMeaning(l.extents, i, nTotal);
      AdmittedLaid(l, id, nPrompt, nTotal);
      SameKeysOf(l);
      AdmittedTotal(l, id, nPrompt, nTotal);
    }
  }

  lemma SameKeysOf(l: Layout)
    requires Laid(l)
    ensures SameKeys(l)
  {
  }

  /** With no one in it the pool is one run. */
  lemma AloneRun(l: Layout, n: nat)
    requires Inv(l) && l.tables == map[] && n > 0
    ensures HasRun(l.extents, n) <==> n <= l.numBlocks
  {
    assert forall id, x :: !InSpan(l.spans, id, x);
    if n <= l.numBlocks {
      assert RunFree(l.extents, 0, n);
    }
    if start :| RunFree(l.extents, start, n) {
      assert Extents.Free(l.extents, start) && Extents.Free(l.extents, start + n - 1);
    }
  }

  lemma KeysMatch(l: Layout, id: int)
    requires Inv(l)
    ensures id in l.tables <==> id in l.spans
    ensures id in l.tables <==> id in l.reserved && id in l.scratch && id in l.gone
    ensures id in l.tables <==> id in l.reserved
    ensures id in l.tables <==> id in l.scratch
    ensures id in l.tables <==> id in l.gone
  {
    assert id in l.tables.Keys <==> id in l.spans.Keys;
  }

  /** Parts of a list without repeats have no repeats and no common elements. */
  lemma PartsApart(a: seq<nat>, b: seq<nat>, c: seq<nat>, d: seq<nat>)
    requires Distinct(a + b + c + d)
    ensures Distinct(a) && Distinct(b) && Distinct(c)
    ensures (forall x | x in a :: x !in b && x !in c) && forall x | x in b :: x !in c
  {
    var s := a + b + c + d;
    assert forall i | 0 <= i < |a| :: a[i] == s[i];
    assert forall i | 0 <= i < |b| :: b[i] == s[|a| + i];
    assert forall i | 0 <= i < |c| :: c[i] == s[|a| + |b| + i];
  }

  /** Reserved blocks of a live sequence are not live yet. */
  lemma ReservedNew(l: Layout, id: int)
    requires Inv(l) && id in l.spans
    ensures AllNew(l.refcount, l.reserved[id])
    ensures forall x | x in l.reserved[id] :: x !in l.tables[id] && x !in l.scratch[id]
  {
    var r := l.reserved[id];
    BlocksDistinct(l.spans[id]);
    PartsApart(l.tables[id], r, l.scratch[id], l.gone[id]);
    forall x | x in r
      ensures x !in l.refcount
    {
      PartInSpan(l, id, x);
      assert InSpan(l.spans, id, x);
      if k :| LiveIn(l.tables, l.scratch, k, x) { LiveInSpan(l, k, x); }
    }
  }

  /** append_block: the reservation's first block joins the table. */
  function Appended(l: Layout, id: int): Layout
    requires id in l.tables && id in l.reserved && l.reserved[id] != []
  {
    var r := l.reserved[id];
    l.(tables := l.tables[id := l.tables[id] + [r[0]]], reserved := l.reserved[id := r[1..]],
       refcount := SetOnes(l.refcount, [r[0]]), taken := l.taken + 1)
  }

  lemma AppendedCounted(l: Layout, id: int)
    requires Inv(l) && id in l.spans && l.reserved[id] != []
    ensures var m := Appended(l, id);
      Counted(m.refcount, m.tables, m.scratch) && |m.refcount| == |l.refcount| + 1
  {
    hide Split, Apart, NonEmpty, SumLens, Blocks;
    var m, r := Appended(l, id), l.reserved[id];
    ReservedNew(l, id);
    assert r[0] in r;
    SetOnesSize(l.refcount, [r[0]]);
    CountedGrow(l.refcount, l.tables, l.scratch, m.tables, m.scratch, id, [r[0]]);
  }

  lemma AppendedLaid(l: Layout, id: int)
    requires Laid(l) && id in l.spans && l.reserved[id] != []
    ensures Laid(Appended(l, id))
  {
    hide SetOnes, Blocks;
    var m, r := Appended(l, id), l.reserved[id];
    assert r == [r[0]] + r[1..];
    assert l.tables[id] + [r[0]] + r[1..] == l.tables[id] + r;
  }

  lemma AppendedInv(l: Layout, id: int)
    requires Inv(l) && id in l.spans && l.reserved[id] != []
    ensures Inv(Appended(l, id))
  {
    hide Split, Apart, NonEmpty, SumLens, SumSizes, Counted, SetOnes, Laid;
    SameKeysOf(l);
    AppendedCounted(l, id);
    AppendedLaid(l, id);
    SumLensSet(l.reserved, id, l.reserved[id][1..]);
  }

  /** take_scratch: the last n reserved blocks go to the caller. */
  function ScratchTaken(l: Layout, id: int, n: nat): Layout
    requires id in l.reserved && id in l.scratch && n <= |l.reserved[id]|
  {
    var r := l.reserved[id];
    var k := |r| - n;
    l.(reserved := l.reserved[id := r[..k]], scratch := l.scratch[id := r[k..] + l.scratch[id]],
       refcount := SetOnes(l.refcount, r[k..]), taken := l.taken + n)
  }

  lemma ScratchTakenCounted(l: Layout, id: int, n: nat)
    requires Inv(l) && id in l.spans && n <= |l.reserved[id]|
    ensures var m := ScratchTaken(l, id, n);
      Counted(m.refcount, m.tables, m.scratch) && |m.refcount| == |l.refcount| + n
  {
    hide Space, Laid, Total, Blocks, SetOnes, Counted;
    SameKeysOf(l);
    var m, r := ScratchTaken(l, id, n), l.reserved[id];
    var k := |r| - n;
    ReservedNew(l, id);
    assert r == r[..k] + r[k..];
    SetOnesSize(l.refcount, r[k..]);
    CountedGrow(l.refcount, l.tables, l.scratch, m.tables, m.scratch, id, r[k..]);
  }

  lemma ScratchTakenLaid(l: Layout, id: int, n: nat)
    requires Laid(l) && id in l.spans && n <= |l.reserved[id]|
    ensures Laid(ScratchTaken(l, id, n))
  {
    hide SetOnes, Blocks;
    var m, r := ScratchTaken(l, id, n), l.reserved[id];
    assert r == r[..|r| - n] + r[|r| - n..];
  }

  lemma ScratchTakenInv(l: Layout, id: int, n: nat)
    requires Inv(l) && id in l.spans && n <= |l.reserved[id]|
    ensures Inv(ScratchTaken(l, id, n))
  {
    hide Split, Apart, NonEmpty, SumLens, SumSizes, Counted, SetOnes, Laid;
    SameKeysOf(l);
    ScratchTakenCounted(l, id, n);
    ScratchTakenLaid(l, id, n);
    SumLensSet(l.reserved, id, l.reserved[id][..|l.reserved[id]| - n]);
  }

  /** Blocks only sequence id may hold. */
  lemma OnlyOwner(l: Layout, id: int, k: int, x: nat)
    requires Inv(l) && id in l.spans && (x in l.tables[id] || x in l.scratch[id])
    requires LiveIn(l.tables, l.scratch, k, x)
    ensures k == id
  {
    LiveInSpan(l, k, x);
    LiveInSpan(l, id, x);
  }

  /** unref_blocks of the scratch of a sequence about to be released. */
  ghost function ScratchReturned(l: Layout, id: int): Layout
    requires id in l.scratch && id in l.gone
  {
    var s := l.scratch[id];
    l.(scratch := l.scratch[id := []], gone := l.gone[id := s + l.gone[id]],
       refcount := l.refcount - Elems(s), freed := l.freed + |s|)
  }

  lemma ScratchReturnedCounted(l: Layout, id: int)
    requires Inv(l) && id in l.spans
    ensures var m := ScratchReturned(l, id);
      Counted(m.refcount, m.tables, m.scratch) && |m.refcount| == |l.refcount| - |l.scratch[id]|
  {
    hide Split, Apart, NonEmpty, SumLens, Blocks;
    var m, s := ScratchReturned(l, id), l.scratch[id];
    BlocksDistinct(l.spans[id]);
    PartsApart(l.tables[id], l.reserved[id], s, l.gone[id]);
    forall b | b in s
      ensures b in l.refcount
    {
      assert LiveIn(l.tables, l.scratch, id, b);
    }
    forall k, x: nat | k != id && LiveIn(l.tables, l.scratch, k, x)
      ensures x !in s
    {
      if x in s { OnlyOwner(l, id, k, x); }
    }
    DropSize(l.refcount, s);
    CountedShrink(l.refcount, l.tables, l.scratch, m.tables, m.scratch, id, s);
  }

  lemma ScratchReturnedLaid(l: Layout, id: int)
    requires Laid(l) && id in l.spans
    ensures Laid(ScratchReturned(l, id))
  {
    hide Elems, Blocks;
  }

  lemma ScratchReturnedInv(l: Layout, id: int)
    requires Inv(l) && id in l.spans
    ensures Inv(ScratchReturned(l, id))
  {
    hide Split, Apart, NonEmpty, SumLens, SumSizes, Counted, Elems, Laid;
    SameKeysOf(l);
    ScratchReturnedCounted(l, id);
    ScratchReturnedLaid(l, id);
    SumLensSet(l.gone, id, l.scratch[id] + l.gone[id]);
  }

  /** release: table references dropped, the whole span merged back into the extents. */
  ghost function Released(l: Layout, id: int): Layout
    requires id in l.tables && id in l.spans
  {
    l.(extents := MergeAll(Insert(l.extents, l.spans[id])),
       tables := l.tables - {id}, reserved := l.reserved - {id}, scratch := l.scratch - {id},
       gone := l.gone - {id}, spans := l.spans - {id},
       refcount := l.refcount - Elems(l.tables[id]), freed := l.freed + |l.tables[id]|)
  }

  lemma SplitRelease(n: nat, es: seq<Extent>, spans: map<int, Extent>, id: int)
    requires Split(n, es, spans) && Apart(es) && NonEmpty(es) && id in spans && spans[id].size > 0
    ensures var r := MergeAll(Insert(es, spans[id])); Split(n, r, spans - {id}) && Apart(r) && NonEmpty(r)
  {
    var e := spans[id];
    var r, spans' := MergeAll(Insert(es, e)), spans - {id};
    forall x | e.Has(x)
      ensures !Free(es, x)
    {
      assert InSpan(spans, id, x);
    }
    ReturnMeaning(es, e);
    assert forall k, x :: InSpan(spans', k, x) <==> InSpan(spans, k, x) && k != id;
    forall k, x | InSpan(spans', k, x)
      ensures !Free(r, x)
    {
      assert e.Has(x) ==> InSpan(spans, id, x);
    }
    forall x
      ensures 0 <= x < n <==> Free(r, x) || exists k :: InSpan(spans', k, x)
    {
      if k :| InSpan(spans, k, x) {
        assert k == id || InSpan(spans', k, x);
      }
      assert e.Has(x) ==> InSpan(spans, id, x);
    }
  }

  lemma ReleasedCounted(l: Layout, id: int)
    requires Inv(l) && id in l.spans && l.scratch[id] == []
    ensures var m := Released(l, id);
      Counted(m.refcount, m.tables, m.scratch) && |m.refcount| == |l.refcount| - |l.tables[id]|
  {
    hide Split, Apart, NonEmpty, SumLens, Blocks, MergeAll, Insert;
    var m, t := Released(l, id), l.tables[id];
    BlocksDistinct(l.spans[id]);
    PartsApart(t, l.reserved[id], l.scratch[id], l.gone[id]);
    forall b | b in t
      ensures b in l.refcount
    {
      assert LiveIn(l.tables, l.scratch, id, b);
    }
    forall k, x: nat | k != id && LiveIn(l.tables, l.scratch, k, x)
      ensures x !in t
    {
      if x in t { OnlyOwner(l, id, k, x); }
    }
    DropSize(l.refcount, t);
    CountedShrink(l.refcount, l.tables, l.scratch, m.tables, m.scratch, id, t);
  }

  lemma ReleasedTotal(l: Layout, id: int)
    requires Total(l) && Laid(l) && id in l.spans && l.scratch[id] == []
    requires |Released(l, id).refcount| == |l.refcount| - |l.tables[id]|
    ensures Total(Released(l, id))
  {
    hide SumLens, SumSizes, MergeAll, Insert, Elems;
    InsertSum(l.extents, l.spans[id]);
    MergeSum(Insert(l.extents, l.spans[id]));
    SumLensPick(l.reserved, id);
    SumLensPick(l.gone, id);
    BlocksDistinct(l.spans[id]);
    assert |l.tables[id] + l.reserved[id] + l.scratch[id] + l.gone[id]| == l.spans[id].size;
  }

  lemma ReleasedLaid(l: Layout, id: int)
    requires Laid(l) && id in l.spans
    ensures Laid(Released(l, id))
  {
    hide MergeAll, Insert, Elems, Blocks;
  }

  lemma ReleasedInv(l: Layout, id: int)
    requires Inv(l) && id in l.spans && l.scratch[id] == []
    ensures Inv(Released(l, id))
  {
    hide Split, Apart, NonEmpty, MergeAll, Insert, Counted, Elems, Total;
    SplitRelease(l.numBlocks, l.extents, l.spans, id);
    ReleasedCounted(l, id);
    ReleasedLaid(l, id);
    ReleasedTotal(l, id);
  }

  // ---- what the policy promises ------------------------------------------

  /** Nothing given back but not yet released: live plus free is the pool. */
  lemma ContiguousConservation(l: Layout)
    requires Inv(l) && forall id | id in l.gone :: l.gone[id] == []
    ensures |l.refcount| + NumFree(l) == l.numBlocks && l.taken - l.freed == |l.refcount|
  {
    NoneGone(l.gone);
  }

  lemma {:induction false} NoneGone(m: Lists)
    requires forall id | id in m :: m[id] == []
    ensures SumLens(m) == 0
    decreases |m|
  {
    if k: int :| k in m {
      SumLensPick(m, k);
      NoneGone(m - {k});
    }
  }

  // ---- a span of no blocks -----------------------------------------------

  /** The state of a fresh pool. */
  function NewLayout(n: nat): Layout {
    Layout(n, [Extent(0, n)], map[], map[], map[], map[], map[], map[], 0, 0)
  }

  lemma ReturnWhole(b: pos, n: nat)
    requires b < n
    ensures MergeAll(Insert([Extent(b, n - b)], Extent(0, b))) == [Extent(0, n)]
  {
    var x, e := Extent(b, n - b), Extent(0, b);
    assert Insert([], e) == [e];
    assert Insert([x], e) == [e, x] by { assert [x][..0] == []; }
    assert [e, x][..1] == [e] && [e][..0] == [];
    assert MergeAll([e]) == [e];
  }

  lemma ReturnNothing(b: pos, n: nat)
    requires b < n
    ensures MergeAll(Insert([Extent(0, n)], Extent(b, 0))) == [Extent(0, n), Extent(b, 0)]
  {
    var x, e := Extent(0, n), Extent(b, 0);
    assert Insert([x], e) == [x, e];
    assert [x, e][..1] == [x] && [x][..0] == [];
    assert MergeAll([x]) == [x];
  }

  /** Four calls that break the extents of any pool of at least two blocks: admit B with b
      blocks, admit A with none, which starts just above B, release B, release A. */
  lemma EmptySpanReached(n: nat, b: pos, idA: int, idB: int)
    requires b < n && idA != idB
    ensures var l1 := Admitted(NewLayout(n), idB, b, b);
      && var l2 := Admitted(l1, idA, 0, 0);
      && idB in l2.tables && idB in l2.spans
      && var l3 := Released(l2, idB);
      && idA in l3.tables && idA in l3.spans
      && var l4 := Released(l3, idA);
      && l3.extents == [Extent(0, n)] && l4.extents == [Extent(0, n), Extent(b, 0)]
      && Apart(l3.extents) && !Apart(l4.extents)
  {
    hide SetOnes, MergeAll, Insert;
    ReturnWhole(b, n);
    ReturnNothing(b, n);
    var l0 := NewLayout(n);
    assert FirstFit(l0.extents, b) == 0;
    var l1 := Admitted(l0, idB, b, b);
    assert l1.extents == [Extent(b, n - b)];
    assert FirstFit(l1.extents, 0) == 0;
    var l2 := Admitted(l1, idA, 0, 0);
    assert l2.extents == l1.extents;
    var l4 := Released(Released(l2, idB), idA);
    assert l4.extents[0].End() >= l4.extents[1].start;
  }
}
