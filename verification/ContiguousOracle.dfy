// The contiguous policy's object, each method proved against the state functions.
module ContiguousOracle {
  import opened Counting
  import opened Results
  import opened Extents
  import opened Contiguous

  class Oracle {
    const numBlocks: nat

    var extents: seq<Extent>
    var tables: Lists
    var reserved: Lists
    var spans: map<int, Extent>
    var refcount: map<nat, nat>
    var allocatedTotal: nat
    var freedTotal: nat

    // scratch regions: held by callers, and given back but not yet released
    ghost var scratch: Lists
    ghost var gone: Lists

    ghost function View(): Layout
      reads this
    {
      Layout(numBlocks, extents, tables, reserved, scratch, gone, spans, refcount, allocatedTotal, freedTotal)
    }

    ghost predicate Valid()
      reads this
    {
      Inv(View())
    }

    constructor (n: nat)
      requires n > 0
      ensures Valid() && numBlocks == n && View() == NewLayout(n)
    {
      numBlocks := n;
      extents := [Extent(0, n)];
      tables, reserved, spans, refcount := map[], map[], map[], map[];
      allocatedTotal, freedTotal := 0, 0;
      scratch, gone := map[], map[];
      new;
      FreshInv(n);
    }

    /** num_free. */
    method CountFree() returns (r: nat)
      requires Valid()
      ensures r == NumFree(View())
    {
      r := 0;
      for i := 0 to |extents|
        invariant r == SumSizes(extents[..i])
      {
        assert extents[..i + 1][..i] == extents[..i];
        r := r + extents[i].size;
      }
      assert extents[..|extents|] == extents;
      var rest := reserved;
      while |rest.Keys| > 0
        invariant r + SumLens(rest) == NumFree(View())
        decreases |rest|
      {
        var k := AnyOf(rest.Keys);
        SumLensPick(rest, k);
        r := r + |rest[k]|;
        rest := rest - {k};
      }
      assert forall k: int :: k !in rest;
    }

    /** The first-fit scan. */
    method FindExtent(n: nat) returns (i: nat)
      ensures i == FirstFit(extents, n)
    {
      i := 0;
      while i < |extents|
        invariant i <= |extents| && forall j | 0 <= j < i :: extents[j].size < n
      {
        if extents[i].size >= n {
          return;
        }
        i := i + 1;
      }
    }

    /** One fresh reference for each block of bs. */
    method RefNew(bs: seq<nat>)
      modifies this`refcount
      ensures refcount == SetOnes(old(refcount), bs)
    {
      hide SetOnes;
      SetOnesNone(refcount);
      for i := 0 to |bs|
        invariant refcount == SetOnes(old(refcount), bs[..i])
      {
        SetOnesNext(old(refcount), bs, i);
        refcount := refcount[bs[i] := 1];
      }
      assert bs[..|bs|] == bs;
    }

    /** The effect of admit on extent i. */
    method Carve(id: int, i: nat, nPrompt: nat, nTotal: nat) returns (head: seq<nat>)
      requires i == FirstFit(extents, nTotal) < |extents| && nPrompt <= nTotal
      modifies this
      ensures View() == Admitted(old(View()), id, nPrompt, nTotal)
      ensures id in tables && head == tables[id] && id in spans && spans[id].start == old(extents[i].start)
    {
      hide Consume, SetOnes, FirstFit, Blocks;
      var start := extents[i].start;
      extents := Consume(extents, i, nTotal);
      var span := Blocks(Extent(start, nTotal));
      BlocksDistinct(Extent(start, nTotal));
      spans := spans[id := Extent(start, nTotal)];
      head := span[..nPrompt];
      RefNew(head);
      allocatedTotal := allocatedTotal + nPrompt;
      tables := tables[id := head];
      reserved := reserved[id := span[nPrompt..]];
      scratch, gone := scratch[id := []], gone[id := []];
    }

    /** admit: the lowest run of nTotal free blocks is reserved, exactly when there is one. */
    method Admit(id: int, nPrompt: nat, nTotal: nat) returns (r: Option<seq<nat>>)
      requires Valid() && id !in tables && nPrompt <= nTotal && nTotal > 0
      modifies this
      ensures Valid()
      ensures r.None? <==> !HasRun(old(extents), nTotal)
      ensures r.None? ==> View() == old(View())
      ensures r.Some? ==> Fits(old(View()), nTotal) && View() == Admitted(old(View()), id, nPrompt, nTotal)
      ensures r.Some? ==> id in tables && r.value == tables[id]
      ensures r.Some? ==> id in spans && LowestRun(old(extents), spans[id].start, nTotal)
    {
      hide Inv, HasRun, LowestRun, Apart, FirstFit, Admitted;
      KeysMatch(View(), id);
      ApartOf(View());
      FirstFitLowest(extents, nTotal);
      var i := FindExtent(nTotal);
      if i == |extents| {
        return None;
      }
      AdmittedInv(View(), id, nPrompt, nTotal);
      var head := Carve(id, i, nPrompt, nTotal);
      r := Some(head);
    }

    /** admit_shared: no sharing, a full private copy. */
    method AdmitShared(id: int, shared: seq<nat>, nNew: nat, nTotal: nat) returns (r: Option<seq<nat>>)
      requires Valid() && id !in tables && |shared| + nNew <= nTotal && nTotal > 0
      modifies this
      ensures Valid()
      ensures r.None? <==> !HasRun(old(extents), nTotal)
      ensures r.None? ==> View() == old(View())
      ensures r.Some? ==> View() == Admitted(old(View()), id, |shared| + nNew, nTotal)
    {
      hide Inv, HasRun, Admitted;
      r := Admit(id, |shared| + nNew, nTotal);
    }

    /** append_block: fails exactly when the reservation is used up. */
    method AppendBlock(id: int) returns (r: Option<nat>)
      requires Valid() && id in tables
      modifies this
      ensures Valid()
      ensures r.None? <==> old(reserved)[id] == []
      ensures r.None? ==> View() == old(View())
      ensures r.Some? ==> View() == Appended(old(View()), id) && r.value == old(reserved)[id][0]
    {
      hide Inv, SetOnes;
      KeysMatch(View(), id);
      if reserved[id] == [] {
        return None;
      }
      AppendedInv(View(), id);
      var b := reserved[id][0];
      reserved := reserved[id := reserved[id][1..]];
      RefNew([b]);
      allocatedTotal := allocatedTotal + 1;
      tables := tables[id := tables[id] + [b]];
      r := Some(b);
    }

    /** take_scratch: the highest n reserved blocks. */
    method TakeScratch(id: int, n: nat) returns (r: Option<seq<nat>>)
      requires Valid() && id in tables
      modifies this
      ensures Valid()
      ensures r.None? <==> |old(reserved)[id]| < n
      ensures r.None? ==> View() == old(View())
      ensures r.Some? ==> View() == ScratchTaken(old(View()), id, n)
      ensures r.Some? ==> r.value == old(reserved)[id][|old(reserved)[id]| - n..]
    {
      hide Inv, SetOnes;
      KeysMatch(View(), id);
      var t := reserved[id];
      if |t| < n {
        return None;
      }
      ScratchTakenInv(View(), id, n);
      var taken := t[|t| - n..];
      reserved := reserved[id := t[..|t| - n]];
      RefNew(taken);
      allocatedTotal := allocatedTotal + n;
      scratch := scratch[id := taken + scratch[id]];
      r := Some(taken);
    }

    /** _unref_span_block over a list: only counters and references change. */
    method UnrefSpanBlocks(bs: seq<nat>)
      requires Distinct(bs) && forall b | b in bs :: b in refcount && refcount[b] == 1
      modifies this`refcount, this`freedTotal
      ensures refcount == old(refcount) - Elems(bs) && freedTotal == old(freedTotal) + |bs|
    {
      for i := 0 to |bs|
        invariant refcount == old(refcount) - Elems(bs[..i]) && freedTotal == old(freedTotal) + i
      {
        assert bs[..i + 1] == bs[..i] + [bs[i]];
        assert bs[i] !in bs[..i] && bs[i] in bs;
        var rc := refcount[bs[i]] - 1;
        if rc == 0 {
          refcount := refcount - {bs[i]};
          freedTotal := freedTotal + 1;
        } else {
          assert false; // spans are unshared
        }
        ElemsAppend(bs[..i], bs[i]);
      }
      assert bs[..|bs|] == bs;
    }

    /** unref_blocks of a sequence's scratch region. */
    method UnrefScratch(id: int, bs: seq<nat>)
      requires Valid() && id in tables && bs == scratch[id]
      modifies this
      ensures Valid() && View() == ScratchReturned(old(View()), id)
    {
      hide Inv, Elems;
      ghost var l := View();
      KeysMatch(l, id);
      ScratchReturnedInv(l, id);
      HeldOnce(l, id);
      UnrefSpanBlocks(bs);
      scratch, gone := scratch[id := []], gone[id := bs + gone[id]];
    }

    /** The merge loop of _return_extent. */
    method ReturnExtent(start: nat, size: nat)
      modifies this`extents
      ensures extents == MergeAll(Insert(old(extents), Extent(start, size)))
    {
      var sorted := Insert(extents, Extent(start, size));
      var merged: seq<Extent> := [];
      for i := 0 to |sorted|
        invariant merged == MergeAll(sorted[..i])
      {
        assert sorted[..i + 1][..i] == sorted[..i];
        var e := sorted[i];
        var n := |merged| - 1;
        if merged != [] && merged[n].End() == e.start {
          merged := merged[n := Extent(merged[n].start, merged[n].size + e.size)];
        } else {
          merged := merged + [e];
        }
      }
      assert sorted[..|sorted|] == sorted;
      extents := merged;
    }

    /** release. */
    method Release(id: int)
      requires Valid() && id in tables && scratch[id] == []
      modifies this
      ensures Valid() && View() == Released(old(View()), id)
    {
      hide Inv, Elems, MergeAll, Insert;
      ghost var l := View();
      KeysMatch(l, id);
      ReleasedInv(l, id);
      HeldOnce(l, id);
      UnrefSpanBlocks(tables[id]);
      tables := tables - {id};
      reserved := reserved - {id};
      var e := spans[id];
      spans := spans - {id};
      ReturnExtent(e.start, e.size);
      scratch, gone := scratch - {id}, gone - {id};
    }
  }

  lemma SetOnesNone(rc: map<nat, nat>)
    ensures SetOnes(rc, []) == rc
  {
  }

  lemma SetOnesNext(rc: map<nat, nat>, bs: seq<nat>, i: nat)
    requires i < |bs|
    ensures SetOnes(rc, bs[..i])[bs[i] := 1] == SetOnes(rc, bs[..i + 1])
  {
    assert bs[..i + 1] == bs[..i] + [bs[i]];
  }

  lemma ApartOf(l: Layout)
    requires Inv(l)
    ensures Apart(l.extents)
  {
  }

  lemma FreshInv(n: nat)
    requires n > 0
    ensures Inv(Layout(n, [Extent(0, n)], map[], map[], map[], map[], map[], map[], 0, 0))
  {
    var l := Layout(n, [Extent(0, n)], map[], map[], map[], map[], map[], map[], 0, 0);
    SumOne(Extent(0, n));
    assert forall k: int :: k !in l.tables && k !in l.reserved && k !in l.gone && k !in l.scratch && k !in l.spans;
    forall x
      ensures 0 <= x < n <==> Extents.Free(l.extents, x)
    {
      assert 0 <= x < n ==> l.extents[0].Has(x);
    }
    assert forall k, x :: !InSpan(l.spans, k, x);
    assert Counted(l.refcount, l.tables, l.scratch);
  }

  /** Each block of a live sequence's lists has one reference. */
  lemma HeldOnce(l: Layout, id: int)
    requires Inv(l) && id in l.tables
    ensures Distinct(l.tables[id]) && Distinct(l.scratch[id])
    ensures forall b | b in l.tables[id] || b in l.scratch[id] :: b in l.refcount && l.refcount[b] == 1
  {
    BlocksDistinct(l.spans[id]);
    PartsApart(l.tables[id], l.reserved[id], l.scratch[id], l.gone[id]);
    forall b | b in l.tables[id] || b in l.scratch[id]
      ensures b in l.refcount
    {
      assert LiveIn(l.tables, l.scratch, id, b);
    }
  }

  /** What the simulator calls a sequence's outstanding growth is exactly its unconsumed
      reservation. */
  lemma CommittedIsReserved(l: Layout, id: int)
    requires Inv(l) && id in l.spans && l.gone[id] == []
    ensures l.spans[id].size - |l.tables[id]| - |l.scratch[id]| == |l.reserved[id]|
  {
    BlocksDistinct(l.spans[id]);
    assert |l.tables[id] + l.reserved[id] + l.scratch[id] + l.gone[id]| == l.spans[id].size;
  }
}
