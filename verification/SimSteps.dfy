// How each allocator effect carries the scheduler's invariants across one step.
module SimSteps {
  import opened Counting
  import opened AllocatorView
  import opened SimState

  // ---- frames of the invariant -------------------------------------------

  /** A sequence whose table is untouched stays in order. */
  lemma SeqKept(cfg: Config, cache: Cache, s: Store, s': Store, st: SeqState)
    requires SeqOk(cfg, cache, s, st) && KeptAt(s, s', st.rid)
    ensures SeqOk(cfg, cache, s', st)
    ensures Owed(st, s'.tables) == Owed(st, s.tables)
  {
    hide Uses;
    var t, k := s.tables[st.rid], SharedCount(cfg, st);
    forall i | k <= i < |t|
      ensures Uses(s', t[i]) == 1
    {
      assert t[i] in t && Uses(s, t[i]) == 1;
    }
  }

  ghost predicate AllKept(active: seq<SeqState>, s: Store, s': Store) {
    forall i | 0 <= i < |active| :: KeptAt(s, s', active[i].rid)
  }

  ghost predicate CacheKept(cache: Cache, s: Store, s': Store) {
    forall p | p in cache && CacheId(p) in s.tables ::
      CacheId(p) in s'.tables && s'.tables[CacheId(p)] == s.tables[CacheId(p)]
  }

  lemma AllSeqKept(cfg: Config, active: seq<SeqState>, cache: Cache, s: Store, s': Store)
    requires AllKept(active, s, s') && forall i | 0 <= i < |active| :: SeqOk(cfg, cache, s, active[i])
    ensures forall i | 0 <= i < |active| :: SeqOk(cfg, cache, s', active[i])
    ensures SameSizes(active, s.tables, s'.tables)
  {
    forall i | 0 <= i < |active|
      ensures SeqOk(cfg, cache, s', active[i]) && Owed(active[i], s'.tables) == Owed(active[i], s.tables)
    {
      SeqKept(cfg, cache, s, s', active[i]);
    }
  }

  /** A table's owner is running, or it is a pinned prefix. */
  lemma NotOwned(active: seq<SeqState>, cache: Cache, tables: Tables, k: int)
    requires Owned(active, cache, tables) && k >= 0 && !HasRid(active, k)
    ensures k !in tables
  {
  }

  /** Sequence st joins. */
  lemma GoodJoin(cfg: Config, active: seq<SeqState>, cache: Cache, s: Store, s': Store, st: SeqState)
    requires Good(cfg, active, cache, s) && !HasRid(active, st.rid) && st.rid >= 0
    requires AllKept(active, s, s') && CacheKept(cache, s, s') && s'.tables.Keys == s.tables.Keys + {st.rid}
    requires SeqOk(cfg, cache, s', st) && AllDistinct(s'.tables) && s'.spanned == s.spanned
    ensures Good(cfg, active + [st], cache, s')
    ensures Committed(active + [st], s'.tables) == Committed(active, s.tables) + Owed(st, s'.tables)
  {
    hide SeqOk, KeptAt, AllDistinct;
    AllSeqKept(cfg, active, cache, s, s');
    CommittedConcat(active, [st], s'.tables);
    CommittedOne(st, s'.tables);
    CommittedSame(active, s.tables, s'.tables);
    OwnedJoin(active, cache, s.tables, s'.tables, st);
    assert forall i | 0 <= i < |active| :: active[i].rid != st.rid;
  }

  lemma OwnedJoin(active: seq<SeqState>, cache: Cache, tables: Tables, tables': Tables, st: SeqState)
    requires Owned(active, cache, tables) && tables'.Keys == tables.Keys + {st.rid}
    ensures Owned(active + [st], cache, tables')
  {
    var a := active + [st];
    forall k
      ensures k in tables' <==> HasRid(a, k) || IsCacheId(cache, k)
    {
      assert k in tables' <==> k in tables.Keys || k == st.rid;
      assert a[|active|] == st;
      if i :| 0 <= i < |active| && active[i].rid == k { assert a[i].rid == k; }
      if i :| 0 <= i < |a| && a[i].rid == k && k != st.rid { assert active[i].rid == k; }
    }
  }

  /** Sequence j moves on to state st. */
  lemma GoodReplace(cfg: Config, active: seq<SeqState>, j: nat, cache: Cache, s: Store, s': Store, st: SeqState)
    requires Good(cfg, active, cache, s) && j < |active| && st.rid == active[j].rid
    requires AllKept(active[..j] + active[j + 1..], s, s') && CacheKept(cache, s, s') && s'.tables.Keys == s.tables.Keys
    requires SeqOk(cfg, cache, s', st) && AllDistinct(s'.tables) && s'.spanned == s.spanned
    ensures Good(cfg, active[j := st], cache, s')
    ensures Committed(active[j := st], s'.tables)
         == Committed(active, s.tables) - Owed(active[j], s.tables) + Owed(st, s'.tables)
  {
    hide SeqOk, KeptAt, AllDistinct;
    var rest := active[..j] + active[j + 1..];
    RestOk(cfg, active, j, cache, s);
    AllSeqKept(cfg, rest, cache, s, s');
    CommittedUpdate(active, j, st, s.tables, s'.tables);
    forall i | 0 <= i < |active| && i != j
      ensures SeqOk(cfg, cache, s', active[i])
    {
      assert active[i] == rest[if i < j then i else i - 1];
    }
    SameRids(active, j, st);
    OwnedSame(active, active[j := st], cache, s.tables, s'.tables);
  }

  lemma RestOk(cfg: Config, active: seq<SeqState>, j: nat, cache: Cache, s: Store)
    requires j < |active| && forall i | 0 <= i < |active| :: SeqOk(cfg, cache, s, active[i])
    ensures var rest := active[..j] + active[j + 1..];
      forall i | 0 <= i < |rest| :: SeqOk(cfg, cache, s, rest[i])
  {
    hide SeqOk;
  }

  lemma SameRids(active: seq<SeqState>, j: nat, st: SeqState)
    requires j < |active| && st.rid == active[j].rid
    ensures forall k :: HasRid(active[j := st], k) <==> HasRid(active, k)
    ensures RidsDistinct(active) ==> RidsDistinct(active[j := st])
  {
    var a := active[j := st];
    assert forall i | 0 <= i < |active| :: a[i].rid == active[i].rid;
    forall k
      ensures HasRid(a, k) <==> HasRid(active, k)
    {
      if i :| 0 <= i < |active| && active[i].rid == k { assert a[i].rid == k; }
    }
  }

  lemma OwnedSame(active: seq<SeqState>, active': seq<SeqState>, cache: Cache, tables: Tables, tables': Tables)
    requires Owned(active, cache, tables) && tables'.Keys == tables.Keys
    requires forall k :: HasRid(active', k) <==> HasRid(active, k)
    ensures Owned(active', cache, tables')
  {
    assert forall k :: k in tables' <==> k in tables.Keys;
  }

  // ---- admission ---------------------------------------------------------

  /** What try_admit records about an admitted sequence. */
  function Admitted(st: SeqState, total: nat, scratch: seq<nat>): SeqState {
    st.(totalBlocks := total, scratch := scratch)
  }

  lemma FreshTable(cfg: Config, cache: Cache, s: Store, st: SeqState)
    requires Known(cfg, st) && st.rid in s.tables && |s.tables[st.rid]| == Ceil(st.length, cfg.bt)
    requires SharedCount(cfg, st) == 0 && PrivateFrom(s, s.tables[st.rid], 0)
    ensures Covered(cfg, cache, s, st)
  {
  }

  /** Plain admission into a shared pool. */
  lemma AdmitGood(cfg: Config, active: seq<SeqState>, cache: Cache, s: Store, s': Store, st: SeqState, bs: seq<nat>)
    requires Good(cfg, active, cache, s) && Known(cfg, st) && !HasRid(active, st.rid) && !cfg.spanned
    requires SharedCount(cfg, st) == 0 && st.scratch == [] && |bs| == Ceil(st.length, cfg.bt)
    requires Admits(s, s', st.rid, bs, TotalWithScratch(cfg, st))
    ensures Good(cfg, active + [Admitted(st, TotalWithScratch(cfg, st), [])], cache, s')
    ensures Spare(active + [Admitted(st, TotalWithScratch(cfg, st), [])], s')
        == Spare(active, s) - TotalWithScratch(cfg, st)
    ensures s'.held == s.held && FreeCount(s') == FreeCount(s) - |bs|
  {
    hide Good, FreeCount, Uses, Unused;
    GoodParts(cfg, active, cache, s);
    NotOwned(active, cache, s.tables, st.rid);
    var total := TotalWithScratch(cfg, st);
    var st' := Admitted(st, total, []);
    AdmitKept(s, s', st.rid, bs, total);
    AdmitFree(s, s', st.rid, bs, total);
    FreshTable(cfg, cache, s', st');
    JoinKept(cfg, active, cache, s, s', st.rid);
    GoodJoin(cfg, active, cache, s, s', st');
  }

  lemma GoodParts(cfg: Config, active: seq<SeqState>, cache: Cache, s: Store)
    requires Good(cfg, active, cache, s)
    ensures s.spanned == cfg.spanned && AllDistinct(s.tables)
    ensures Owned(active, cache, s.tables) && CacheOk(cfg, cache, s)
    ensures RidsDistinct(active) && forall i | 0 <= i < |active| :: SeqOk(cfg, cache, s, active[i])
  {
  }

  /** Only a new table appears. */
  lemma JoinKept(cfg: Config, active: seq<SeqState>, cache: Cache, s: Store, s': Store, id: int)
    requires Good(cfg, active, cache, s) && id !in s.tables && Kept(s, s', id)
    ensures AllKept(active, s, s') && CacheKept(cache, s, s')
  {
    forall i | 0 <= i < |active|
      ensures KeptAt(s, s', active[i].rid)
    {
      assert SeqOk(cfg, cache, s, active[i]);
    }
    forall p | p in cache && CacheId(p) in s.tables
      ensures CacheId(p) in s'.tables && s'.tables[CacheId(p)] == s.tables[CacheId(p)]
    {
      assert KeptAt(s, s', CacheId(p));
    }
  }

  /** Pinning a prefix's full blocks. */
  lemma PinGood(cfg: Config, active: seq<SeqState>, cache: Cache, s: Store, s': Store, p: nat, bs: seq<nat>)
    requires Good(cfg, active, cache, s) && p !in cache && !cfg.spanned && !cfg.compacts
    requires p in cfg.prefixLens && |bs| == Floor(cfg.prefixLens[p], cfg.bt)
    requires Admits(s, s', CacheId(p), bs, |bs|)
    ensures Good(cfg, active, cache[p := bs], s') && Spare(active, s') == Spare(active, s) - |bs|
    ensures FreeCount(s') == FreeCount(s) - |bs| && s'.held == s.held
  {
    hide FreeCount, Uses, Unused, SeqOk;
    RidsNat(cfg, active, cache, s);
    PinNew(active, cache, s.tables, p);
    AdmitKept(s, s', CacheId(p), bs, |bs|);
    AdmitFree(s, s', CacheId(p), bs, |bs|);
    JoinKept(cfg, active, cache, s, s', CacheId(p));
    AllSeqKept(cfg, active, cache, s, s');
    CommittedSame(active, s.tables, s'.tables);
    forall i | 0 <= i < |active|
      ensures SeqOk(cfg, cache[p := bs], s', active[i])
    {
      MoreCache(cfg, cache, s', active[i], p, bs);
    }
    OwnedPin(active, cache, s.tables, s'.tables, p, bs);
  }

  lemma RidsNat(cfg: Config, active: seq<SeqState>, cache: Cache, s: Store)
    requires forall i | 0 <= i < |active| :: SeqOk(cfg, cache, s, active[i])
    ensures forall i | 0 <= i < |active| :: active[i].rid >= 0
  {
    hide Covered, Reserved, Promised;
  }

  lemma PinNew(active: seq<SeqState>, cache: Cache, tables: Tables, p: nat)
    requires Owned(active, cache, tables) && p !in cache && forall i | 0 <= i < |active| :: active[i].rid >= 0
    ensures CacheId(p) !in tables
  {
  }

  lemma MoreCache(cfg: Config, cache: Cache, s: Store, st: SeqState, p: nat, bs: seq<nat>)
    requires SeqOk(cfg, cache, s, st) && p !in cache
    ensures SeqOk(cfg, cache[p := bs], s, st)
  {
  }

  lemma OwnedPin(active: seq<SeqState>, cache: Cache, tables: Tables, tables': Tables, p: nat, bs: seq<nat>)
    requires Owned(active, cache, tables) && tables'.Keys == tables.Keys + {CacheId(p)}
    ensures Owned(active, cache[p := bs], tables')
  {
    forall k
      ensures k in tables' <==> HasRid(active, k) || IsCacheId(cache[p := bs], k)
    {
      assert k in tables' <==> k in tables.Keys || k == CacheId(p);
      assert IsCacheId(cache[p := bs], k) <==> IsCacheId(cache, k) || k == CacheId(p);
    }
  }

  /** Admission on top of a pinned prefix. */
  lemma ShareGood(cfg: Config, active: seq<SeqState>, cache: Cache, s: Store, s': Store, st: SeqState, bs: seq<nat>)
    requires Good(cfg, active, cache, s) && Known(cfg, st) && !HasRid(active, st.rid) && !cfg.spanned
    requires SharedCount(cfg, st) > 0 && st.scratch == [] && st.prefix.value in cache
    requires SharedCount(cfg, st) + |bs| == Ceil(st.length, cfg.bt)
    requires Shares(s, s', st.rid, cache[st.prefix.value], bs)
    ensures Good(cfg, active + [Admitted(st, TotalWithScratch(cfg, st), [])], cache, s')
    ensures Spare(active + [Admitted(st, TotalWithScratch(cfg, st), [])], s')
         == Spare(active, s) - TotalWithScratch(cfg, st) + SharedCount(cfg, st)
    ensures s'.held == s.held && FreeCount(s') == FreeCount(s) - |bs|
  {
    hide Good, FreeCount, Uses, Unused, SeqOk;
    GoodParts(cfg, active, cache, s);
    var p := st.prefix.value;
    var c := CacheId(p);
    NotOwned(active, cache, s.tables, st.rid);
    var st' := Admitted(st, TotalWithScratch(cfg, st), []);
    assert c in s.tables && s.tables[c] == cache[p];
    ShareKept(s, s', st.rid, c, bs);
    ShareFree(s, s', st.rid, cache[p], bs);
    SharedTable(cfg, cache, s, s', st', bs);
    RidsNat(cfg, active, cache, s);
    ShareAllKept(cfg, active, cache, s, s', c);
    GoodJoin(cfg, active, cache, s, s', st');
  }

  lemma SharedTable(cfg: Config, cache: Cache, s: Store, s': Store, st: SeqState, bs: seq<nat>)
    requires Known(cfg, st) && SharedCount(cfg, st) > 0 && st.prefix.value in cache && !cfg.spanned && st.scratch == []
    requires |cache[st.prefix.value]| == SharedCount(cfg, st) && SharedCount(cfg, st) + |bs| == Ceil(st.length, cfg.bt)
    requires st.totalBlocks == TotalWithScratch(cfg, st)
    requires st.rid in s'.tables && s'.tables[st.rid] == cache[st.prefix.value] + bs
    requires forall x | x in bs :: Uses(s', x) == 1
    ensures SeqOk(cfg, cache, s', st)
  {
    var t, k := s'.tables[st.rid], SharedCount(cfg, st);
    assert t[..k] == cache[st.prefix.value];
    forall i | k <= i < |t|
      ensures Uses(s', t[i]) == 1
    {
      assert t[i] == bs[i - k] && bs[i - k] in bs;
    }
  }

  lemma ShareAllKept(cfg: Config, active: seq<SeqState>, cache: Cache, s: Store, s': Store, c: int)
    requires (forall i | 0 <= i < |active| :: SeqOk(cfg, cache, s, active[i]) && active[i].rid >= 0) && c < 0
    requires forall k | k in s.tables && k != c :: KeptAt(s, s', k)
    requires c in s.tables && c in s'.tables && s'.tables[c] == s.tables[c]
    ensures AllKept(active, s, s') && CacheKept(cache, s, s')
  {
    hide KeptAt, PrivateFrom, Known, Reserved, Promised;
    forall p | p in cache && CacheId(p) in s.tables
      ensures CacheId(p) in s'.tables && s'.tables[CacheId(p)] == s.tables[CacheId(p)]
    {
      if CacheId(p) != c { KeptAtTable(s, s', CacheId(p)); }
    }
  }

  lemma KeptAtTable(s: Store, s': Store, k: int)
    requires KeptAt(s, s', k)
    ensures k in s.tables && k in s'.tables && s'.tables[k] == s.tables[k]
  {
  }

  /** Admission of the contiguous policy, scratch region included. */
  lemma SpanGood(cfg: Config, active: seq<SeqState>, cache: Cache, s: Store, m: Store, s': Store, st: SeqState,
                 bs: seq<nat>, scratch: seq<nat>)
    requires Good(cfg, active, cache, s) && Known(cfg, st) && !HasRid(active, st.rid) && cfg.spanned
    requires |bs| == Ceil(st.length, cfg.bt) && Admits(s, m, st.rid, bs, TotalWithScratch(cfg, st))
    requires |scratch| == ScratchPerSeq(cfg) && (if scratch == [] then s' == m else Reserves(m, s', st.rid, scratch))
    ensures Good(cfg, active + [Admitted(st, TotalWithScratch(cfg, st), scratch)], cache, s')
  {
    hide Good, FreeCount, Uses, Unused, SeqOk;
    GoodParts(cfg, active, cache, s);
    NotOwned(active, cache, s.tables, st.rid);
    var total := TotalWithScratch(cfg, st);
    var st' := Admitted(st, total, scratch);
    AdmitKept(s, m, st.rid, bs, total);
    ReserveKept(s, m, s', st.rid, bs, scratch, total);
    SpannedTable(cfg, cache, s', st', bs);
    JoinKept(cfg, active, cache, s, s', st.rid);
    GoodJoin(cfg, active, cache, s, s', st');
  }

  lemma SpannedTable(cfg: Config, cache: Cache, s: Store, st: SeqState, bs: seq<nat>)
    requires Known(cfg, st) && cfg.spanned && st.rid in s.tables
    requires s.tables[st.rid] == bs && |bs| == Ceil(st.length, cfg.bt)
    requires forall x | x in bs :: Uses(s, x) == 1
    requires st.rid in s.slack && s.slack[st.rid] == st.totalBlocks - |bs| - |st.scratch|
    requires st.rid in s.scratch && s.scratch[st.rid] == st.scratch && Promised(cfg, st)
    ensures SeqOk(cfg, cache, s, st)
  {
  }

  lemma ReserveKept(s: Store, m: Store, s': Store, id: int, bs: seq<nat>, scratch: seq<nat>, total: nat)
    requires id !in s.tables && s.spanned && Admits(s, m, id, bs, total) && Kept(s, m, id)
    requires forall x | x in bs :: Uses(m, x) == 1
    requires if scratch == [] then s' == m else Reserves(m, s', id, scratch)
    ensures Kept(s, s', id) && forall x | x in bs :: Uses(s', x) == 1
    ensures id in s'.slack && s'.slack[id] == total - |bs| - |scratch|
    ensures id in s'.scratch && s'.scratch[id] == scratch
  {
    if scratch != [] {
      forall k, x | k in m.tables && x in m.tables[k]
        ensures Uses(s', x) == Uses(m, x)
      {
        UnusedNotIn(m, scratch, k, x);
      }
      assert id in m.tables;
      assert scratch + [] == scratch;
    }
  }
}
