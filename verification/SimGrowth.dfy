// The scheduler's invariants across decoding, speculation and departure.
module SimGrowth {
  import opened Counting
  import opened AllocatorView
  import opened SimState
  import opened SimSteps

  /** Sequence j with another length. */
  function Longer(active: seq<SeqState>, j: nat, len: nat): seq<SeqState>
    requires j < |active|
  {
    active[j := active[j].(length := len)]
  }

  lemma SeqHasTable(cfg: Config, cache: Cache, s: Store, st: SeqState)
    requires SeqOk(cfg, cache, s, st)
    ensures st.rid in s.tables && |s.tables[st.rid]| == Ceil(st.length, cfg.bt) && Known(cfg, st)
    ensures SharedCount(cfg, st) <= |s.tables[st.rid]| && PrivateFrom(s, s.tables[st.rid], SharedCount(cfg, st))
  {
  }

  /** A longer table in place of the old one keeps the sequence in order. */
  lemma GrownSeq(cfg: Config, cache: Cache, s: Store, s': Store, st: SeqState, len: nat)
    requires SeqOk(cfg, cache, s, st) && st.length <= len <= st.totalLen
    requires st.rid in s'.tables && |s'.tables[st.rid]| == Ceil(len, cfg.bt)
    requires SharedCount(cfg, st) <= |s'.tables[st.rid]|
    requires s'.tables[st.rid][..SharedCount(cfg, st)] == s.tables[st.rid][..SharedCount(cfg, st)]
    requires PrivateFrom(s', s'.tables[st.rid], SharedCount(cfg, st))
    requires cfg.spanned ==> st.rid in s'.slack && s'.scratch == s.scratch
    requires cfg.spanned ==> s'.slack[st.rid] + |s'.tables[st.rid]| == s.slack[st.rid] + |s.tables[st.rid]|
    ensures SeqOk(cfg, cache, s', st.(length := len))
  {
  }

  /** One block appended, the length moving up to what the table now covers. */
  lemma AppendGood(cfg: Config, active: seq<SeqState>, j: nat, cache: Cache, s: Store, s': Store, b: nat, len: nat)
    requires Good(cfg, active, cache, s) && j < |active| && Appends(s, s', active[j].rid, b)
    requires active[j].length <= len <= active[j].totalLen
    requires |s.tables[active[j].rid]| + 1 == Ceil(len, cfg.bt)
    ensures Good(cfg, Longer(active, j, len), cache, s') && Spare(Longer(active, j, len), s') == Spare(active, s)
  {
    hide Good, Uses, Unused, FreeCount, SeqOk, KeptAt;
    GoodParts(cfg, active, cache, s);
    var st := active[j];
    SeqHasTable(cfg, cache, s, st);
    AppendKept(s, s', st.rid, b);
    AppendFree(s, s', st.rid, b);
    GrownSeq(cfg, cache, s, s', st, len);
    GoodReplace(cfg, active, j, cache, s, s', st.(length := len));
  }

  /** A token that needs no block. */
  lemma LengthGood(cfg: Config, active: seq<SeqState>, j: nat, cache: Cache, s: Store, len: nat)
    requires Good(cfg, active, cache, s) && j < |active| && active[j].length <= len <= active[j].totalLen
    requires Ceil(len, cfg.bt) == Ceil(active[j].length, cfg.bt)
    ensures Good(cfg, Longer(active, j, len), cache, s) && Spare(Longer(active, j, len), s) == Spare(active, s)
  {
    hide Good, Uses, FreeCount, SeqOk;
    GoodParts(cfg, active, cache, s);
    var st := active[j];
    SeqHasTable(cfg, cache, s, st);
    SpanHas(cfg, cache, s, st);
    GrownSeq(cfg, cache, s, s, st, len);
    GoodReplace(cfg, active, j, cache, s, s, st.(length := len));
  }

  lemma SpanHas(cfg: Config, cache: Cache, s: Store, st: SeqState)
    requires SeqOk(cfg, cache, s, st)
    ensures cfg.spanned ==> st.rid in s.slack
    ensures cfg.spanned ==> s.slack[st.rid] + |s.tables[st.rid]| + |st.scratch| == st.totalBlocks
    ensures cfg.spanned ==> s.scratch[st.rid] == st.scratch
  {
  }

  // ---- splice ------------------------------------------------------------

  /** A partial last block lies beyond the shared prefix, so it is private. */
  lemma TailPrivate(cfg: Config, cache: Cache, s: Store, st: SeqState)
    requires SeqOk(cfg, cache, s, st) && st.length % cfg.bt != 0
    ensures var t := s.tables[st.rid]; t != [] && SharedCount(cfg, st) <= |t| - 1 && Uses(s, t[|t| - 1]) == 1
  {
    hide Uses;
    SimState.Split(st.length, cfg.bt);
    FloorBelow(st.prefixLen, Max(st.prefixLen, st.length), cfg.bt);
  }

  /** Splicing in the winning branch moves the sequence on by adv tokens. */
  lemma SpliceGood(cfg: Config, active: seq<SeqState>, j: nat, cache: Cache, s: Store, s': Store, adv: nat,
                   kept: seq<nat>)
    requires Good(cfg, active, cache, s) && j < |active| && !cfg.spanned
    requires var st := active[j];
      && st.length + adv <= st.totalLen
      && |kept| == Ceil(st.length % cfg.bt + adv, cfg.bt)
      && Splices(s, s', st.rid, st.length % cfg.bt != 0, kept)
    ensures var len := active[j].length + adv;
      Good(cfg, Longer(active, j, len), cache, s') && Spare(Longer(active, j, len), s') == Spare(active, s)
      && FreeCount(s') == FreeCount(s) - (Ceil(len, cfg.bt) - Ceil(active[j].length, cfg.bt))
  {
    hide Good, Uses, Unused, FreeCount, SeqOk, KeptAt;
    GoodParts(cfg, active, cache, s);
    var st := active[j];
    var drop := st.length % cfg.bt != 0;
    SeqHasTable(cfg, cache, s, st);
    if drop { TailPrivate(cfg, cache, s, st); }
    SpliceKept(s, s', st.rid, drop, kept);
    SpliceFree(s, s', st.rid, drop, kept);
    SpliceSize(cfg, st, adv, |s.tables[st.rid]|, |kept|);
    GrownSeq(cfg, cache, s, s', st, st.length + adv);
    GoodReplace(cfg, active, j, cache, s, s', st.(length := st.length + adv));
  }

  lemma SpliceSize(cfg: Config, st: SeqState, adv: nat, size: nat, kept: nat)
    requires size == Ceil(st.length, cfg.bt) && kept == Ceil(st.length % cfg.bt + adv, cfg.bt)
    ensures size - Bit(st.length % cfg.bt != 0) + kept == Ceil(st.length + adv, cfg.bt)
  {
    var q, r := Floor(st.length, cfg.bt), st.length % cfg.bt;
    SimState.Split(st.length, cfg.bt);
    CeilWhole(q, r + adv, cfg.bt, st.length + adv);
  }

  /** Blocks handed out as branches leave that many fewer free. */
  lemma HoldFree(s: Store, s': Store, bs: seq<nat>)
    requires Holds(s, s', bs)
    ensures FreeCount(s') == FreeCount(s) - |bs|
  {
    forall x: nat
      ensures Uses(s', x) > 0 <==> Uses(s, x) > 0 || x in bs
    {
      assert x in multiset(bs) <==> x in bs;
    }
    LiveGrows(s, s', bs);
  }

  /** Blocks of a new branch were unused before the round began. */
  lemma UnusedEarlier(s: Store, m: Store, held: multiset<nat>, bs: seq<nat>)
    requires m == s.(held := s.held + held) && Unused(m, bs)
    ensures Unused(s, bs)
  {
    forall x | x in bs
      ensures Uses(s, x) == 0
    {
      assert Uses(m, x) == 0;
    }
  }

  /** Branch blocks allocated, one branch adopted, the rest freed: a splice. */
  lemma RoundSplices(s: Store, m: Store, s': Store, id: int, drop: bool, branch: seq<nat>, keep: nat,
                     all: multiset<nat>)
    requires m == s.(held := s.held + all) && keep <= |branch| && Unused(s, branch) && id in s.tables
    requires Adopts(m, s', id, drop, branch[..keep], all)
    requires drop ==> s.tables[id] != [] && Uses(s, s.tables[id][|s.tables[id]| - 1]) == 1
    ensures Splices(s, s', id, drop, branch[..keep])
  {
    hide Uses;
    assert s.held + all - all == s.held;
    forall x | x in branch[..keep]
      ensures Uses(s, x) == 0
    {
      assert x in branch;
    }
  }

  // ---- held blocks -------------------------------------------------------

  /** Allocating or freeing blocks outside the tables disturbs no sequence. */
  lemma HeldGood(cfg: Config, active: seq<SeqState>, cache: Cache, s: Store, s': Store, bs: seq<nat>)
    requires Good(cfg, active, cache, s) && (Holds(s, s', bs) || Drops(s, s', bs))
    ensures Good(cfg, active, cache, s')
  {
    hide SeqOk;
    forall k | k in s.tables
      ensures KeptAt(s, s', k)
    {
      forall x | x in s.tables[k] && Uses(s, x) == 1
        ensures Uses(s', x) == 1
      {
        if Holds(s, s', bs) { HoldsKept(s, s', bs, k, x); } else { HeldKept(s, s', k, x); }
      }
    }
    forall i | 0 <= i < |active|
      ensures SeqOk(cfg, cache, s', active[i])
    {
      SeqHasTable(cfg, cache, s, active[i]);
      SeqKept(cfg, cache, s, s', active[i]);
    }
  }

  // ---- departure ---------------------------------------------------------

  function Rest(active: seq<SeqState>, j: nat): seq<SeqState>
    requires j < |active|
  {
    active[..j] + active[j + 1..]
  }

  lemma OwnedLeave(active: seq<SeqState>, j: nat, cache: Cache, tables: Tables)
    requires Owned(active, cache, tables) && j < |active| && RidsDistinct(active) && active[j].rid >= 0
    ensures Owned(Rest(active, j), cache, tables - {active[j].rid}) && RidsDistinct(Rest(active, j))
  {
    var rest, id := Rest(active, j), active[j].rid;
    forall k
      ensures HasRid(rest, k) <==> HasRid(active, k) && k != id
    {
      if i :| 0 <= i < |active| && active[i].rid == k && k != id {
        assert rest[if i < j then i else i - 1] == active[i];
      }
      if i :| 0 <= i < |rest| && rest[i].rid == k {
        assert active[if i < j then i else i + 1] == rest[i];
      }
    }
    assert forall k :: k in tables - {id} <==> k in tables && k != id;
  }

  lemma WithoutGood(cfg: Config, active: seq<SeqState>, j: nat, cache: Cache, s: Store)
    requires Good(cfg, active, cache, s) && j < |active|
    ensures Good(cfg, Rest(active, j), cache, Without(s, active[j].rid))
    ensures Spare(Rest(active, j), Without(s, active[j].rid)) >= Spare(active, s) + Owed(active[j], s.tables)
  {
    hide SeqOk, KeptAt, FreeCount;
    var id := active[j].rid;
    var s' := Without(s, id);
    SeqHasTable(cfg, cache, s, active[j]);
    RidsNat(cfg, active, cache, s);
    WithoutKept(s, id);
    WithoutFree(s, id);
    AllSeqKept(cfg, Rest(active, j), cache, s, s');
    CommittedPick(active, j, s.tables);
    CommittedSame(Rest(active, j), s.tables, s'.tables);
    OwnedLeave(active, j, cache, s.tables);
    assert CacheOk(cfg, cache, s') by {
      CacheLeave(cfg, cache, s, s', id);
    }
  }

  lemma CacheLeave(cfg: Config, cache: Cache, s: Store, s': Store, id: int)
    requires CacheOk(cfg, cache, s) && CacheKept(cache, s, s')
    ensures CacheOk(cfg, cache, s')
  {
  }

  /** A renaming of blocks, when no prefix is pinned, disturbs nothing. */
  lemma ImageGood(cfg: Config, active: seq<SeqState>, cache: Cache, s: Store, s': Store, ren: map<nat, nat>)
    requires Good(cfg, active, cache, s) && Image(s, s', ren) && cfg.compacts && !cfg.spanned
    ensures Good(cfg, active, cache, s') && Spare(active, s') == Spare(active, s)
  {
    hide SeqOk, FreeCount, SameShape;
    forall k | k in s.tables
      ensures |s'.tables[k]| == |s.tables[k]| && Distinct(s'.tables[k])
    {
      ShapeDistinct(s.tables[k], s'.tables[k], ren);
    }
    forall i | 0 <= i < |active|
      ensures SeqOk(cfg, cache, s', active[i]) && Owed(active[i], s'.tables) == Owed(active[i], s.tables)
    {
      ImageSeq(cfg, cache, s, s', active[i], ren);
    }
    CommittedSame(active, s.tables, s'.tables);
  }

  lemma ShapeDistinct(t: seq<nat>, u: seq<nat>, ren: map<nat, nat>)
    requires SameShape(t, u, ren) && Distinct(t) && forall x, y | x in ren && y in ren && ren[x] == ren[y] :: x == y
    ensures |u| == |t| && Distinct(u)
  {
  }

  lemma ImageSeq(cfg: Config, cache: Cache, s: Store, s': Store, st: SeqState, ren: map<nat, nat>)
    requires SeqOk(cfg, cache, s, st) && Image(s, s', ren) && cfg.compacts && !cfg.spanned
    ensures SeqOk(cfg, cache, s', st) && Owed(st, s'.tables) == Owed(st, s.tables)
  {
    hide Uses, FreeCount;
    var t, u := s.tables[st.rid], s'.tables[st.rid];
    assert SameShape(t, u, ren);
    assert SharedCount(cfg, st) == 0;
    forall i | 0 <= i < |u|
      ensures Uses(s', u[i]) == 1
    {
      assert Uses(s, t[i]) == 1;
    }
  }

  /** The blocks a sequence shares stay in use through the pinned prefix. */
  lemma SharedStays(cfg: Config, cache: Cache, s: Store, st: SeqState, i: nat)
    requires SeqOk(cfg, cache, s, st) && CacheOk(cfg, cache, s) && i < SharedCount(cfg, st)
    ensures i < |s.tables[st.rid]| && Uses(Without(s, st.rid), s.tables[st.rid][i]) > 0
  {
    hide Uses;
    var c, t := CacheId(st.prefix.value), s.tables[st.rid];
    assert t[..SharedCount(cfg, st)][i] == t[i];
    assert s.tables[c] == cache[st.prefix.value] && c != st.rid;
    UsedOnce(Without(s, st.rid), c, t[i]);
  }

  /** A departure over a shared pool frees exactly the sequence's own blocks. */
  lemma LeaveFree(cfg: Config, cache: Cache, s: Store, st: SeqState)
    requires SeqOk(cfg, cache, s, st) && CacheOk(cfg, cache, s) && AllDistinct(s.tables) && st.rid !in s.scratch
    ensures FreeCount(Without(s, st.rid)) == FreeCount(s) + OwnBlocks(cfg, st)
  {
    hide Uses, FreeCount, CacheOk, SeqOk;
    SeqHasTable(cfg, cache, s, st);
    forall i | 0 <= i < SharedCount(cfg, st)
      ensures Uses(Without(s, st.rid), s.tables[st.rid][i]) > 0
    {
      SharedStays(cfg, cache, s, st, i);
    }
    WithoutFreeExact(s, st.rid, SharedCount(cfg, st));
  }

  /** A sequence leaves; the others keep their tables, or their images. */
  lemma RetireGood(cfg: Config, active: seq<SeqState>, j: nat, cache: Cache, s: Store, s': Store, ren: map<nat, nat>)
    requires Good(cfg, active, cache, s) && j < |active| && (cfg.compacts ==> !cfg.spanned)
    requires Retires(s, s', active[j].rid, ren, cfg.compacts)
    ensures Good(cfg, Rest(active, j), cache, s')
    ensures cfg.oracle ==> Spare(Rest(active, j), s') >= Spare(active, s)
    ensures active[j].rid !in s.scratch ==> FreeCount(s') == FreeCount(s) + OwnBlocks(cfg, active[j])
  {
    hide SeqOk, FreeCount, SameShape, CacheOk, AllDistinct;
    if active[j].rid !in s.scratch { LeaveFree(cfg, cache, s, active[j]); }
    WithoutGood(cfg, active, j, cache, s);
    if cfg.oracle { OwedNat(cfg, cache, s, active[j]); }
    if cfg.compacts {
      ImageGood(cfg, Rest(active, j), cache, Without(s, active[j].rid), s', ren);
    }
  }
}
