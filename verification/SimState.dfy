// The scheduler's state and its invariants: who is running, how big their tables are, and
// the room the admission gate has promised them.
module SimState {
  import opened Counting
  import opened Results
  import opened AllocatorView

  datatype Request = Request(rid: int, arrival: nat, promptLen: nat, outputLen: nat,
                             prefix: Option<nat>, prefixLen: nat)

  datatype SpecParams = SpecParams(width: pos, depth: nat, copyback: bool)

  datatype SeqState = SeqState(rid: int, length: nat, totalLen: nat, totalBlocks: nat, scratch: seq<nat>,
                               prefix: Option<nat>, prefixLen: nat, preempts: nat)

  /** A run's parameters; prefixLens is the one length all requests of a prefix agree on. */
  datatype Config = Config(bt: pos, maxBatch: pos, oracle: bool, watermark: nat, spec: Option<SpecParams>,
                           spanned: bool, compacts: bool, prefixLens: map<nat, nat>)

  /** Worst-case tail blocks of a branch. */
  function ScratchBlocks(p: SpecParams, bt: pos): nat {
    Ceil(bt - 1 + p.depth + 1, bt)
  }

  /** The contiguous policy's reserved scratch per sequence. */
  function ScratchPerSeq(cfg: Config): nat {
    if cfg.spec.Some? && cfg.spanned then ScratchBlocks(cfg.spec.value, cfg.bt) * cfg.spec.value.width else 0
  }

  function TotalWithScratch(cfg: Config, st: SeqState): nat {
    Ceil(st.totalLen, cfg.bt) + ScratchPerSeq(cfg)
  }

  /** Full prefix blocks st shares, 0 when it does not share. */
  function SharedCount(cfg: Config, st: SeqState): nat {
    if st.prefix.Some? && !cfg.spanned && st.prefixLen >= cfg.bt then Floor(st.prefixLen, cfg.bt) else 0
  }

  /** Table blocks that only st refers to. */
  function OwnBlocks(cfg: Config, st: SeqState): int {
    Ceil(st.length, cfg.bt) - SharedCount(cfg, st)
  }

  function Floor(a: nat, b: pos): nat {
    DivNat(a, b);
    a / b
  }

  /** The allocator id pinned for prefix p. */
  function CacheId(p: nat): int { -1000 - p }

  type Cache = map<nat, seq<nat>>

  ghost predicate IsCacheId(cache: Cache, k: int) {
    k <= -1000 && -1000 - k in cache
  }

  ghost predicate HasRid(active: seq<SeqState>, k: int) {
    exists i | 0 <= i < |active| :: active[i].rid == k
  }

  ghost predicate RidsDistinct(active: seq<SeqState>) {
    forall i, j | 0 <= i < j < |active| :: active[i].rid != active[j].rid
  }

  // ---- one sequence ------------------------------------------------------

  /** What is fixed about a sequence, running or waiting. */
  ghost predicate Known(cfg: Config, st: SeqState) {
    && st.rid >= 0 && st.length <= st.totalLen && st.totalLen > 0
    && (st.prefix.Some? ==>
          && !cfg.compacts && st.prefix.value in cfg.prefixLens
          && cfg.prefixLens[st.prefix.value] == st.prefixLen <= st.length)
  }

  /** Blocks from index k on have no other reference. */
  ghost predicate PrivateFrom(s: Store, t: seq<nat>, k: nat) {
    forall i | k <= i < |t| :: Uses(s, t[i]) == 1
  }

  /** A running sequence's table covers its length, prefix blocks first, the rest private. */
  ghost predicate Covered(cfg: Config, cache: Cache, s: Store, st: SeqState) {
    && st.rid in s.tables && |s.tables[st.rid]| == Ceil(st.length, cfg.bt)
    && var t, k := s.tables[st.rid], SharedCount(cfg, st);
       && k <= |t| && PrivateFrom(s, t, k)
       && (k > 0 ==> st.prefix.value in cache && t[..k] == cache[st.prefix.value])
  }

  /** Under the contiguous policy the reservation is what remains of the promise. */
  ghost predicate Reserved(cfg: Config, s: Store, st: SeqState) {
    if cfg.spanned
    then st.rid in s.tables && st.rid in s.slack && st.rid in s.scratch && s.scratch[st.rid] == st.scratch
         && s.slack[st.rid] + |s.tables[st.rid]| + |st.scratch| == st.totalBlocks
    else st.scratch == []
  }

  /** Under oracle admission the promise is the final footprint. */
  ghost predicate Promised(cfg: Config, st: SeqState) {
    cfg.oracle ==> st.totalBlocks == TotalWithScratch(cfg, st) && |st.scratch| == ScratchPerSeq(cfg)
  }

  ghost predicate SeqOk(cfg: Config, cache: Cache, s: Store, st: SeqState) {
    Known(cfg, st) && Covered(cfg, cache, s, st) && Reserved(cfg, s, st) && Promised(cfg, st)
  }

  // ---- all of them -------------------------------------------------------

  ghost predicate CacheOk(cfg: Config, cache: Cache, s: Store) {
    && (cfg.spanned || cfg.compacts ==> cache == map[])
    && forall p | p in cache ::
         && p in cfg.prefixLens && |cache[p]| == Floor(cfg.prefixLens[p], cfg.bt)
         && CacheId(p) in s.tables && s.tables[CacheId(p)] == cache[p]
  }

  /** Tables belong to running sequences and pinned prefixes, and to no one else. */
  ghost predicate Owned(active: seq<SeqState>, cache: Cache, tables: Tables) {
    forall k :: k in tables <==> HasRid(active, k) || IsCacheId(cache, k)
  }

  ghost predicate Good(cfg: Config, active: seq<SeqState>, cache: Cache, s: Store) {
    && s.spanned == cfg.spanned && AllDistinct(s.tables)
    && RidsDistinct(active) && Owned(active, cache, s.tables) && CacheOk(cfg, cache, s)
    && forall i | 0 <= i < |active| :: SeqOk(cfg, cache, s, active[i])
  }

  /** Growth still owed to one sequence. */
  ghost function Owed(st: SeqState, tables: Tables): int {
    st.totalBlocks - (if st.rid in tables then |tables[st.rid]| else 0) - |st.scratch|
  }

  ghost function Committed(active: seq<SeqState>, tables: Tables): int {
    if active == [] then 0
    else Committed(active[..|active| - 1], tables) + Owed(active[|active| - 1], tables)
  }

  /** num_free - committed(). */
  ghost function Spare(active: seq<SeqState>, s: Store): int {
    FreeCount(s) - Committed(active, s.tables)
  }

  /** Under oracle admission over a shared pool free blocks cover everything owed. */
  ghost predicate Room(cfg: Config, active: seq<SeqState>, s: Store) {
    cfg.oracle && !cfg.spanned ==> Spare(active, s) >= 0
  }

  // ---- block arithmetic --------------------------------------------------

  lemma CeilMeaning(a: nat, b: pos, p: int)
    requires p == Ceil(a, b) * b
    ensures a <= p < a + b
  {
  }

  lemma CeilMono(a: nat, a': nat, b: pos)
    requires a <= a'
    ensures Ceil(a, b) <= Ceil(a', b)
  {
    DivMonotone(a + b - 1, a' + b - 1, b);
  }

  /** One more token needs a block exactly at a block boundary. */
  lemma CeilStep(a: nat, b: pos)
    ensures Ceil(a + 1, b) == Ceil(a, b) + Bit(a + 1 > Ceil(a, b) * b)
  {
    var c := Ceil(a, b);
    CeilMeaning(a, b, c * b);
    MulDistributes(c, 1, b);
    CeilUnique(a + 1, b, c + Bit(a + 1 > c * b));
  }

  /** The promise: the fewest blocks that hold the final length, and the reserved scratch. */
  lemma FootprintLeast(cfg: Config, st: SeqState)
    ensures var n := TotalWithScratch(cfg, st) - ScratchPerSeq(cfg);
      st.totalLen <= n * cfg.bt < st.totalLen + cfg.bt
  {
    var n := Ceil(st.totalLen, cfg.bt);
    CeilMeaning(st.totalLen, cfg.bt, n * cfg.bt);
  }

  /** A sequence shares the full blocks of its prefix, all of them. */
  lemma SharedFull(cfg: Config, st: SeqState)
    ensures var k := SharedCount(cfg, st);
      if st.prefix.Some? && !cfg.spanned then k * cfg.bt <= st.prefixLen < k * cfg.bt + cfg.bt else k == 0
  {
    if st.prefixLen < cfg.bt { DivUnique(st.prefixLen, cfg.bt, 0, st.prefixLen); }
  }

  /** Whole blocks come out of the rounding. */
  lemma CeilWhole(q: nat, r: nat, b: pos, a: nat)
    requires a == q * b + r
    ensures Ceil(a, b) == q + Ceil(r, b)
  {
    var c := Ceil(r, b);
    CeilMeaning(r, b, c * b);
    MulDistributes(q, c, b);
    CeilUnique(a, b, q + c);
  }

  lemma FloorBelow(p: nat, a: nat, b: pos)
    requires p <= a
    ensures Floor(p, b) <= Floor(a, b) <= Ceil(a, b)
  {
    DivMonotone(p, a, b);
    DivMonotone(a, a + b - 1, b);
  }

  /** A length as full blocks and a partial one. */
  lemma Split(a: nat, b: pos)
    ensures a == Floor(a, b) * b + a % b && 0 <= a % b < b
    ensures Ceil(a, b) == Floor(a, b) + Bit(a % b != 0)
  {
    var q, r := Floor(a, b), a % b;
    assert a == q * b + r;
    CeilWhole(q, r, b, a);
    if r == 0 { CeilUnique(0, b, 0); } else { CeilUnique(r, b, 1); }
  }

  // ---- sums of owed growth -----------------------------------------------

  /** Tables of the listed sequences have the same sizes. */
  ghost predicate SameSizes(active: seq<SeqState>, tables: Tables, tables': Tables) {
    forall i | 0 <= i < |active| :: Owed(active[i], tables') == Owed(active[i], tables)
  }

  lemma {:induction false} CommittedSame(active: seq<SeqState>, tables: Tables, tables': Tables)
    requires SameSizes(active, tables, tables')
    ensures Committed(active, tables') == Committed(active, tables)
  {
    if active != [] {
      CommittedSame(active[..|active| - 1], tables, tables');
    }
  }

  lemma {:induction false} CommittedConcat(a: seq<SeqState>, b: seq<SeqState>, tables: Tables)
    ensures Committed(a + b, tables) == Committed(a, tables) + Committed(b, tables)
  {
    if b == [] {
      assert a + b == a;
    } else {
      CommittedConcat(a, b[..|b| - 1], tables);
      assert (a + b)[..|a + b| - 1] == a + b[..|b| - 1];
    }
  }

  lemma CommittedOne(st: SeqState, tables: Tables)
    ensures Committed([st], tables) == Owed(st, tables)
  {
    assert [st][..0] == [];
  }

  lemma CommittedPick(active: seq<SeqState>, j: nat, tables: Tables)
    requires j < |active|
    ensures Committed(active, tables) == Committed(active[..j] + active[j + 1..], tables) + Owed(active[j], tables)
  {
    var a, x, b := active[..j], [active[j]], active[j + 1..];
    assert active == a + x + b;
    CommittedConcat(a + x, b, tables);
    CommittedConcat(a, x, tables);
    CommittedConcat(a, b, tables);
    CommittedOne(active[j], tables);
  }

  /** Sequence j and its table change, the other tables keep their sizes. */
  lemma CommittedUpdate(active: seq<SeqState>, j: nat, st: SeqState, tables: Tables, tables': Tables)
    requires j < |active|
    requires SameSizes(active[..j] + active[j + 1..], tables, tables')
    ensures Committed(active[j := st], tables')
         == Committed(active, tables) - Owed(active[j], tables) + Owed(st, tables')
  {
    var rest := active[..j] + active[j + 1..];
    CommittedPick(active, j, tables);
    CommittedPick(active[j := st], j, tables');
    assert active[j := st][..j] + active[j := st][j + 1..] == rest;
    CommittedSame(rest, tables, tables');
  }

  lemma {:induction false} CommittedNat(cfg: Config, active: seq<SeqState>, cache: Cache, s: Store)
    requires cfg.oracle && forall i | 0 <= i < |active| :: SeqOk(cfg, cache, s, active[i])
    ensures Committed(active, s.tables) >= 0
  {
    if active != [] {
      var n := |active| - 1;
      CommittedNat(cfg, active[..n], cache, s);
      OwedNat(cfg, cache, s, active[n]);
    }
  }

  lemma OwedNat(cfg: Config, cache: Cache, s: Store, st: SeqState)
    requires cfg.oracle && SeqOk(cfg, cache, s, st)
    ensures Owed(st, s.tables) >= 0
  {
    CeilMono(st.length, st.totalLen, cfg.bt);
  }
}
