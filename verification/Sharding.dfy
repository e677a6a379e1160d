// Which DRAM rows a sweep touches, and why proportional KV-head sharding leaves every
// channel's stream alone.
module Sharding {
  import opened Counting
  import opened Results
  import opened Bits
  import opened Geometry
  import opened AddrMap
  import opened Schemes
  import opened Commands
  import opened Sweep

  // ---- choosing a block is choosing a row --------------------------------

  /** A block of u bursts, with G blocks to a frame, lies in row block / G. */
  lemma BlockDeterminesRow(g: Geom, scheme: Scheme, block: nat, u: pos, G: pos, o: nat)
    requires g.Valid() && scheme != PimFriendly && G * u == g.FrameBursts()
    requires o < u && block * u + o < g.TotalBursts()
    ensures Parts(Fields(g, scheme), block * u + o).ro == block / G
  {
    var x := block * u + o;
    RowIsFrame(g, scheme, x);
    DivUnique(x, u, block, o);
    Commute(G, u);
    ModSplit(x, u, G);
  }

  /** Each frame holds every (channel, bank group, bank, column) exactly once. */
  lemma FrameHoldsEachPosition(g: Geom, scheme: Scheme, r: nat, c: Coords)
    requires g.Valid() && scheme != PimFriendly && InRange(g, c) && c.ro == r
    ensures exists x: nat :: InFrame(g, scheme, r, c, x)
    ensures forall x: nat, y: nat | InFrame(g, scheme, r, c, x) && InFrame(g, scheme, r, c, y) :: x == y
  {
    var x := Whole(Fields(g, scheme), c);
    Bijection(g, scheme);
    RowIsFrame(g, scheme, x);
    DivExactRem(x, g.FrameBursts());
    assert InFrame(g, scheme, r, c, x);
  }

  /** Address x lies in frame r and maps to c. */
  ghost predicate InFrame(g: Geom, scheme: Scheme, r: nat, c: Coords, x: nat) {
    && r * g.FrameBursts() <= x < r * g.FrameBursts() + g.FrameBursts()
    && x < g.TotalBursts()
    && Parts(Fields(g, scheme), x) == c
  }

  lemma DivExactRem(x: nat, d: nat)
    requires d > 0
    ensures x / d * d <= x < x / d * d + d
  {
  }

  ghost function RowsVisited(g: Geom, scheme: Scheme, xs: seq<nat>): set<nat> {
    set i | 0 <= i < |xs| :: Parts(Fields(g, scheme), xs[i]).ro
  }

  ghost function FramesOf(table: seq<nat>, G: pos): set<nat> {
    set i | 0 <= i < |table| :: table[i] / G
  }

  /** Unit i of the sweep lies in the frame of its block. */
  lemma UnitRow(g: Geom, scheme: Scheme, table: seq<nat>, u: pos, G: pos, i: nat)
    requires g.Valid() && scheme != PimFriendly && G * u == g.FrameBursts()
    requires Fits(table, u, g.TotalBursts()) && i < |table| * u
    ensures 0 <= i / u < |table|
    ensures Parts(Fields(g, scheme), Phys(table, u, i)).ro == table[i / u] / G
  {
    InTable(|table|, u, |table| * u, i);
    assert table[i / u] in table;
    BlockDeterminesRow(g, scheme, table[i / u], u, G, i % u);
  }

  /** A full sweep opens exactly the rows of the frames its blocks lie in. */
  lemma RowsAreFrames(g: Geom, scheme: Scheme, table: seq<nat>, u: pos, G: pos)
    requires g.Valid() && scheme != PimFriendly && G * u == g.FrameBursts()
    requires Fits(table, u, g.TotalBursts())
    ensures RowsVisited(g, scheme, Addresses(table, u, |table| * u)) == FramesOf(table, G)
  {
    var n := |table| * u;
    forall i | 0 <= i < n
      ensures Parts(Fields(g, scheme), Addresses(table, u, n)[i]).ro in FramesOf(table, G)
    {
      UnitRow(g, scheme, table, u, G, i);
    }
    forall k | 0 <= k < |table|
      ensures table[k] / G in RowsVisited(g, scheme, Addresses(table, u, n))
    {
      MulMono(k + 1, |table|, u);
      DivUnique(k * u, u, k, 0);
      UnitRow(g, scheme, table, u, G, k * u);
      assert Addresses(table, u, n)[k * u] == Phys(table, u, k * u);
    }
  }

  // ---- sharding ----------------------------------------------------------

  /** Bursts per token, checked to be whole by the simulator. */
  function BurstsPerToken(g: Geom, s: Shape): nat { s.KvBytes() / g.burstBytes }

  /** Each token is a whole, positive number of stripes. */
  predicate WholeStripes(g: Geom, s: Shape) {
    s.KvBytes() > 0 && s.KvBytes() % (Stripe(g) * g.burstBytes) == 0
  }

  lemma TokenStripes(g: Geom, s: Shape, t: nat)
    requires s.KvBytes() == t * (Stripe(g) * g.burstBytes)
    ensures BurstsPerToken(g, s) == t * Stripe(g) && s.KvBytes() % g.burstBytes == 0
  {
    MulRotate(t, g.burstBytes, Stripe(g));
    Commute(g.burstBytes, Stripe(g));
    DivUnique(s.KvBytes(), g.burstBytes, t * Stripe(g), 0);
  }

  lemma Cancel(x: nat, y: nat, n: pos)
    requires x * n == y * n
    ensures x == y
  {
    if x < y { MulMono(x + 1, y, n); }
    if y < x { MulMono(y + 1, x, n); }
  }

  /** Sharding divides channels, stripe and token bytes by n and nothing else. */
  lemma ShardSizes(g: Geom, s: Shape, n: pos, g': Geom, s': Shape)
    requires ShardKv(g, s, n) == Ok((g', s'))
    ensures g.channels == g'.channels * n && g' == g.(channels := g'.channels)
    ensures Stripe(g) == Stripe(g') * n
    ensures s.KvBytes() == s'.KvBytes() * n
  {
    if n == 1 {
    } else {
      DivExact(g.channels, n);
      DivExact(s.kvHeads, n);
      Assoc(LowCols(g), g'.channels, n);
      KvArith(s'.kvHeads, n, s.headDim, s.dtypeBytes);
    }
  }

  lemma DivExact(x: nat, n: pos)
    requires x % n == 0
    ensures x == x / n * n
  {
  }

  lemma KvArith(h: nat, n: nat, d: nat, b: nat)
    ensures 2 * (h * n) * d * b == 2 * h * d * b * n
  {
    Assoc(2, h, n);
    Swap(2 * h, n, d);
    Swap(2 * h * d, n, b);
  }

  lemma ShardTokens(g: Geom, s: Shape, n: pos, g': Geom, s': Shape, t: nat)
    requires ShardKv(g, s, n) == Ok((g', s')) && s.KvBytes() == t * (Stripe(g) * g.burstBytes)
    ensures s'.KvBytes() == t * (Stripe(g') * g'.burstBytes)
  {
    ShardSizes(g, s, n, g', s');
    var S', b := Stripe(g'), g.burstBytes;
    Swap(S', n, b);
    Assoc(t, S' * b, n);
    Cancel(s'.KvBytes(), t * (S' * b), n);
  }

  /** The stream channel c sees when the first len tokens of the table are swept. */
  function Measured(g: Geom, s: Shape, bt: pos, table: seq<nat>, len: nat, c: nat): seq<Burst>
    requires BurstsPerToken(g, s) > 0 && len <= |table| * bt
  {
    var bpt: pos := BurstsPerToken(g, s);
    SweepFits(len, |table|, bt, bpt);
    ChannelStream(g, HostCacheline, Addresses(table, bt * bpt, len * bpt), c)
  }

  lemma SweepFits(len: nat, blocks: nat, bt: pos, bpt: pos)
    requires len <= blocks * bt
    ensures bt * bpt > 0 && len * bpt <= blocks * (bt * bpt)
  {
    MulMono(1, bt, bpt);
    MulMono(len, blocks * bt, bpt);
    Assoc(blocks, bt, bpt);
  }

  /** A whole-stripe sweep, in stripes: independent of the channel and of the stripe width. */
  lemma MeasuredForm(g: Geom, s: Shape, bt: pos, table: seq<nat>, len: nat, t: pos, c: nat)
    requires g.Valid() && c < g.channels && s.KvBytes() == t * (Stripe(g) * g.burstBytes)
    requires len <= |table| * bt && Fits(table, bt * BurstsPerToken(g, s), g.TotalBursts())
    ensures BurstsPerToken(g, s) > 0 && bt * t > 0 && len * t <= |table| * (bt * t)
    ensures Measured(g, s, bt, table, len, c)
         == StripeStream(Addresses(table, bt * t, len * t), g.Banks(), HighCols(g), LowCols(g))
  {
    TokenStripes(g, s, t);
    MulMono(1, t, Stripe(g));
    SweepFits(len, |table|, bt, t);
    SweepFits(len, |table|, bt, BurstsPerToken(g, s));
    Assoc(bt, t, Stripe(g));
    Assoc(len, t, Stripe(g));
    ChannelIsStripes(g, table, bt * t, len * t, bt * BurstsPerToken(g, s), len * BurstsPerToken(g, s), c);
  }

  /** Sharding leaves every channel's stream unchanged, for any block table. */
  lemma ShardingInvariant(g: Geom, s: Shape, n: pos, g': Geom, s': Shape,
                          bt: pos, table: seq<nat>, len: nat, c: nat, c': nat)
    requires g.Valid() && ShardKv(g, s, n) == Ok((g', s')) && WholeStripes(g, s)
    requires c < g.channels && c' < g'.channels && len <= |table| * bt
    requires Fits(table, bt * BurstsPerToken(g, s), g.TotalBursts())
    ensures BurstsPerToken(g, s) > 0 && BurstsPerToken(g', s') > 0
    ensures Measured(g, s, bt, table, len, c) == Measured(g', s', bt, table, len, c')
  {
    hide Fits, Measured, Geom.TotalBursts;
    var t := s.KvBytes() / (Stripe(g) * g.burstBytes);
    DivExact(s.KvBytes(), Stripe(g) * g.burstBytes);
    ShardSizes(g, s, n, g', s');
    ShardTokens(g, s, n, g', s', t);
    TokenStripes(g, s, t);
    TokenStripes(g', s', t);
    Assoc(t, Stripe(g'), n);
    Assoc(bt, t * Stripe(g'), n);
    ShardBursts(g, g', n);
    ShardFits(table, bt * BurstsPerToken(g, s), bt * BurstsPerToken(g', s'), n, g.TotalBursts(), g'.TotalBursts());
    MeasuredForm(g, s, bt, table, len, t, c);
    MeasuredForm(g', s', bt, table, len, t, c');
  }

  lemma ShardBursts(g: Geom, g': Geom, n: pos)
    requires g.Valid() && g'.Valid() && g' == g.(channels := g'.channels) && g.channels == g'.channels * n
    ensures g.TotalBursts() == g'.TotalBursts() * n
  {
    TotalBurstsMeaning(g);
    TotalBurstsMeaning(g');
    Swap(g'.channels, n, g.Banks());
    Swap(g'.channels * g.Banks(), n, g.Cols());
    Swap(g'.FrameBursts(), n, g.rowsPerBank);
  }

  /** A pool that fits the whole device fits a shard of it. */
  lemma ShardFits(table: seq<nat>, u: nat, u': nat, n: pos, total: nat, total': nat)
    requires Fits(table, u, total) && u == u' * n && total == total' * n
    ensures Fits(table, u', total')
  {
    forall b | b in table
      ensures b * u' + u' <= total'
    {
      Assoc(b, u', n);
      MulDistributes(b * u', u', n);
      if b * u' + u' > total' { MulMono(total' + 1, b * u' + u', n); }
    }
  }

  lemma ScaledMod(a: nat, b: pos, n: pos)
    ensures b * n > 0 && (a * n) % (b * n) == a % b * n && (a * n) / (b * n) == a / b
  {
    DivNat(a, b);
    MulMono(1, b, n);
    MulDistributes(a / b * b, a % b, n);
    MulMono(a % b + 1, b, n);
    Assoc(a / b, b, n);
    DivUnique(a * n, b * n, a / b, a % b * n);
  }

  lemma ScaledBlocks(f: pos, b: pos, n: pos)
    ensures f * n > 0 && b * n > 0 && BlocksPer(f * n, b * n) == BlocksPer(f, b)
  {
    ScaledMod(b, f, n);
    ScaledMod(f, b, n);
    if b < f { MulMono(b + 1, f, n); } else { MulMono(f, b, n); }
    ZeroProduct(b % f, n);
    ZeroProduct(f % b, n);
  }

  lemma ZeroProduct(x: nat, n: pos)
    ensures x * n == 0 <==> x == 0
  {
    if x > 0 { MulMono(1, x, n); }
  }

  /** Sharding leaves the number of blocks per frame unchanged. */
  lemma ShardFrameBlocks(g: Geom, s: Shape, n: pos, g': Geom, s': Shape, bt: pos)
    requires ShardKv(g, s, n) == Ok((g', s'))
    requires g.FrameBytes() > 0 && bt * s.KvBytes() > 0 && g'.FrameBytes() > 0 && bt * s'.KvBytes() > 0
    ensures FrameBlocksFor(g, s, bt) == FrameBlocksFor(g', s', bt)
  {
    ShardSizes(g, s, n, g', s');
    Assoc(g.RowgroupBytes(), g'.channels, n);
    Assoc(bt, s'.KvBytes(), n);
    ScaledBlocks(g'.FrameBytes(), bt * s'.KvBytes(), n);
  }

  // ---- the derived block size --------------------------------------------

  /** derive_block_tokens. */
  function DeriveBlockTokens(g: Geom, s: Shape, groups: nat, spread: bool): nat
    requires s.KvBytes() > 0
  {
    var bytes := groups * g.RowgroupBytes();
    Max(1, Ceil(if spread then bytes * g.channels else bytes, s.KvBytes()))
  }

  /** The derived block is the fewest tokens, at least one, that cover the row-groups asked for,
      one in every channel when the space is interleaved. */
  lemma DerivedIsLeast(g: Geom, s: Shape, groups: nat, spread: bool)
    requires s.KvBytes() > 0
    ensures var bt := DeriveBlockTokens(g, s, groups, spread);
      var bytes := groups * g.RowgroupBytes() * if spread then g.channels else 1;
      bt >= 1 && bt * s.KvBytes() >= bytes && (bt > 1 ==> (bt - 1) * s.KvBytes() < bytes)
  {
    var bytes, kv := groups * g.RowgroupBytes() * if spread then g.channels else 1, s.KvBytes();
    var c := Ceil(bytes, kv);
    LeastCover(bytes, kv, c, c * kv);
    MulDistributes(c, -1, kv);
    if c == 0 { MulMono(0, 1, kv); }
  }

  lemma LeastCover(a: nat, b: pos, c: nat, p: nat)
    requires c == Ceil(a, b) && p == c * b
    ensures a <= p < a + b
  {
  }

  /** When a token's bytes divide the frame, the derived block is exactly one frame, so the
      frame holds one block. */
  lemma DerivedBlockIsFrame(g: Geom, s: Shape)
    requires s.KvBytes() > 0 && g.FrameBytes() > 0 && g.FrameBytes() % s.KvBytes() == 0
    ensures var bt := DeriveBlockTokens(g, s, 1, true);
      bt * s.KvBytes() == g.FrameBytes() && FrameBlocksFor(g, s, bt) == Ok(1)
  {
    var f, b := g.FrameBytes(), s.KvBytes();
    DivNat(f, b);
    var q := f / b;
    DivExact(f, b);
    CeilUnique(f, b, q);
    if q == 0 { ZeroProduct(q, b); }
    DivUnique(f, f, 1, 0);
  }

  lemma CeilScaled(a: nat, b: pos, n: pos)
    ensures b * n > 0 && Ceil(a * n, b * n) == Ceil(a, b)
  {
    var c := Ceil(a, b);
    MulMono(1, b, n);
    DivUnique(a + b - 1, b, c, a + b - 1 - c * b);
    MulMono(a, c * b, n);
    MulMono(c * b + 1, a + b, n);
    MulDistributes(c * b, 1, n);
    MulDistributes(a, b, n);
    Assoc(c, b, n);
    CeilUnique(a * n, b * n, c);
  }

  /** Sharding leaves the derived block size unchanged. */
  lemma ShardBlockTokens(g: Geom, s: Shape, n: pos, g': Geom, s': Shape, groups: nat)
    requires ShardKv(g, s, n) == Ok((g', s')) && s.KvBytes() > 0 && s'.KvBytes() > 0
    ensures DeriveBlockTokens(g, s, groups, true) == DeriveBlockTokens(g', s', groups, true)
  {
    ShardSizes(g, s, n, g', s');
    var a := groups * g.RowgroupBytes();
    Assoc(a, g'.channels, n);
    CeilScaled(a * g'.channels, s'.KvBytes(), n);
  }
}
