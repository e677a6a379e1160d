// From a block table to per-channel burst streams: the physical addresses a sequence's
// sweep visits, and what each channel sees of them under host-cacheline.
module Sweep {
  import opened Counting
  import opened Bits
  import opened Geometry
  import opened AddrMap
  import opened Schemes
  import opened Commands

  // ---- physical addresses ------------------------------------------------

  /** Unit i of a table whose blocks hold u units each. */
  function Phys(table: seq<nat>, u: nat, i: nat): nat
    requires u > 0 && i / u < |table|
  {
    table[i / u] * u + i % u
  }

  /** The first n units of a table, in logical order. */
  function Addresses(table: seq<nat>, u: nat, n: nat): seq<nat>
    requires u > 0 && n <= |table| * u
  {
    seq(n, i requires 0 <= i < n => (InTable(|table|, u, n, i); Phys(table, u, i)))
  }

  lemma InTable(len: nat, u: nat, n: nat, i: nat)
    requires u > 0 && i < n <= len * u
    ensures 0 <= i / u < len
  {
    QuotientBelow(i, u, len);
  }

  /** A unit address determines its block and its offset. */
  lemma UnitBlock(table: seq<nat>, u: nat, i: nat)
    requires u > 0 && i / u < |table|
    ensures Phys(table, u, i) / u == table[i / u] && Phys(table, u, i) % u == i % u
  {
    DivUnique(Phys(table, u, i), u, table[i / u], i % u);
  }

  lemma PhysDistinct(table: seq<nat>, u: nat, i: nat, j: nat)
    requires u > 0 && i < j && i / u < |table| && j / u < |table| && Distinct(table)
    ensures Phys(table, u, i) != Phys(table, u, j)
  {
    UnitBlock(table, u, i);
    UnitBlock(table, u, j);
    DivMonotone(i, j, u);
  }

  /** Units of distinct blocks are distinct, and stay inside a pool that holds the blocks. */
  lemma AddressesDistinct(table: seq<nat>, u: nat, n: nat, pool: nat)
    requires u > 0 && n <= |table| * u && Distinct(table)
    requires forall b | b in table :: b < pool
    ensures Distinct(Addresses(table, u, n))
    ensures forall i | 0 <= i < n :: Addresses(table, u, n)[i] < pool * u
  {
    forall i, j | 0 <= i < j < n
      ensures Addresses(table, u, n)[i] != Addresses(table, u, n)[j]
    {
      InTable(|table|, u, n, i);
      InTable(|table|, u, n, j);
      PhysDistinct(table, u, i, j);
    }
    forall i | 0 <= i < n
      ensures Addresses(table, u, n)[i] < pool * u
    {
      InTable(|table|, u, n, i);
      PhysBelow(table, u, i, pool);
    }
  }

  lemma PhysBelow(table: seq<nat>, u: nat, i: nat, pool: nat)
    requires u > 0 && i / u < |table| && forall b | b in table :: b < pool
    ensures Phys(table, u, i) < pool * u
  {
    DivNat(i, u);
    assert table[i / u] in table;
    MulMono(table[i / u] + 1, pool, u);
  }

  /** Tables of a-unit blocks of b-unit pieces: addressing piecewise or at once agrees. */
  lemma PhysNest(table: seq<nat>, a: nat, b: nat, q: nat, o: nat)
    requires a > 0 && b > 0 && o < b && q / a < |table|
    ensures a * b > 0 && (q * b + o) / (a * b) < |table|
    ensures Phys(table, a * b, q * b + o) == Phys(table, a, q) * b + o
  {
    var i := q * b + o;
    DivUnique(i, b, q, o);
    ModSplit(i, b, a);
  }

  // ---- channel streams ---------------------------------------------------

  function ChannelOf(g: Geom, scheme: Scheme, x: nat): nat {
    Parts(Fields(g, scheme), x).ch
  }

  function BurstAt(g: Geom, scheme: Scheme, x: nat): Burst {
    var c := Parts(Fields(g, scheme), x);
    Burst(FlatBank(g, c), c.ro, c.co)
  }

  /** The bursts of channel c, in order. */
  function ChannelStream(g: Geom, scheme: Scheme, xs: seq<nat>, c: nat): seq<Burst> {
    if xs == [] then [] else
    var x := xs[|xs| - 1];
    ChannelStream(g, scheme, xs[..|xs| - 1], c) + if ChannelOf(g, scheme, x) == c then [BurstAt(g, scheme, x)] else []
  }

  lemma {:induction false} ChannelStreamConcat(g: Geom, scheme: Scheme, xs: seq<nat>, ys: seq<nat>, c: nat)
    ensures ChannelStream(g, scheme, xs + ys, c) == ChannelStream(g, scheme, xs, c) + ChannelStream(g, scheme, ys, c)
  {
    if ys == [] {
      assert xs + ys == xs;
    } else {
      ChannelStreamConcat(g, scheme, xs, ys[..|ys| - 1], c);
      assert (xs + ys)[..|xs + ys| - 1] == xs + ys[..|ys| - 1];
    }
  }

  /** What one cacheline stripe gives every channel: L bursts of one bank and row. */
  function StripeBurst(y: nat, banks: pos, high: pos, L: nat, e: nat): Burst {
    DivNat(y, banks);
    DivNat(y / banks, high);
    Burst(y % banks, y / banks / high, e + y / banks % high * L)
  }

  function StripeBursts(y: nat, banks: pos, high: pos, L: nat): seq<Burst> {
    seq(L, e requires 0 <= e < L => StripeBurst(y, banks, high, L, e))
  }

  function StripeStream(ys: seq<nat>, banks: pos, high: pos, L: nat): seq<Burst> {
    if ys == [] then [] else
    StripeStream(ys[..|ys| - 1], banks, high, L) + StripeBursts(ys[|ys| - 1], banks, high, L)
  }

  /** n consecutive addresses from x. */
  function Run(x: nat, n: nat): seq<nat> {
    seq(n, o requires 0 <= o < n => x + o)
  }

  /** Stripe, channel and offset read back from an address. */
  lemma StripeCoords(x: nat, y: nat, c: nat, e: nat, L: nat, C: nat)
    requires c < C && e < L && x == y * (L * C) + (c * L + e)
    ensures L * C > 0 && x / (L * C) == y
    ensures x / L % C == c && x % L == e
  {
    MulMono(c + 1, C, L);
    MulMono(1, C, L);
    DivUnique(x, L * C, y, c * L + e);
    StripeSplit(y, C, L, c, e);
    DivUnique(x, L, y * C + c, e);
    DivUnique(y * C + c, C, y, c);
  }

  lemma StripeSplit(y: nat, C: nat, L: nat, c: nat, e: nat)
    ensures y * (L * C) + (c * L + e) == (y * C + c) * L + e
  {
    MulDistributes(y * C, c, L);
    MulRotate(y, C, L);
  }

  /** Channel and burst of address x of stripe y, the e-th of channel c in that stripe. */
  lemma StripeAddress(g: Geom, x: nat, y: nat, c: nat, e: nat)
    requires g.Valid() && c < g.channels && e < LowCols(g)
    requires x == y * Stripe(g) + (c * LowCols(g) + e) < g.TotalBursts()
    ensures ChannelOf(g, HostCacheline, x) == c
    ensures BurstAt(g, HostCacheline, x) == StripeBurst(y, g.Banks(), HighCols(g), LowCols(g), e)
  {
    CachelineForm(g, x);
    StripeCoords(x, y, c, e, LowCols(g), g.channels);
  }

  /** The geometry serves n bursts from stripe address x on. */
  ghost predicate Serves(g: Geom, x: nat, n: nat) {
    && g.Valid()
    && x + n <= g.TotalBursts()
  }

  function Lane(g: Geom, y: nat): seq<Burst> {
    StripeBursts(y, g.Banks(), HighCols(g), LowCols(g))
  }

  /** The n addresses that start channel d's part of stripe y all belong to channel d. */
  lemma {:induction false} RunStream(g: Geom, x: nat, y: nat, d: nat, n: nat, c: nat)
    requires Serves(g, x, n) && d < g.channels && n <= LowCols(g)
    requires x == y * Stripe(g) + d * LowCols(g)
    ensures ChannelStream(g, HostCacheline, Run(x, n), c) == if c == d then Lane(g, y)[..n] else []
  {
    if n > 0 {
      RunStream(g, x, y, d, n - 1, c);
      assert Run(x, n)[..n - 1] == Run(x, n - 1);
      StripeAddress(g, x + (n - 1), y, d, n - 1);
    }
  }

  lemma WholeLane(g: Geom, y: nat)
    ensures |Lane(g, y)| == LowCols(g) && Lane(g, y)[..LowCols(g)] == Lane(g, y)
  {
  }

  /** Adding channel d's part of stripe y to the m addresses before it. */
  lemma AddRun(g: Geom, x: nat, m: nat, y: nat, d: nat, c: nat)
    requires Serves(g, x, m + LowCols(g)) && d < g.channels
    requires x + m == y * Stripe(g) + d * LowCols(g)
    ensures ChannelStream(g, HostCacheline, Run(x, m + LowCols(g)), c)
         == ChannelStream(g, HostCacheline, Run(x, m), c) + if c == d then Lane(g, y) else []
  {
    hide ChannelStream, Lane, Geom.Valid;
    var L := LowCols(g);
    RunStream(g, x + m, y, d, L, c);
    ChannelStreamConcat(g, HostCacheline, Run(x, m), Run(x + m, L), c);
    assert Run(x, m + L) == Run(x, m) + Run(x + m, L);
    WholeLane(g, y);
  }

  /** The first k channels of stripe y. */
  lemma {:induction false} StripeRuns(g: Geom, x: nat, y: nat, k: nat, n: nat, c: nat)
    requires Serves(g, x, n) && k <= g.channels && n == k * LowCols(g) && x == y * Stripe(g)
    ensures ChannelStream(g, HostCacheline, Run(x, n), c) == if c < k then Lane(g, y) else []
  {
    hide ChannelStream, Run, Lane, Geom.Valid, LowCols, Stripe;
    if k == 0 {
      EmptyRun(g, x, n, c);
    } else {
      var m := (k - 1) * LowCols(g);
      OneLess(k, LowCols(g));
      StripeRuns(g, x, y, k - 1, m, c);
      AddRun(g, x, m, y, k - 1, c);
      LaneNext(ChannelStream(g, HostCacheline, Run(x, m), c), Lane(g, y), c, k);
    }
  }

  lemma EmptyRun(g: Geom, x: nat, n: nat, c: nat)
    requires n == 0
    ensures ChannelStream(g, HostCacheline, Run(x, n), c) == []
  {
  }

  lemma OneLess(k: pos, l: nat)
    ensures k * l == (k - 1) * l + l && (k - 1) * l >= 0
  {
    MulDistributes(k - 1, 1, l);
    MulMono(0, k - 1, l);
  }

  lemma LaneNext(s: seq<Burst>, lane: seq<Burst>, c: nat, k: pos)
    requires s == if c < k - 1 then lane else []
    ensures s + (if c == k - 1 then lane else []) == if c < k then lane else []
  {
  }

  /** One more stripe of a sweep is s consecutive addresses at its physical stripe. */
  lemma AddressesStep(table: seq<nat>, spb: nat, s: nat, q: nat, u: nat, m: nat)
    requires spb > 0 && s > 0 && u == spb * s > 0 && m == q * s
    requires 0 <= q / spb < |table| && m + s <= |table| * u
    ensures Addresses(table, u, m + s) == Addresses(table, u, m) + Run(Phys(table, spb, q) * s, s)
  {
    var xs, ys, zs := Addresses(table, u, m + s), Addresses(table, u, m), Run(Phys(table, spb, q) * s, s);
    forall i | 0 <= i < m + s
      ensures xs[i] == (ys + zs)[i]
    {
      if i >= m {
        PhysNest(table, spb, s, q, i - m);
      }
    }
  }

  /** The blocks of a sweep, of u bursts each, fit the geometry. */
  ghost predicate Fits(table: seq<nat>, u: nat, total: nat) {
    forall b | b in table :: b * u + u <= total
  }

  lemma StripeFits(table: seq<nat>, spb: nat, s: nat, q: nat, total: nat)
    requires spb > 0 && s > 0 && 0 <= q / spb < |table| && Fits(table, spb * s, total)
    ensures Phys(table, spb, q) * s + s <= total
  {
    var b := table[q / spb];
    assert b in table;
    MulMono(q % spb + 1, spb, s);
  }

  /** Adding the s addresses of one whole stripe to a sweep. */
  lemma AddStripe(g: Geom, xs: seq<nat>, y: nat, c: nat)
    requires c < g.channels && Serves(g, y * Stripe(g), Stripe(g))
    ensures ChannelStream(g, HostCacheline, xs + Run(y * Stripe(g), Stripe(g)), c)
         == ChannelStream(g, HostCacheline, xs, c) + Lane(g, y)
  {
    hide ChannelStream, Lane, Geom.Valid;
    var n := Stripe(g);
    ChannelStreamConcat(g, HostCacheline, xs, Run(y * n, n), c);
    WholeStripe(g, y, y * n, n, c);
  }

  /** The addresses of stripe y give every channel its lane. */
  lemma WholeStripe(g: Geom, y: nat, x: nat, n: nat, c: nat)
    requires c < g.channels && n == Stripe(g) && x == y * n && Serves(g, x, n)
    ensures ChannelStream(g, HostCacheline, Run(x, n), c) == Lane(g, y)
  {
    hide ChannelStream, Lane, Geom.Valid;
    MulCommutes(g.channels, LowCols(g));
    StripeRuns(g, x, y, g.channels, n, c);
  }

  lemma MulCommutes(p: nat, q: nat)
    ensures p * q == q * p
  {
  }

  lemma AddressesPrefix(table: seq<nat>, u: nat, n: nat)
    requires u > 0 && n + 1 <= |table| * u
    ensures 0 <= n / u < |table|
    ensures Addresses(table, u, n + 1) == Addresses(table, u, n) + [Phys(table, u, n)]
  {
    InTable(|table|, u, n + 1, n);
  }

  lemma StripeStreamAppend(ys: seq<nat>, y: nat, banks: pos, high: pos, L: nat)
    ensures StripeStream(ys + [y], banks, high, L) == StripeStream(ys, banks, high, L) + StripeBursts(y, banks, high, L)
  {
    assert (ys + [y])[..|ys|] == ys;
  }

  lemma EmptySweep(g: Geom, table: seq<nat>, spb: nat, u: nat, m: nat, c: nat)
    requires spb > 0 && u > 0 && m == 0 <= |table| * u && 0 <= |table| * spb
    ensures ChannelStream(g, HostCacheline, Addresses(table, u, m), c)
         == StripeStream(Addresses(table, spb, 0), g.Banks(), HighCols(g), LowCols(g))
  {
  }

  /** Every channel of a sweep made of whole stripes sees the same stream. */
  lemma {:induction false} ChannelIsStripes(g: Geom, table: seq<nat>, spb: nat, n: nat, u: nat, m: nat, c: nat)
    requires Serves(g, 0, 0) && c < g.channels
    requires spb > 0 && u == spb * Stripe(g) > 0 && n <= |table| * spb && m == n * Stripe(g) <= |table| * u
    requires Fits(table, u, g.TotalBursts())
    ensures ChannelStream(g, HostCacheline, Addresses(table, u, m), c)
         == StripeStream(Addresses(table, spb, n), g.Banks(), HighCols(g), LowCols(g))
  {
    hide ChannelStream, StripeStream, Addresses, Fits, Geom.Valid, LowCols, HighCols, Stripe;
    if n == 0 {
      EmptySweep(g, table, spb, u, m, c);
    } else {
      var q := n - 1;
      OneLess(n, Stripe(g));
      ChannelIsStripes(g, table, spb, q, u, q * Stripe(g), c);
      NextStripe(g, table, spb, q, u, q * Stripe(g), c);
    }
  }

  lemma NextStripe(g: Geom, table: seq<nat>, spb: nat, q: nat, u: nat, m: nat, c: nat)
    requires Serves(g, 0, 0) && c < g.channels
    requires spb > 0 && u == spb * Stripe(g) > 0 && q + 1 <= |table| * spb
    requires m == q * Stripe(g) && m + Stripe(g) <= |table| * u && Fits(table, u, g.TotalBursts())
    requires ChannelStream(g, HostCacheline, Addresses(table, u, m), c)
          == StripeStream(Addresses(table, spb, q), g.Banks(), HighCols(g), LowCols(g))
    ensures ChannelStream(g, HostCacheline, Addresses(table, u, m + Stripe(g)), c)
         == StripeStream(Addresses(table, spb, q + 1), g.Banks(), HighCols(g), LowCols(g))
  {
    hide ChannelStream, StripeStream, StripeBursts, Addresses, Phys, Fits, Geom.Valid;
    AddressesPrefix(table, spb, q);
    AddressesStep(table, spb, Stripe(g), q, u, m);
    StripeFits(table, spb, Stripe(g), q, g.TotalBursts());
    AddStripe(g, Addresses(table, u, m), Phys(table, spb, q), c);
    StripeStreamAppend(Addresses(table, spb, q), Phys(table, spb, q), g.Banks(), HighCols(g), LowCols(g));
  }
}
