// From allocator to metric: a fresh admission of k frames' worth of blocks takes the k lowest
// wholly empty frames block for block, and such a table gets the ideal command stream.
module EndToEnd {
  import opened Counting
  import opened Results
  import opened Geometry
  import opened Schemes
  import opened Windowed
  import opened Sweep
  import opened Alignment
  import opened Pool
  import opened Bookkeeping
  import opened FramePlan
  import opened Placement
  import opened Metrics
  import opened AddrMap

  /** Offsets o and above of a frame of G blocks. */
  ghost function From(o: nat, G: nat): (r: set<nat>)
    ensures forall x: nat :: x in r <==> o <= x < G
  {
    BelowSize(G);
    set x | x in Below(G) && o <= x
  }

  /** frames once the first j of the empty frames E, and o blocks of the next, are used. */
  ghost predicate Drained(frames: Frames, fr: Frames, E: seq<nat>, G: pos, j: nat, o: nat) {
    && j <= |E| && (o > 0 ==> j < |E|) && |fr| == |frames|
    && forall f | 0 <= f < |frames| ::
         fr[f] == if f in E[..j] then {} else if o > 0 && f == E[j] then From(o, G) else frames[f]
  }

  /** What key's current frame is at that point. */
  ghost predicate CurrentAt(cur: map<Key, nat>, key: Key, E: seq<nat>, j: nat, o: nat) {
    if o > 0 then j < |E| && key in cur && cur[key] == E[j]
    else if 0 < j <= |E| then key in cur && cur[key] == E[j - 1]
    else key !in cur
  }

  /** The wholly empty frames in index order. */
  ghost predicate Empties(frames: Frames, E: seq<nat>, G: pos) {
    && Ascending(E)
    && forall f: nat :: f in E <==> f < |frames| && frames[f] == From(0, G)
  }

  lemma FromSize(G: nat)
    ensures |From(0, G)| == G
  {
    BelowSize(G);
    assert From(0, G) == Below(G);
  }

  /** A full frame is the one with every offset. */
  lemma FullFrame(s: set<nat>, G: nat)
    requires forall o | o in s :: o < G
    ensures |s| <= G && (|s| == G <==> s == From(0, G))
  {
    FromSize(G);
    SubsetSize(s, From(0, G));
  }

  lemma PrefixMembers(E: seq<nat>, j: nat)
    requires j <= |E|
    ensures forall i | 0 <= i < j :: E[i] in E[..j]
  {
    assert forall i | 0 <= i < j :: E[..j][i] == E[i];
  }

  /** With the current frame used up, the next one is the lowest empty frame left. */
  lemma NextEmpty(frames: Frames, fr: Frames, E: seq<nat>, G: pos, j: nat)
    requires Empties(frames, E, G) && Drained(frames, fr, E, G, j, 0) && j < |E|
    requires forall f, o | 0 <= f < |frames| && o in frames[f] :: o < G
    ensures E[j] < |fr| && fr[E[j]] == From(0, G) && Best(fr) == E[j]
  {
    assert E[j] in E;
    FromSize(G);
    var b := Best(fr);
    FullFrame(fr[b], G);
    PrefixMembers(E, j);
    assert b in E;
  }

  lemma MinFrom(o: nat, G: nat)
    requires o < G
    ensures From(o, G) != {} && MinOf(From(o, G)) == o && From(o, G) - {o} == From(o + 1, G)
  {
    assert o in From(o, G);
  }

  /** Frame and offset after one more block. */
  function NextAt(j: nat, o: nat, G: pos): (nat, nat) {
    if o + 1 < G then (j, o + 1) else (j + 1, 0)
  }

  /** The rule's next block is offset o of the j-th empty frame. */
  lemma FillOne(frames: Frames, p: Pool, key: Key, E: seq<nat>, j: nat, o: nat)
    requires p.Framed? && Empties(frames, E, p.G) && o < p.G && j < |E|
    requires forall f, x | 0 <= f < |frames| && x in frames[f] :: x < p.G
    requires Drained(frames, p.frames, E, p.G, j, o) && CurrentAt(p.cur, key, E, j, o)
    ensures !Empty(p)
    ensures var (p', b) := Take(p, key);
      var (j', o') := NextAt(j, o, p.G);
      && b == BlockId(p.G, E[j], o) && p'.Framed? && p'.G == p.G
      && Drained(frames, p'.frames, E, p.G, j', o') && CurrentAt(p'.cur, key, E, j', o')
  {
    assert E[j] in E;
    MinFrom(o, p.G);
    if o == 0 {
      NextEmpty(frames, p.frames, E, p.G, j);
      if j > 0 { assert E[j - 1] in E[..j] && E[j - 1] in E; }
    } else {
      assert E[j] !in E[..j];
    }
    assert p.frames[E[j]] == From(o, p.G);
    assert Pick(p.frames, p.cur, key) == E[j];
    DrainOne(frames, p.frames, E, p.G, j, o);
  }

  lemma DrainOne(frames: Frames, fr: Frames, E: seq<nat>, G: pos, j: nat, o: nat)
    requires Ascending(E) && Drained(frames, fr, E, G, j, o) && o < G && j < |E|
    requires E[j] < |frames| && fr[E[j]] == From(o, G)
    ensures var (j', o') := NextAt(j, o, G);
      Drained(frames, fr[E[j] := From(o + 1, G)], E, G, j', o')
  {
    assert E[..j + 1] == E[..j] + [E[j]];
    assert E[j] !in E[..j];
    if o + 1 == G { assert From(o + 1, G) == {}; }
  }

  /** Blocks of the first j empty frames, then o more of the next. */
  function FilledTable(E: seq<nat>, G: pos, j: nat, o: nat): seq<nat>
    requires j <= |E| && (o > 0 ==> j < |E|)
  {
    Spread(E[..j], G) + if o > 0 then Run(E[j] * G, o) else []
  }

  lemma TableGrows(E: seq<nat>, G: pos, j: nat, o: nat)
    requires j < |E| && o < G
    ensures var (j', o') := NextAt(j, o, G);
      FilledTable(E, G, j, o) + [BlockId(G, E[j], o)] == FilledTable(E, G, j', o')
  {
    assert E[..j + 1][..j] == E[..j];
    var x := E[j] * G;
    assert Run(x, o) + [x + o] == Run(x, o + 1);
    if o == 0 { assert Run(x, o) == []; }
    assert FilledTable(E, G, j, o) == Spread(E[..j], G) + Run(x, o);
    assert Spread(E[..j], G) + Run(x, o) + [x + o] == Spread(E[..j], G) + Run(x, o + 1);
  }

  lemma {:induction false} FillMany(l: Ledger, held: multiset<nat>, key: Key, E: seq<nat>, j: nat, o: nat)
    requires Exact(l, held) && l.pool.Framed? && key !in l.pool.cur && Empties(l.pool.frames, E, l.pool.G)
    requires j <= |E| && o < l.pool.G && (o > 0 ==> j < |E|)
    ensures var (m, bs) := AllocN(l, key, j * l.pool.G + o);
      && bs == FilledTable(E, l.pool.G, j, o) && m.pool.Framed? && m.pool.G == l.pool.G
      && Drained(l.pool.frames, m.pool.frames, E, l.pool.G, j, o) && CurrentAt(m.pool.cur, key, E, j, o)
    decreases j, o
  {
    hide Exact, Empties, Drained, CurrentAt, FilledTable, Take, Empty;
    var G := l.pool.G;
    if j == 0 && o == 0 {
      FillStart(l, key, E);
    } else {
      var last: nat := (G as int) - 1;
      var i: nat, x: nat := if o > 0 then j else j - 1, if o > 0 then o - 1 else last;
      FillMany(l, held, key, E, i, x);
      var (m, bs) := AllocN(l, key, i * G + x);
      MulDistributes(j - 1, 1, G);
      OffsetsBelow(l, held);
      FillOne(l.pool.frames, m.pool, key, E, i, x);
      TableGrows(E, G, i, x);
    }
  }

  lemma FillStart(l: Ledger, key: Key, E: seq<nat>)
    requires l.pool.Framed? && key !in l.pool.cur
    ensures FilledTable(E, l.pool.G, 0, 0) == []
    ensures Drained(l.pool.frames, l.pool.frames, E, l.pool.G, 0, 0) && CurrentAt(l.pool.cur, key, E, 0, 0)
  {
  }

  lemma OffsetsBelow(l: Ledger, held: multiset<nat>)
    requires Exact(l, held) && l.pool.Framed?
    ensures forall f, o | 0 <= f < |l.pool.frames| && o in l.pool.frames[f] :: o < l.pool.G
  {
  }

  /** Admitting k * G blocks for a fresh sequence fills the k lowest wholly empty frames, at
      ascending offsets. */
  lemma WholeFramePlacement(l: Ledger, held: multiset<nat>, id: int, E: seq<nat>, k: nat)
    requires Exact(l, held) && l.pool.Framed? && Seq(id) !in l.pool.cur
    requires Empties(l.pool.frames, E, l.pool.G) && k <= |E|
    ensures Admit(l, id, k * l.pool.G).1 == Spread(E[..k], l.pool.G)
    ensures Distinct(E[..k])
  {
    FillMany(l, held, Seq(id), E, k, 0);
  }

  lemma {:induction false} SpreadBelow(t: seq<nat>, G: pos, n: nat)
    requires forall i | 0 <= i < |t| :: t[i] < n
    ensures forall b | b in Spread(t, G) :: b < n * G
  {
    if t != [] {
      var f := t[|t| - 1];
      SpreadBelow(t[..|t| - 1], G, n);
      MulMono(f + 1, n, G);
      MulDistributes(f, 1, G);
    }
  }

  lemma BelowFits(table: seq<nat>, n: nat, u: nat, total: nat)
    requires (forall b | b in table :: b < n) && n * u <= total
    ensures Fits(table, u, total)
  {
    forall b | b in table
      ensures b * u + u <= total
    {
      MulMono(b + 1, n, u);
      MulDistributes(b, 1, u);
    }
  }

  /** Allocator to metric: such a sequence, swept whole under host-cacheline with an aligned
      window, issues k * cols commands and misses k rows on every channel. */
  lemma IdealStream(l: Ledger, held: multiset<nat>, id: int, E: seq<nat>, k: nat,
                    g: Geom, u: pos, W: pos, c: nat)
    requires Exact(l, held) && l.pool.Framed? && Seq(id) !in l.pool.cur
    requires Empties(l.pool.frames, E, l.pool.G) && k <= |E|
    requires g.Valid() && c < g.channels
    requires l.pool.G * u == g.FrameBursts()
    requires l.numBlocks * u <= g.TotalBursts()
    requires W % (g.Banks() * LowCols(g)) == 0
    ensures var table := Admit(l, id, k * l.pool.G).1;
      var s := ChannelStream(g, HostCacheline, Addresses(table, u, |table| * u), c);
      && TotalCmds(Windows(s, W), g.Banks()) == k * g.Cols()
      && TotalMisses(Windows(s, W), g.Banks()) == k
      && |s| == k * g.Cols() * g.Banks()
  {
    hide Exact, Empties, Geom.Valid, Admit, Addresses, ChannelStream, Windows, TotalCmds, TotalMisses, Fits, Distinct;
    WholeFramePlacement(l, held, id, E, k);
    PlacedBelow(l, held, id, E, k);
    BelowFits(Spread(E[..k], l.pool.G), l.numBlocks, u, g.TotalBursts());
    AlignedExact(g, E[..k], l.pool.G, u, W, c);
  }

  /** The blocks of such a table are blocks of the pool. */
  lemma PlacedBelow(l: Ledger, held: multiset<nat>, id: int, E: seq<nat>, k: nat)
    requires Exact(l, held) && l.pool.Framed? && Seq(id) !in l.pool.cur
    requires Empties(l.pool.frames, E, l.pool.G) && k <= |E|
    ensures forall b | b in Admit(l, id, k * l.pool.G).1 :: b < l.numBlocks
  {
    hide Exact, Admit, Distinct;
    WholeFramePlacement(l, held, id, E, k);
    ExactPool(l, held);
    assert forall i | 0 <= i < k :: E[..k][i] in E;
    SpreadBelow(E[..k], l.pool.G, |l.pool.frames|);
  }

  // ---- the metrics of such a sequence ------------------------------------

  /** The mapped sweep of addresses xs. */
  function Accesses(g: Geom, xs: seq<nat>): seq<Access> {
    if xs == [] then [] else
    var x := xs[|xs| - 1];
    Accesses(g, xs[..|xs| - 1]) + [Access(ChannelOf(g, HostCacheline, x), BurstAt(g, HostCacheline, x))]
  }

  lemma {:induction false} SelectIsStream(g: Geom, xs: seq<nat>, c: nat)
    ensures Select(Accesses(g, xs), c) == ChannelStream(g, HostCacheline, xs, c)
  {
    if xs != [] {
      SelectIsStream(g, xs[..|xs| - 1], c);
    }
  }

  /** Equal counts on every channel of cs add up. */
  lemma {:induction false} TotalsEven(xs: seq<Access>, cs: seq<nat>, B: pos, W: nat, k: Counts)
    requires forall c | c in cs :: ChannelCounts(Select(xs, c), B, W, "window") == Ok(k)
    ensures Totals(xs, cs, B, W, "window") == Ok(Counts(|cs| * k.cmds, |cs| * k.hits, |cs| * k.bursts))
  {
    hide ChannelCounts, Select;
    if cs != [] {
      var n: nat := |cs| - 1;
      TotalsEven(xs, cs[..n], B, W, k);
      MulDistributes(n, 1, k.cmds);
      MulDistributes(n, 1, k.hits);
      MulDistributes(n, 1, k.bursts);
      assert cs[n] in cs;
    }
  }

  lemma AddressesBelow(table: seq<nat>, u: pos, n: nat, pool: nat, total: nat)
    requires n <= |table| * u && (forall b | b in table :: b < pool) && pool * u <= total
    ensures forall x | x in Addresses(table, u, n) :: x < total
  {
    forall i | 0 <= i < n
      ensures Addresses(table, u, n)[i] < total
    {
      InTable(|table|, u, n, i);
      PhysBelow(table, u, i, pool);
    }
  }

  lemma ChannelBound(g: Geom, x: nat)
    requires g.Valid() && x < g.TotalBursts()
    ensures ChannelOf(g, HostCacheline, x) < g.channels
  {
    Bijection(g, HostCacheline);
    var c := Parts(Fields(g, HostCacheline), x);
    assert Schemes.InRange(g, c);
    assert c.Get(Ch) < Size(g, Ch);
  }

  /** Addresses inside the geometry reach only its channels. */
  lemma {:induction false} ChannelsReached(g: Geom, xs: seq<nat>, c: nat)
    requires g.Valid() && (forall x | x in xs :: x < g.TotalBursts()) && ChannelStream(g, HostCacheline, xs, c) != []
    ensures c < g.channels
  {
    hide ChannelOf, BurstAt, Geom.Valid;
    var x := xs[|xs| - 1];
    assert x in xs;
    ChannelBound(g, x);
    if ChannelOf(g, HostCacheline, x) != c {
      var p := xs[..|xs| - 1];
      forall y | y in p
        ensures y < g.TotalBursts()
      {
        assert y in xs;
      }
      var rest := ChannelStream(g, HostCacheline, p, c);
      assert ChannelStream(g, HostCacheline, xs, c) == rest + [] == rest;
      ChannelsReached(g, p, c);
    }
  }

  lemma AllChannels(cs: seq<nat>, n: nat)
    requires Ascending(cs) && forall c: nat :: c in cs <==> c < n
    ensures |cs| == n
  {
    DistinctSize(cs);
    BelowSize(n);
    assert Elems(cs) == Below(n);
  }

  /** C channels with k misses in k * cols full commands each. */
  lemma IdealRatios(C: nat, k: nat, cols: nat, B: nat)
    requires C > 0 && k > 0 && cols > 0 && B > 0
    ensures C * (k * cols) > 0 && B * (C * (k * cols)) > 0
    ensures var t := Counts(C * (k * cols), C * (k * cols - k), C * (k * cols * B));
      M1(t) == 1.0 - Ratio(1, cols) && M2(t, B) == 1.0
  {
    var n, a := C * (k * cols), C * k;
    MulMono(1, cols, k);
    MulMono(1, k * cols, C);
    MulMono(1, n, B);
    assert n == a * cols by { Assoc(C, k, cols); }
    assert C * (k * cols - k) == n - a by { MulMinus(C, k * cols, k); }
    assert C * (k * cols * B) == B * n by { Assoc(C, k * cols, B); }
    Quotient((B * n) as real, (B * n) as real, 1.0);
    SplitRatio(a, cols, n);
  }

  lemma MulMinus(x: int, y: int, z: int)
    ensures x * (y - z) == x * y - x * z
  {
  }

  /** A quotient is what multiplies back. */
  lemma Quotient(x: real, z: real, q: real)
    requires z > 0.0 && q * z == x
    ensures x / z == q
  {
  }

  lemma RealAssoc(x: real, y: real, z: real)
    ensures x * (y * z) == (x * y) * z
  {
  }

  lemma SplitRatio(a: nat, cols: nat, n: nat)
    requires n == a * cols && n > 0 && cols > 0
    ensures Ratio(n - a, n) == 1.0 - Ratio(1, cols)
  {
    var x, y, z := a as real, cols as real, n as real;
    var q := 1.0 / y;
    assert z == y * x && q * y == 1.0;
    RealAssoc(q, y, x);
    assert q * z == x;
    assert (1.0 - q) * z == z - q * z;
    Quotient(z - x, z, 1.0 - q);
  }

  lemma ColsPositive(g: Geom)
    requires g.Valid()
    ensures g.Cols() > 0
  {
    CachelineCols(g);
    MulMono(1, LowCols(g), HighCols(g));
  }

  lemma IdealChannel(l: Ledger, held: multiset<nat>, id: int, E: seq<nat>, k: pos,
                     g: Geom, u: pos, W: pos, c: nat)
    requires Exact(l, held) && l.pool.Framed? && Seq(id) !in l.pool.cur
    requires Empties(l.pool.frames, E, l.pool.G) && k <= |E|
    requires g.Valid() && c < g.channels
    requires l.pool.G * u == g.FrameBursts()
    requires l.numBlocks * u <= g.TotalBursts()
    requires W % (g.Banks() * LowCols(g)) == 0
    ensures var table := Admit(l, id, k * l.pool.G).1;
      var s := Select(Accesses(g, Addresses(table, u, |table| * u)), c);
      && s != []
      && ChannelCounts(s, g.Banks(), W, "window")
         == Ok(Counts(k * g.Cols(), k * g.Cols() - k, k * g.Cols() * g.Banks()))
  {
    hide Exact, Empties, Geom.Valid, Admit, Addresses, Accesses, Select, ChannelStream, Windows;
    hide TotalCmds, TotalMisses, Fits;
    var table := Admit(l, id, k * l.pool.G).1;
    SelectIsStream(g, Addresses(table, u, |table| * u), c);
    IdealStream(l, held, id, E, k, g, u, W, c);
    ColsPositive(g);
    MulMono(1, g.Cols(), k);
    MulMono(1, k * g.Cols(), g.Banks());
  }

  /** The windowed counts of one full sweep over a table. */
  ghost function SweepCounts(g: Geom, table: seq<nat>, u: pos, W: nat): Result<Counts> {
    var xs := Accesses(g, Addresses(table, u, |table| * u));
    Totals(xs, Channels(xs), g.Banks(), W, "window")
  }

  /** M2 = 1 and M1 = 1 - 1/cols for a sequence admitted into k whole frames. */
  lemma IdealMetrics(l: Ledger, held: multiset<nat>, id: int, E: seq<nat>, k: pos,
                     g: Geom, u: pos, W: pos)
    requires Exact(l, held) && l.pool.Framed? && Seq(id) !in l.pool.cur
    requires Empties(l.pool.frames, E, l.pool.G) && k <= |E|
    requires g.Valid()
    requires l.pool.G * u == g.FrameBursts()
    requires l.numBlocks * u <= g.TotalBursts()
    requires W % (g.Banks() * LowCols(g)) == 0
    ensures var t := SweepCounts(g, Admit(l, id, k * l.pool.G).1, u, W);
      t.Ok? && M1(t.value) == 1.0 - Ratio(1, g.Cols()) && M2(t.value, g.Banks()) == 1.0
  {
    hide Exact, Empties, Geom.Valid, Admit, Addresses, Accesses, Select, ChannelCounts, Totals;
    hide Channels, ChannelStream, M1, M2;
    var table := Admit(l, id, k * l.pool.G).1;
    var as' := Addresses(table, u, |table| * u);
    var xs := Accesses(g, as');
    var cols, B := g.Cols(), g.Banks();
    var each := Counts(k * cols, k * cols - k, k * cols * B);
    IdealBelow(l, held, id, E, k, u, g.TotalBursts());
    ColsPositive(g);
    forall c: nat | c < g.channels
      ensures ChannelCounts(Select(xs, c), B, W, "window") == Ok(each) && Select(xs, c) != []
    {
      IdealChannel(l, held, id, E, k, g, u, W, c);
    }
    ChannelsMeaning(xs);
    forall c: nat
      ensures c in Channels(xs) <==> c < g.channels
    {
      SelectIsStream(g, as', c);
      if c in Channels(xs) {
        ChannelsReached(g, as', c);
      }
    }
    AllChannels(Channels(xs), g.channels);
    TotalsEven(xs, Channels(xs), B, W, each);
    IdealRatios(g.channels, k, cols, B);
  }

  lemma IdealBelow(l: Ledger, held: multiset<nat>, id: int, E: seq<nat>, k: nat, u: pos, total: nat)
    requires Exact(l, held) && l.pool.Framed? && Seq(id) !in l.pool.cur
    requires Empties(l.pool.frames, E, l.pool.G) && k <= |E| && l.numBlocks * u <= total
    ensures var table := Admit(l, id, k * l.pool.G).1;
      forall x | x in Addresses(table, u, |table| * u) :: x < total
  {
    hide Exact, Admit, Addresses;
    PlacedBelow(l, held, id, E, k);
    var table := Admit(l, id, k * l.pool.G).1;
    AddressesBelow(table, u, |table| * u, l.numBlocks, total);
  }
}
