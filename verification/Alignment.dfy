// A sequence that exactly fills whole frames is served perfectly: every command uses all
// banks, and each frame costs one row miss per channel.
module Alignment {
  import opened Counting
  import opened Bits
  import opened Geometry
  import opened Schemes
  import opened Commands
  import opened Optimality
  import opened Windowed
  import opened Sweep

  // ---- whole blocks laid out one after another ---------------------------

  /** All units of all blocks, u to a block, in table order. */
  function Spread(table: seq<nat>, u: nat): seq<nat> {
    if table == [] then [] else Spread(table[..|table| - 1], u) + Run(table[|table| - 1] * u, u)
  }

  lemma {:induction false} SpreadConcat(a: seq<nat>, b: seq<nat>, u: nat)
    ensures Spread(a + b, u) == Spread(a, u) + Spread(b, u)
  {
    if b == [] {
      assert a + b == a;
    } else {
      var p, x := b[..|b| - 1], b[|b| - 1];
      SpreadConcat(a, p, u);
      assert (a + b)[..|a + b| - 1] == a + p && (a + b)[|a + b| - 1] == x;
      SeqAssoc(Spread(a, u), Spread(p, u), Run(x * u, u));
    }
  }

  lemma SeqAssoc<T>(a: seq<T>, b: seq<T>, c: seq<T>)
    ensures (a + b) + c == a + (b + c)
  {
  }

  lemma {:induction false} SpreadRun(x: nat, n: nat, u: nat)
    ensures x * u >= 0 && n * u >= 0 && Spread(Run(x, n), u) == Run(x * u, n * u)
  {
    if n > 0 {
      SpreadRun(x, n - 1, u);
      assert Run(x, n)[..n - 1] == Run(x, n - 1);
      MulDistributes(x, n - 1, u);
      MulDistributes(n - 1, 1, u);
      assert Run(x * u, n * u) == Run(x * u, (n - 1) * u) + Run(x * u + (n - 1) * u, u);
    }
  }

  /** Spreading in two steps is spreading at once. */
  lemma {:induction false} SpreadTwice(table: seq<nat>, a: nat, b: nat)
    ensures a * b >= 0 && Spread(Spread(table, a), b) == Spread(table, a * b)
  {
    MulMono(0, a, b);
    if table != [] {
      var p, f := table[..|table| - 1], table[|table| - 1];
      SpreadTwice(p, a, b);
      SpreadConcat(Spread(p, a), Run(f * a, a), b);
      SpreadRun(f * a, a, b);
      Assoc(f, a, b);
    }
  }

  /** A full sweep visits the units of its blocks one block after another. */
  lemma {:induction false} FullSweep(table: seq<nat>, u: pos)
    ensures Addresses(table, u, |table| * u) == Spread(table, u)
  {
    if table != [] {
      var n := |table| - 1;
      var p, b := table[..n], table[n];
      FullSweep(p, u);
      MulDistributes(n, 1, u);
      var xs := Addresses(table, u, n * u + u);
      forall i | 0 <= i < n * u + u
        ensures xs[i] == (Addresses(p, u, n * u) + Run(b * u, u))[i]
      {
        if i < n * u {
          InTable(n, u, n * u, i);
        } else {
          DivUnique(i, u, n, i - n * u);
        }
      }
      assert xs == Addresses(p, u, n * u) + Run(b * u, u);
    }
  }

  // ---- sheets: one column of every bank ----------------------------------

  /** Stripes z * banks on: every bank once, one row. */
  function Sheet(z: nat, banks: pos, high: pos, L: nat): seq<Burst> {
    StripeStream(Run(z * banks, banks), banks, high, L)
  }

  function SheetStream(zs: seq<nat>, banks: pos, high: pos, L: nat): seq<Burst> {
    if zs == [] then [] else SheetStream(zs[..|zs| - 1], banks, high, L) + Sheet(zs[|zs| - 1], banks, high, L)
  }

  lemma {:induction false} StripeStreamConcat(a: seq<nat>, b: seq<nat>, banks: pos, high: pos, L: nat)
    ensures StripeStream(a + b, banks, high, L) == StripeStream(a, banks, high, L) + StripeStream(b, banks, high, L)
  {
    if b == [] {
      assert a + b == a;
    } else {
      StripeStreamConcat(a, b[..|b| - 1], banks, high, L);
      assert (a + b)[..|a + b| - 1] == a + b[..|b| - 1];
    }
  }

  lemma {:induction false} SheetsAreStripes(zs: seq<nat>, banks: pos, high: pos, L: nat)
    ensures StripeStream(Spread(zs, banks), banks, high, L) == SheetStream(zs, banks, high, L)
  {
    if zs != [] {
      SheetsAreStripes(zs[..|zs| - 1], banks, high, L);
      StripeStreamConcat(Spread(zs[..|zs| - 1], banks), Run(zs[|zs| - 1] * banks, banks), banks, high, L);
    }
  }

  lemma {:induction false} SheetStreamConcat(a: seq<nat>, b: seq<nat>, banks: pos, high: pos, L: nat)
    ensures SheetStream(a + b, banks, high, L) == SheetStream(a, banks, high, L) + SheetStream(b, banks, high, L)
  {
    if b == [] {
      assert a + b == a;
    } else {
      var p, z := b[..|b| - 1], b[|b| - 1];
      SheetStreamConcat(a, p, banks, high, L);
      assert (a + b)[..|a + b| - 1] == a + p && (a + b)[|a + b| - 1] == z;
      SeqAssoc(SheetStream(a, banks, high, L), SheetStream(p, banks, high, L), Sheet(z, banks, high, L));
    }
  }

  /** Every burst of s lies in row r, and its bank is below n. */
  ghost predicate InRow(s: seq<Burst>, r: nat, n: nat) {
    forall i | 0 <= i < |s| :: s[i].row == r && s[i].bank < n
  }

  /** The first n stripes of sheet z: n * L bursts of row z / high in banks below n. */
  lemma {:induction false} SheetPrefix(z: nat, n: nat, banks: pos, high: pos, L: nat)
    requires n <= banks
    ensures |StripeStream(Run(z * banks, n), banks, high, L)| == n * L
    ensures z / high >= 0 && InRow(StripeStream(Run(z * banks, n), banks, high, L), z / high, n)
  {
    DivNat(z, high);
    if n > 0 {
      SheetPrefix(z, n - 1, banks, high, L);
      assert Run(z * banks, n)[..n - 1] == Run(z * banks, n - 1);
      DivUnique(z * banks + (n - 1), banks, z, n - 1);
      MulDistributes(n - 1, 1, L);
    }
  }

  lemma {:induction false} SheetsLength(zs: seq<nat>, banks: pos, high: pos, L: nat)
    ensures |SheetStream(zs, banks, high, L)| == |zs| * (banks * L)
    ensures BanksBelow(SheetStream(zs, banks, high, L), banks)
  {
    if zs != [] {
      SheetsLength(zs[..|zs| - 1], banks, high, L);
      SheetPrefix(zs[|zs| - 1], banks, banks, high, L);
      MulDistributes(|zs| - 1, 1, banks * L);
    }
  }

  // ---- commands ----------------------------------------------------------

  /** Commands base .. base+L so far hold only bursts of row r in banks below n. */
  ghost predicate OpenSheet(w: seq<Burst>, a: seq<nat>, base: nat, r: nat, n: nat)
    requires |a| == |w|
  {
    forall i | 0 <= i < |w| && a[i] >= base :: w[i].row == r && w[i].bank < n
  }

  /** A further stripe of the sheet rides the sheet's L commands. */
  lemma ExtendStripe(w: seq<Burst>, a: seq<nat>, base: nat, y: nat, banks: pos, high: pos, L: nat)
    requires LegalAssignment(w, a, base + L) && OpenSheet(w, a, base, StripeBurst(y, banks, high, L, 0).row, y % banks)
    ensures LegalAssignment(w + StripeBursts(y, banks, high, L), a + Run(base, L), base + L)
    ensures OpenSheet(w + StripeBursts(y, banks, high, L), a + Run(base, L), base,
                      StripeBurst(y, banks, high, L, 0).row, y % banks + 1)
  {
  }

  lemma {:induction false} ExtendSheet(w: seq<Burst>, a: seq<nat>, base: nat, z: nat, n: nat, banks: pos,
                                       high: pos, L: nat)
    returns (b: seq<nat>)
    requires LegalAssignment(w, a, base) && n <= banks
    ensures LegalAssignment(w + StripeStream(Run(z * banks, n), banks, high, L), b, base + L)
    ensures OpenSheet(w + StripeStream(Run(z * banks, n), banks, high, L), b, base,
                      StripeBurst(z * banks, banks, high, L, 0).row, n)
  {
    if n == 0 {
      b := a;
      assert w + StripeStream(Run(z * banks, n), banks, high, L) == w;
    } else {
      var y := z * banks + (n - 1);
      var p := Run(z * banks, n - 1);
      b := ExtendSheet(w, a, base, z, n - 1, banks, high, L);
      DivUnique(y, banks, z, n - 1);
      DivUnique(z * banks, banks, z, 0);
      ExtendStripe(w + StripeStream(p, banks, high, L), b, base, y, banks, high, L);
      assert Run(z * banks, n) == p + [y];
      StripeStreamAppend(p, y, banks, high, L);
      assert w + StripeStream(p, banks, high, L) + StripeBursts(y, banks, high, L)
          == w + StripeStream(Run(z * banks, n), banks, high, L);
      b := b + Run(base, L);
    }
  }

  /** L commands per sheet suffice for any window made of whole sheets. */
  lemma {:induction false} SheetsAssignment(zs: seq<nat>, banks: pos, high: pos, L: nat) returns (a: seq<nat>)
    ensures LegalAssignment(SheetStream(zs, banks, high, L), a, |zs| * L)
  {
    if zs == [] {
      a := [];
    } else {
      hide LegalAssignment;
      var p, z := zs[..|zs| - 1], zs[|zs| - 1];
      a := SheetsAssignment(p, banks, high, L);
      a := ExtendSheet(SheetStream(p, banks, high, L), a, |p| * L, z, banks, banks, high, L);
      MulDistributes(|zs| - 1, 1, L);
    }
  }

  lemma WindowOfSheets(zs: seq<nat>, banks: pos, high: pos, L: nat)
    ensures SumM(Groups(SheetStream(zs, banks, high, L), banks)) <= |zs| * L
  {
    var w := SheetStream(zs, banks, high, L);
    SheetsLength(zs, banks, high, L);
    GroupsMeaning(w, banks);
    var a := SheetsAssignment(zs, banks, high, L);
    NoFewer(w, a, |zs| * L, Groups(w, banks));
  }

  /** The first window of m whole sheets, and what is left after it. */
  lemma FirstWindow(zs: seq<nat>, n: nat, banks: pos, high: pos, L: pos, W: pos)
    requires zs != [] && n == Min(W / (banks * L), |zs|) && W % (banks * L) == 0
    ensures 0 < n <= |zs|
    ensures Windows(SheetStream(zs, banks, high, L), W)
         == [SheetStream(zs[..n], banks, high, L)] + Windows(SheetStream(zs[n..], banks, high, L), W)
  {
    var a, b := zs[..n], zs[n..];
    var s, u := SheetStream(zs, banks, high, L), SheetStream(a, banks, high, L);
    var m := W / (banks * L);
    assert zs == a + b;
    SheetStreamConcat(a, b, banks, high, L);
    SheetsLength(a, banks, high, L);
    SheetsLength(zs, banks, high, L);
    DivExactRem(W, banks * L, m);
    if m <= |zs| { MulMono(m, |zs|, banks * L); } else { MulMono(|zs|, m, banks * L); }
    MulMono(1, n, banks * L);
    assert s[..|u|] == u && s[|u|..] == SheetStream(b, banks, high, L);
  }

  lemma DivExactRem(x: pos, d: nat, q: int)
    requires d > 0 && x % d == 0 && q == x / d
    ensures x == q * d && q >= 1
  {
    if q <= 0 { MulMono(q, 0, d); }
  }

  /** Windows of whole sheets need at most L commands per sheet in total. */
  lemma {:induction false} CmdsOfSheets(zs: seq<nat>, banks: pos, high: pos, L: pos, W: pos)
    requires W % (banks * L) == 0
    ensures TotalCmds(Windows(SheetStream(zs, banks, high, L), W), banks) <= |zs| * L
    decreases |zs|
  {
    if zs != [] {
      hide SheetStream, Windows, TotalCmds, Groups, SumM;
      DivExactRem(W, banks * L, W / (banks * L));
      var n := Min(W / (banks * L), |zs|);
      FirstWindow(zs, n, banks, high, L, W);
      WindowOfSheets(zs[..n], banks, high, L);
      CmdsOfSheets(zs[n..], banks, high, L, W);
      TotalCmdsCons(SheetStream(zs[..n], banks, high, L), Windows(SheetStream(zs[n..], banks, high, L), W), banks);
      MulDistributes(n, |zs| - n, L);
    }
  }

  // ---- misses ------------------------------------------------------------

  lemma {:induction false} OneRowOneRun(s: seq<Burst>, r: nat, n: nat)
    requires InRow(s, r, n)
    ensures Runs(s) == Bit(s != []) && (s != [] ==> Rows(s) == {r})
  {
    if s != [] {
      hide Rows;
      var p, b := s[..|s| - 1], s[|s| - 1];
      OneRowOneRun(p, r, n);
      assert s == p + [b];
      RowsAppend(p, b);
      if p == [] { NoRows(); } else { assert p[|p| - 1].row == r; }
    }
  }

  lemma NoRows()
    ensures Rows([]) == {} && Runs([]) == 0
  {
  }

  /** The sheets of one frame all lie in the frame's row. */
  lemma {:induction false} FrameInRow(f: nat, n: nat, banks: pos, high: pos, L: pos)
    requires n <= high
    ensures InRow(SheetStream(Run(f * high, n), banks, high, L), f, banks)
    ensures n > 0 ==> SheetStream(Run(f * high, n), banks, high, L) != []
  {
    if n > 0 {
      FrameInRow(f, n - 1, banks, high, L);
      assert Run(f * high, n)[..n - 1] == Run(f * high, n - 1);
      var z := f * high + (n - 1);
      SheetPrefix(z, banks, banks, high, L);
      DivUnique(z, high, f, n - 1);
      MulMono(1, banks, L);
    }
  }

  lemma OneFrame(f: nat, banks: pos, high: pos, L: pos)
    ensures var b := SheetStream(Run(f * high, high), banks, high, L); Runs(b) == 1 && Rows(b) == {f}
  {
    FrameInRow(f, high, banks, high, L);
    OneRowOneRun(SheetStream(Run(f * high, high), banks, high, L), f, banks);
  }

  ghost predicate RunsOf(frames: seq<nat>, banks: pos, high: pos, L: pos) {
    var b := SheetStream(Spread(frames, high), banks, high, L);
    Runs(b) <= |frames| && Rows(b) == Elems(frames)
  }

  lemma NextFrame(p: seq<nat>, f: nat, banks: pos, high: pos, L: pos)
    requires RunsOf(p, banks, high, L)
    ensures RunsOf(p + [f], banks, high, L)
  {
    hide SheetStream, Runs, Rows, Elems;
    assert (p + [f])[..|p|] == p;
    OneFrame(f, banks, high, L);
    SheetStreamConcat(Spread(p, high), Run(f * high, high), banks, high, L);
    AppendFrame(SheetStream(Spread(p, high), banks, high, L), SheetStream(Run(f * high, high), banks, high, L), p, f);
  }

  /** k frames in turn give at most k row runs and visit exactly their rows. */
  lemma {:induction false} FramesRuns(frames: seq<nat>, banks: pos, high: pos, L: pos)
    ensures RunsOf(frames, banks, high, L)
  {
    if frames == [] {
      assert SheetStream(Spread(frames, high), banks, high, L) == [];
    } else {
      hide RunsOf;
      var p, f := frames[..|frames| - 1], frames[|frames| - 1];
      assert frames == p + [f];
      FramesRuns(p, banks, high, L);
      NextFrame(p, f, banks, high, L);
    }
  }

  lemma AppendFrame(a: seq<Burst>, b: seq<Burst>, p: seq<nat>, f: nat)
    requires Runs(a) <= |p| && Rows(a) == Elems(p) && Runs(b) == 1 && Rows(b) == {f}
    ensures Runs(a + b) <= |p| + 1 && Rows(a + b) == Elems(p + [f])
  {
    RunsConcat(a, b);
    RowsConcat(a, b);
    ElemsAppend(p, f);
  }

  lemma {:induction false} SpreadLength(table: seq<nat>, u: nat)
    ensures |Spread(table, u)| == |table| * u
  {
    if table != [] {
      SpreadLength(table[..|table| - 1], u);
      MulDistributes(|table| - 1, 1, u);
    }
  }

  lemma SheetCmds(zs: seq<nat>, banks: pos, high: pos, L: pos, W: pos)
    requires W % (banks * L) == 0
    ensures TotalCmds(Windows(SheetStream(zs, banks, high, L), W), banks) == |zs| * L
    ensures |SheetStream(zs, banks, high, L)| == |zs| * L * banks
  {
    var s := SheetStream(zs, banks, high, L);
    SheetsLength(zs, banks, high, L);
    SheetArith(|zs|, banks, L);
    CmdsOfSheets(zs, banks, high, L, W);
    MetricsInRange(s, banks, W);
    Squeeze(TotalCmds(Windows(s, W), banks), |zs| * L, |s|, banks);
  }

  lemma Squeeze(cmds: nat, k: nat, n: nat, banks: pos)
    requires cmds <= k && n <= cmds * banks && n == k * banks
    ensures cmds == k
  {
    if cmds < k { MulMono(cmds + 1, k, banks); }
  }

  /** Whole distinct frames, one after another: every command is full and each frame
      misses once. */
  lemma FramesExact(frames: seq<nat>, banks: pos, high: pos, L: pos, W: pos)
    requires Distinct(frames) && W % (banks * L) == 0
    ensures var s := SheetStream(Spread(frames, high), banks, high, L);
      && TotalCmds(Windows(s, W), banks) == |frames| * (high * L)
      && TotalMisses(Windows(s, W), banks) == |frames|
      && |s| == |frames| * (high * L) * banks
  {
    SpreadLength(frames, high);
    Assoc(|frames|, high, L);
    SheetCmds(Spread(frames, high), banks, high, L, W);
    FramesRuns(frames, banks, high, L);
    SheetsLength(Spread(frames, high), banks, high, L);
    MissSandwich(SheetStream(Spread(frames, high), banks, high, L), banks, W);
    DistinctSize(frames);
  }

  lemma SheetArith(n: nat, banks: pos, L: pos)
    ensures n * (banks * L) == n * L * banks
  {
    Commute(banks, L);
    Assoc(n, L, banks);
  }

  /** Under host-cacheline, a sweep of whole distinct frames costs every channel exactly
      k * cols commands and k misses. */
  lemma FramesSwept(g: Geom, frames: seq<nat>, W: pos, c: nat)
    requires g.Valid() && c < g.channels && Distinct(frames) && g.FrameBursts() > 0
    requires Fits(frames, g.FrameBursts(), g.TotalBursts())
    requires W % (g.Banks() * LowCols(g)) == 0
    ensures var F := g.FrameBursts();
      var s := ChannelStream(g, HostCacheline, Addresses(frames, F, |frames| * F), c);
      && TotalCmds(Windows(s, W), g.Banks()) == |frames| * g.Cols()
      && TotalMisses(Windows(s, W), g.Banks()) == |frames|
      && |s| == |frames| * g.Cols() * g.Banks()
  {
    hide ChannelStream, Addresses, StripeStream, SheetStream, Spread, TotalCmds, TotalMisses, Windows, Geom.Valid, Fits;
    var h, b, L := HighCols(g), g.Banks(), LowCols(g);
    var F, spb := g.FrameBursts(), h * b;
    FrameStripes(g);
    var n := |frames| * spb;
    Assoc(|frames|, spb, Stripe(g));
    ChannelIsStripes(g, frames, spb, n, F, |frames| * F, c);
    FullSweep(frames, spb);
    SpreadTwice(frames, h, b);
    SheetsAreStripes(Spread(frames, h), b, h, L);
    FramesExact(frames, b, h, L, W);
    CachelineCols(g);
  }

  /** Under host-cacheline, a table that fills k distinct frames in ascending offset order
      gives every channel exactly k * cols commands and k misses, however small its blocks. */
  lemma AlignedExact(g: Geom, frames: seq<nat>, G: pos, u: pos, W: pos, c: nat)
    requires g.Valid() && c < g.channels && Distinct(frames)
    requires G * u == g.FrameBursts()
    requires Fits(Spread(frames, G), u, g.TotalBursts())
    requires W % (g.Banks() * LowCols(g)) == 0
    ensures var table := Spread(frames, G);
      var s := ChannelStream(g, HostCacheline, Addresses(table, u, |table| * u), c);
      && TotalCmds(Windows(s, W), g.Banks()) == |frames| * g.Cols()
      && TotalMisses(Windows(s, W), g.Banks()) == |frames|
      && |s| == |frames| * g.Cols() * g.Banks()
  {
    hide ChannelStream, Addresses, Spread, TotalCmds, TotalMisses, Windows, Geom.Valid, Fits;
    MulMono(1, G, u);
    SameAddresses(frames, G, u, g.FrameBursts());
    FramesFit(frames, G, u, g.FrameBursts(), g.TotalBursts());
    FramesSwept(g, frames, W, c);
  }

  /** Sweeping the blocks of whole frames is sweeping the frames. */
  lemma SameAddresses(frames: seq<nat>, G: pos, u: pos, F: pos)
    requires F == G * u
    ensures var table := Spread(frames, G);
      Addresses(table, u, |table| * u) == Addresses(frames, F, |frames| * F)
  {
    FullSweep(Spread(frames, G), u);
    SpreadTwice(frames, G, u);
    FullSweep(frames, F);
  }

  lemma {:induction false} SpreadMember(frames: seq<nat>, G: nat, i: nat, o: nat)
    requires i < |frames| && o < G
    ensures frames[i] * G + o in Spread(frames, G)
  {
    var n := |frames| - 1;
    var p, r := Spread(frames[..n], G), Run(frames[n] * G, G);
    if i < n {
      SpreadMember(frames[..n], G, i, o);
      assert frames[..n][i] * G + o in p;
    } else {
      assert r[o] == frames[i] * G + o;
      assert frames[i] * G + o in r;
    }
  }

  /** Frames fit when their blocks do. */
  lemma FramesFit(frames: seq<nat>, G: pos, u: pos, F: pos, total: nat)
    requires F == G * u && Fits(Spread(frames, G), u, total)
    ensures Fits(frames, F, total)
  {
    forall f | f in frames
      ensures f * F + F <= total
    {
      var i :| 0 <= i < |frames| && frames[i] == f;
      SpreadMember(frames, G, i, G - 1);
      LastBlock(f, G, u);
    }
  }

  lemma LastBlock(f: nat, G: pos, u: pos)
    ensures (f * G + (G - 1)) * u + u == f * (G * u) + G * u
  {
    MulDistributes(f * G, G - 1, u);
    MulDistributes(G - 1, 1, u);
    Assoc(f, G, u);
  }

  lemma CachelineCols(g: Geom)
    requires g.Valid()
    ensures g.Cols() == HighCols(g) * LowCols(g)
  {
    Widths(g);
    Pow2Add(BitsOf(g.Cols()) - CoLo(g), CoLo(g));
  }

  /** A frame is high * banks whole stripes. */
  lemma FrameStripes(g: Geom)
    requires g.Valid()
    ensures g.FrameBursts() == HighCols(g) * g.Banks() * Stripe(g)
  {
    CachelineCols(g);
    StripeArith(HighCols(g), g.Banks(), LowCols(g), g.channels);
  }

  lemma StripeArith(h: nat, b: nat, l: nat, ch: nat)
    ensures ch * b * (h * l) == h * b * (l * ch)
  {
    Assoc(ch * b, h, l);
    Assoc(h * b, l, ch);
    Swap(ch, b, h);
    Commute(ch, h);
    Swap(h, ch, b);
    Swap(h * b, ch, l);
  }
}
