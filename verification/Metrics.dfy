// sequence_metrics: the per-channel coalescers dispatched by mode and aggregated into the
// row-hit ratio M1 and the bank occupancy M2.
module Metrics {
  import opened Counting
  import opened Results
  import opened Commands
  import opened Windowed
  import opened InOrder

  datatype Access = Access(ch: nat, burst: Burst)

  datatype Counts = Counts(cmds: nat, hits: int, bursts: nat)

  datatype SeqMetrics = SeqMetrics(nBursts: nat, nCmds: nat, nHits: int, m1: real, m2: real)

  // ---- one channel -------------------------------------------------------

  /** What one channel's stream is worth in a mode. */
  ghost function ChannelCounts(s: seq<Burst>, B: pos, W: nat, mode: string): Result<Counts> {
    if s == [] then Ok(Counts(0, 0, 0))
    else if mode == "inorder" then Ok(Counts(Trues(Greedy(s, B)), HitCuts(s, Greedy(s, B)), |s|))
    else if mode != "window" || W == 0 then ValueError
    else Ok(Counts(TotalCmds(Windows(s, W), B), TotalCmds(Windows(s, W), B) - TotalMisses(Windows(s, W), B), |s|))
  }

  /** coalesce_channel. A zero window is range()'s ValueError. */
  method CoalesceChannel(s: seq<Burst>, B: pos, W: nat, mode: string) returns (r: Result<Counts>)
    ensures r == ChannelCounts(s, B, W, mode)
  {
    var n := |s|;
    if n == 0 {
      return Ok(Counts(0, 0, 0));
    }
    if mode == "inorder" {
      var c, h, k := CoalesceInOrder(s, B);
      return Ok(Counts(c, h, k));
    }
    if mode != "window" || W == 0 {
      return ValueError;
    }
    var c, h, k := CoalesceWindows(s, B, W);
    return Ok(Counts(c, h, k));
  }

  lemma OneMore(k: nat, B: nat)
    ensures k * B == (k - 1) * B + B
  {
    MulDistributes(k - 1, 1, B);
  }

  lemma {:induction false} CutsHold(s: seq<Burst>, c: Cuts, B: nat)
    requires LegalCuts(s, c, B) && s != []
    ensures Trues(c) > 0 && Start(c, |s| - 1) <= (Trues(c) - 1) * B
  {
    var n := |s| - 1;
    if n > 0 {
      LegalPrefix(s, c, B);
      CutsHold(s[..n], c[..n], B);
      assert c == c[..n] + [c[n]];
      InOrder.Snoc(c[..n], c[n]);
      assert LegalSegment(s[..n], Start(c[..n], n - 1), n, B);
      OneMore(Trues(c[..n]), B);
    } else {
      assert c == [] + [c[0]];
      InOrder.Snoc([], c[0]);
    }
  }

  /** In either mode commands bound hits, and hold at most B bursts each. */
  lemma CountsInRange(s: seq<Burst>, B: pos, W: nat, mode: string)
    requires BanksBelow(s, B) && ChannelCounts(s, B, W, mode).Ok?
    ensures var k := ChannelCounts(s, B, W, mode).value;
      InRange(k, B) && k.bursts == |s|
  {
    if s == [] {
    } else if mode == "inorder" {
      var c := Greedy(s, B);
      GreedyLegal(s, B);
      MissesAreRuns(s, c, B);
      CutsHold(s, c, B);
      assert LegalSegment(s, Start(c, |s| - 1), |s|, B);
      MulDistributes(Trues(c) - 1, 1, B);
    } else {
      MetricsInRange(s, B, W);
    }
  }

  // ---- all channels ------------------------------------------------------

  /** The bursts of channel c, in order. */
  function Select(xs: seq<Access>, c: nat): seq<Burst> {
    if xs == [] then [] else
    var x := xs[|xs| - 1];
    Select(xs[..|xs| - 1], c) + if x.ch == c then [x.burst] else []
  }

  /** np.unique of the channels. */
  function Channels(xs: seq<Access>): (cs: seq<nat>)
    ensures Ascending(cs)
  {
    if xs == [] then [] else Insert(Channels(xs[..|xs| - 1]), xs[|xs| - 1].ch)
  }

  ghost function Plus(a: Result<Counts>, b: Result<Counts>): Result<Counts> {
    if a.Ok? && b.Ok?
    then Ok(Counts(a.value.cmds + b.value.cmds, a.value.hits + b.value.hits, a.value.bursts + b.value.bursts))
    else ValueError
  }

  /** The sums over the channels cs, or the first channel's error. */
  ghost function Totals(xs: seq<Access>, cs: seq<nat>, B: pos, W: nat, mode: string): Result<Counts> {
    if cs == [] then Ok(Counts(0, 0, 0)) else
    Plus(Totals(xs, cs[..|cs| - 1], B, W, mode), ChannelCounts(Select(xs, cs[|cs| - 1]), B, W, mode))
  }

  /** a / b, or 0.0 when there is nothing to divide by. */
  function Ratio(a: int, b: int): real {
    if b == 0 then 0.0 else (a as real) / (b as real)
  }

  /** Row-hit ratio. */
  function M1(k: Counts): real { Ratio(k.hits, k.cmds) }

  /** Bank occupancy of the commands. */
  function M2(k: Counts, B: nat): real { Ratio(k.bursts, B * k.cmds) }

  lemma {:induction false} TotalsFail(xs: seq<Access>, cs: seq<nat>, i: nat, B: pos, W: nat, mode: string)
    requires i <= |cs| && Totals(xs, cs[..i], B, W, mode).ValueError?
    ensures Totals(xs, cs, B, W, mode).ValueError?
    decreases |cs|
  {
    if i < |cs| {
      assert cs[..|cs| - 1][..i] == cs[..i];
      TotalsFail(xs, cs[..|cs| - 1], i, B, W, mode);
    } else {
      assert cs[..i] == cs;
    }
  }

  /** sequence_metrics. */
  method SequenceMetrics(xs: seq<Access>, B: pos, W: nat, mode: string) returns (r: Result<SeqMetrics>)
    ensures var k := Totals(xs, Channels(xs), B, W, mode);
      && (r.Ok? <==> k.Ok?)
      && (k.Ok? ==> r.value == SeqMetrics(k.value.bursts, k.value.cmds, k.value.hits, M1(k.value), M2(k.value, B)))
  {
    hide ChannelCounts, Select, Channels;
    var cs := Channels(xs);
    var nCmds: nat, nHits, nBursts: nat := 0, 0, 0;
    for i := 0 to |cs|
      invariant Totals(xs, cs[..i], B, W, mode) == Ok(Counts(nCmds, nHits, nBursts))
    {
      assert cs[..i + 1][..i] == cs[..i];
      var k := CoalesceChannel(Select(xs, cs[i]), B, W, mode);
      assert Totals(xs, cs[..i + 1], B, W, mode) == Plus(Totals(xs, cs[..i], B, W, mode), k);
      if k.ValueError? {
        TotalsFail(xs, cs, i + 1, B, W, mode);
        return ValueError;
      }
      nCmds, nHits, nBursts := nCmds + k.value.cmds, nHits + k.value.hits, nBursts + k.value.bursts;
    }
    assert cs[..|cs|] == cs;
    var m1 := if nCmds != 0 then (nHits as real) / (nCmds as real) else 0.0;
    var m2 := Ratio(nBursts, B * nCmds);
    r := Ok(SeqMetrics(nBursts, nCmds, nHits, m1, m2));
  }

  // ---- what the metrics say ----------------------------------------------

  /** The channels are those that occur, ascending. */
  lemma {:induction false} ChannelsMeaning(xs: seq<Access>)
    ensures Ascending(Channels(xs))
    ensures forall c: nat :: c in Channels(xs) <==> Select(xs, c) != []
  {
    if xs != [] {
      hide Insert;
      var p, k := Channels(xs[..|xs| - 1]), xs[|xs| - 1].ch;
      ChannelsMeaning(xs[..|xs| - 1]);
      InsertElems(p, k);
      forall c: nat
        ensures c in Channels(xs) <==> c in p || c == k
      {
        assert c in Channels(xs) <==> c in Elems(Insert(p, k));
        assert c in p <==> c in Elems(p);
      }
    }
  }

  /** Bursts selected by the channels of cs. */
  function SelectedBy(xs: seq<Access>, cs: seq<nat>): nat {
    if cs == [] then 0 else SelectedBy(xs, cs[..|cs| - 1]) + |Select(xs, cs[|cs| - 1])|
  }

  lemma {:induction false} SelectedSnoc(xs: seq<Access>, x: Access, cs: seq<nat>)
    requires Distinct(cs)
    ensures SelectedBy(xs + [x], cs) == SelectedBy(xs, cs) + Bit(x.ch in cs)
  {
    assert (xs + [x])[..|xs|] == xs;
    if cs != [] {
      var p := cs[..|cs| - 1];
      assert cs == p + [cs[|cs| - 1]];
      SelectedSnoc(xs, x, p);
    }
  }

  /** Every burst belongs to exactly one of the channels. */
  lemma {:induction false} AllSelected(xs: seq<Access>, cs: seq<nat>)
    requires Distinct(cs) && forall i | 0 <= i < |xs| :: xs[i].ch in cs
    ensures SelectedBy(xs, cs) == |xs|
  {
    if xs == [] {
      NoneSelected(cs);
    } else {
      var p, x := xs[..|xs| - 1], xs[|xs| - 1];
      assert xs == p + [x];
      AllSelected(p, cs);
      SelectedSnoc(p, x, cs);
    }
  }

  lemma {:induction false} NoneSelected(cs: seq<nat>)
    ensures SelectedBy([], cs) == 0
  {
    if cs != [] {
      NoneSelected(cs[..|cs| - 1]);
    }
  }

  ghost predicate AccessesBelow(xs: seq<Access>, B: nat) {
    forall i | 0 <= i < |xs| :: xs[i].burst.bank < B
  }

  lemma {:induction false} SelectBelow(xs: seq<Access>, c: nat, B: nat)
    requires AccessesBelow(xs, B)
    ensures BanksBelow(Select(xs, c), B)
  {
    if xs != [] {
      SelectBelow(xs[..|xs| - 1], c, B);
    }
  }

  lemma {:induction false} TotalsInRange(xs: seq<Access>, cs: seq<nat>, B: pos, W: nat, mode: string)
    requires AccessesBelow(xs, B) && Totals(xs, cs, B, W, mode).Ok?
    ensures var k := Totals(xs, cs, B, W, mode).value;
      InRange(k, B) && k.bursts == SelectedBy(xs, cs)
  {
    hide ChannelCounts, Select;
    if cs != [] {
      var p, c := cs[..|cs| - 1], cs[|cs| - 1];
      TotalsInRange(xs, p, B, W, mode);
      SelectBelow(xs, c, B);
      CountsInRange(Select(xs, c), B, W, mode);
      PlusInRange(Totals(xs, p, B, W, mode), ChannelCounts(Select(xs, c), B, W, mode), B);
    }
  }

  ghost predicate InRange(k: Counts, B: nat) {
    0 <= k.hits <= k.cmds && k.bursts <= k.cmds * B
  }

  lemma PlusInRange(a: Result<Counts>, b: Result<Counts>, B: nat)
    requires a.Ok? && b.Ok? && InRange(a.value, B) && InRange(b.value, B)
    ensures InRange(Plus(a, b).value, B)
  {
    MulDistributes(a.value.cmds, b.value.cmds, B);
  }

  /** A quotient of x by a larger y lies in [0, 1]. */
  lemma QuotientBounds(x: real, y: real, q: real)
    requires 0.0 <= x <= y && y > 0.0 && q == x / y
    ensures 0.0 <= q <= 1.0
  {
    assert q * y == x;
    if q > 1.0 { RealMulMono(1.0, q, y); }
    if q < 0.0 { RealMulMono(q, 0.0, y); }
  }

  lemma RealMulMono(p: real, q: real, y: real)
    requires p < q && y > 0.0
    ensures p * y < q * y
  {
    assert (q - p) * y > 0.0;
  }

  lemma RatioInRange(a: int, b: nat)
    requires 0 <= a <= b
    ensures 0.0 <= Ratio(a, b) <= 1.0
  {
    if b > 0 {
      QuotientBounds(a as real, b as real, Ratio(a, b));
    }
  }

  /** Both metrics are ratios in [0, 1], and every burst of the sweep is counted once. */
  lemma MetricsAreRatios(xs: seq<Access>, B: pos, W: nat, mode: string)
    requires AccessesBelow(xs, B) && Totals(xs, Channels(xs), B, W, mode).Ok?
    ensures var k := Totals(xs, Channels(xs), B, W, mode).value;
      k.bursts == |xs| && 0.0 <= M1(k) <= 1.0 && 0.0 <= M2(k, B) <= 1.0
  {
    var cs := Channels(xs);
    var k := Totals(xs, cs, B, W, mode).value;
    TotalsInRange(xs, cs, B, W, mode);
    ChannelsMeaning(xs);
    forall i | 0 <= i < |xs|
      ensures xs[i].ch in cs
    {
      SelectHas(xs, i);
    }
    AllSelected(xs, cs);
    RatioInRange(k.hits, k.cmds);
    RatioInRange(k.bursts, B * k.cmds);
  }

  lemma {:induction false} SelectHas(xs: seq<Access>, i: nat)
    requires i < |xs|
    ensures Select(xs, xs[i].ch) != []
  {
    if i < |xs| - 1 {
      SelectHas(xs[..|xs| - 1], i);
    }
  }

  /** An error means an unknown mode or a zero window, on a non-empty sweep. */
  lemma ErrorMeaning(xs: seq<Access>, B: pos, W: nat, mode: string)
    ensures Totals(xs, Channels(xs), B, W, mode).ValueError? <==>
              xs != [] && mode != "inorder" && (mode != "window" || W == 0)
  {
    ChannelsMeaning(xs);
    var cs := Channels(xs);
    if xs == [] {
    } else {
      SelectHas(xs, 0);
      assert xs[0].ch in cs;
      var c := cs[0];
      assert c in cs;
      if mode != "inorder" && (mode != "window" || W == 0) {
        assert cs[..1][..0] == [];
        assert Totals(xs, cs[..1], B, W, mode).ValueError?;
        TotalsFail(xs, cs, 1, B, W, mode);
      } else {
        NeverFails(xs, cs, B, W, mode);
      }
    }
  }

  lemma {:induction false} NeverFails(xs: seq<Access>, cs: seq<nat>, B: pos, W: nat, mode: string)
    requires mode == "inorder" || (mode == "window" && W > 0)
    ensures Totals(xs, cs, B, W, mode).Ok?
  {
    if cs != [] {
      NeverFails(xs, cs[..|cs| - 1], B, W, mode);
    }
  }
}
