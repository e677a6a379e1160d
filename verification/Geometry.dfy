// DRAM geometry and model shape with the sizes derived from them.
module Geometry {
  import opened Counting
  import opened Results
  import opened Bits

  datatype Geom = Geom(
    channels: pos, bankGroups: pos, banksPerGroup: pos,
    rowBytes: pos, burstBytes: pos, rowsPerBank: pos, cachelineBytes: pos)
  {
    predicate Valid() {
      && IsPow2(channels) && IsPow2(bankGroups) && IsPow2(banksPerGroup)
      && IsPow2(rowBytes) && IsPow2(burstBytes) && IsPow2(rowsPerBank) && IsPow2(cachelineBytes)
      && rowBytes % burstBytes == 0
      && cachelineBytes % burstBytes == 0
    }

    function Banks(): pos { bankGroups * banksPerGroup }

    function Cols(): nat { rowBytes / burstBytes }

    function RowgroupBytes(): nat { rowBytes * Banks() }

    function CapacityBytes(): nat { channels * Banks() * rowsPerBank * rowBytes }

    function TotalBursts(): nat {
      CapacityBytes() / burstBytes
    }

    /** Bytes and bursts of one row index across every bank of every channel. */
    function FrameBytes(): nat { RowgroupBytes() * channels }

    function FrameBursts(): nat {
      channels * Banks() * Cols()
    }
  }

  datatype Shape = Shape(kvHeads: nat, headDim: nat, dtypeBytes: nat) {
    function KvBytes(): nat { 2 * kvHeads * headDim * dtypeBytes }
  }

  /** Geometry and shape of one of n shards; the new geometry is checked like any other. */
  function ShardKv(g: Geom, s: Shape, n: nat): Result<(Geom, Shape)>
    requires n > 0
  {
    if n == 1 then Ok((g, s))
    else if g.channels % n != 0 || s.kvHeads % n != 0 then ValueError
    else
      MulMono(1, g.channels / n, n);
      var g' := g.(channels := g.channels / n);
      if g'.Valid() then Ok((g', s.(kvHeads := s.kvHeads / n))) else ValueError
  }

  /** Whole blocks per frame, or an error when neither size divides the other suitably. */
  function BlocksPer(frame: pos, block: pos): Result<nat> {
    if block >= frame then (if block % frame != 0 then ValueError else Ok(1))
    else if frame % block != 0 then ValueError
    else Ok(frame / block)
  }

  /** Blocks per alignment frame. */
  function FrameBlocksFor(g: Geom, s: Shape, blockTokens: nat): Result<nat>
    requires g.FrameBytes() > 0 && blockTokens * s.KvBytes() > 0
  {
    BlocksPer(g.FrameBytes(), blockTokens * s.KvBytes())
  }

  /** x is n times y. */
  predicate Multiple(x: nat, n: nat, y: nat) { x == n * y }

  lemma MultipleMod(x: nat, n: nat, y: pos)
    requires Multiple(x, n, y)
    ensures x % y == 0 && x / y == n
  {
    DivUnique(x, y, n, 0);
  }

  lemma ModMultiple(x: nat, y: pos)
    requires x % y == 0
    ensures x / y >= 0 && Multiple(x, x / y, y)
  {
    DivNat(x, y);
  }

  /** G blocks no larger than a frame fill one exactly when G is the answer; blocks that are
      whole frames are one a frame; all else is an error. */
  lemma FrameBlocksMeaning(g: Geom, s: Shape, blockTokens: nat)
    requires g.FrameBytes() > 0 && blockTokens * s.KvBytes() > 0
    ensures var frame, block := g.FrameBytes(), blockTokens * s.KvBytes();
      var r := FrameBlocksFor(g, s, blockTokens);
      && (block <= frame ==> forall G: nat :: r == Ok(G) <==> Multiple(frame, G, block))
      && (block >= frame ==> (r == Ok(1) <==> exists k: nat :: Multiple(block, k, frame)))
      && (block >= frame ==> r == Ok(1) || r == ValueError)
  {
    hide Multiple, Geom.FrameBytes;
    var frame, block := g.FrameBytes(), blockTokens * s.KvBytes();
    if block % frame == 0 { ModMultiple(block, frame); }
    if exists k: nat :: Multiple(block, k, frame) {
      var k: nat :| Multiple(block, k, frame);
      MultipleMod(block, k, frame);
    }
    if block == frame {
      DivUnique(frame, block, 1, 0);
      DivUnique(block, frame, 1, 0);
    }
    if frame % block == 0 { ModMultiple(frame, block); }
    forall G: nat | Multiple(frame, G, block)
      ensures frame % block == 0 && frame / block == G
    {
      MultipleMod(frame, G, block);
    }
  }

  lemma {:induction false} Pow2Less(a: nat, b: nat)
    requires a < b
    ensures Pow2(a) < Pow2(b)
  {
    if a + 1 < b {
      Pow2Less(a, b - 1);
    }
  }

  lemma Pow2Divides(a: nat, b: nat, x: nat, y: nat)
    requires x == Pow2(a) && y == Pow2(b) && x % y == 0
    ensures b <= a && x / y == Pow2(a - b) && x == x / y * y
  {
    if a < b {
      Pow2Less(a, b);
      DivUnique(x, y, 0, x);
      assert false;
    }
    Pow2Add(a - b, b);
    DivUnique(x, y, Pow2(a - b), 0);
  }

  /** Bit widths of the fields, for a valid geometry. */
  lemma Widths(g: Geom)
    requires g.Valid()
    ensures g.channels == Pow2(BitsOf(g.channels))
    ensures g.bankGroups == Pow2(BitsOf(g.bankGroups))
    ensures g.banksPerGroup == Pow2(BitsOf(g.banksPerGroup))
    ensures g.rowsPerBank == Pow2(BitsOf(g.rowsPerBank))
    ensures g.Cols() == Pow2(BitsOf(g.Cols()))
    ensures g.rowBytes == g.Cols() * g.burstBytes
    ensures g.cachelineBytes / g.burstBytes == Pow2(BitsOf(g.cachelineBytes / g.burstBytes))
  {
    Pow2Recognised(g.channels);
    Pow2Recognised(g.bankGroups);
    Pow2Recognised(g.banksPerGroup);
    Pow2Recognised(g.rowsPerBank);
    Pow2Recognised(g.burstBytes);
    QuotientWidth(g.rowBytes, g.burstBytes);
    QuotientWidth(g.cachelineBytes, g.burstBytes);
  }

  lemma {:induction false} BitsOfPow2(n: nat)
    ensures BitsOf(Pow2(n)) == n
  {
    if n > 0 {
      BitsOfPow2(n - 1);
    }
  }

  lemma QuotientWidth(x: nat, y: nat)
    requires IsPow2(x) && IsPow2(y) && x % y == 0
    ensures x / y == Pow2(BitsOf(x / y)) && x == x / y * y
  {
    Pow2Recognised(x);
    Pow2Recognised(y);
    Pow2Divides(BitsOf(x), BitsOf(y), x, y);
    BitsOfPow2(BitsOf(x) - BitsOf(y));
  }

  lemma CapacityArith(cb: nat, r: nat, c: nat, b: nat)
    ensures cb * r * (c * b) == cb * c * r * b
  {
    Assoc(cb * r, c, b);
    Swap(cb, r, c);
  }

  lemma FrameArith(c: nat, b: nat, banks: nat, ch: nat)
    ensures c * b * banks * ch == ch * banks * c * b
  {
    Assoc(c * b, banks, ch);
    Swap(1, banks, ch);
    Swap(c, b, ch * banks);
    Swap(1, c, ch * banks);
  }

  /** Capacity in bursts is channels x banks x columns x rows. */
  lemma TotalBurstsMeaning(g: Geom)
    requires g.Valid()
    ensures g.TotalBursts() == g.FrameBursts() * g.rowsPerBank
    ensures g.FrameBytes() == g.FrameBursts() * g.burstBytes
  {
    Widths(g);
    CapacityArith(g.channels * g.Banks(), g.rowsPerBank, g.Cols(), g.burstBytes);
    DivUnique(g.CapacityBytes(), g.burstBytes, g.FrameBursts() * g.rowsPerBank, 0);
    FrameArith(g.Cols(), g.burstBytes, g.Banks(), g.channels);
  }

  lemma Assoc(x: nat, y: nat, z: nat)
    ensures x * (y * z) == x * y * z
  {
  }

  lemma Swap(x: nat, y: nat, z: nat)
    ensures x * y * z == x * z * y
  {
  }
}
