// The bit-sliced address map: any layout of bit fields, LSB first, where a field may be
// split over several slots, is a bijection; the three schemes cover the geometry exactly.
module AddrMap {
  import opened Counting
  import opened Bits

  datatype Field = Ch | Bg | Ba | Ro | Co

  /** nb consecutive bits of a linear address, going to field f. */
  datatype Slot = Slot(f: Field, nb: nat)

  datatype Coords = Coords(ch: nat, bg: nat, ba: nat, ro: nat, co: nat) {
    function Get(f: Field): nat {
      match f
      case Ch => ch
      case Bg => bg
      case Ba => ba
      case Ro => ro
      case Co => co
    }

    function Put(f: Field, v: nat): Coords {
      match f
      case Ch => this.(ch := v)
      case Bg => this.(bg := v)
      case Ba => this.(ba := v)
      case Ro => this.(ro := v)
      case Co => this.(co := v)
    }
  }

  lemma SameCoords(c: Coords, d: Coords)
    requires forall f: Field :: c.Get(f) == d.Get(f)
    ensures c == d
  {
    assert c.Get(Ch) == d.Get(Ch) && c.Get(Bg) == d.Get(Bg) && c.Get(Ba) == d.Get(Ba);
    assert c.Get(Ro) == d.Get(Ro) && c.Get(Co) == d.Get(Co);
  }

  /** Bits taken by all slots, and by the slots of one field. */
  function Total(fs: seq<Slot>): nat {
    if fs == [] then 0 else Total(fs[..|fs| - 1]) + fs[|fs| - 1].nb
  }

  function Width(fs: seq<Slot>, f: Field): nat {
    if fs == [] then 0 else
    Width(fs[..|fs| - 1], f) + if fs[|fs| - 1].f == f then fs[|fs| - 1].nb else 0
  }

  /** Value of field f in address x: the chunks of f's slots, lowest first. */
  function Part(fs: seq<Slot>, x: nat, f: Field): nat {
    if fs == [] then 0 else
    var p, e := fs[..|fs| - 1], fs[|fs| - 1];
    Part(p, x, f) + if e.f == f then x / Pow2(Total(p)) % Pow2(e.nb) * Pow2(Width(p, f)) else 0
  }

  /** Address assembled from the field values. */
  function Whole(fs: seq<Slot>, c: Coords): nat {
    if fs == [] then 0 else
    var p, e := fs[..|fs| - 1], fs[|fs| - 1];
    Whole(p, c) + c.Get(e.f) / Pow2(Width(p, e.f)) % Pow2(e.nb) * Pow2(Total(p))
  }

  function Parts(fs: seq<Slot>, x: nat): Coords {
    Coords(Part(fs, x, Ch), Part(fs, x, Bg), Part(fs, x, Ba), Part(fs, x, Ro), Part(fs, x, Co))
  }

  // ---- map and inverse, as the loops compute them -------------------------

  /** One linear address through AddrMap.map's loop. */
  method Split(fs: seq<Slot>, lin: nat) returns (out: Coords)
    ensures out == Parts(fs, lin)
  {
    out := Coords(0, 0, 0, 0, 0);
    var inShift := Coords(0, 0, 0, 0, 0);
    var shift := 0;
    var i := 0;
    while i < |fs|
      invariant 0 <= i <= |fs|
      invariant shift == Total(fs[..i])
      invariant forall f: Field :: out.Get(f) == Part(fs[..i], lin, f)
      invariant forall f: Field :: inShift.Get(f) == Width(fs[..i], f)
    {
      var f, nb := fs[i].f, fs[i].nb;
      assert fs[..i + 1][..i] == fs[..i];
      PartBound(fs[..i], lin, f);
      if nb != 0 {
        var chunk := BitAnd(ShiftRight(lin, shift), Pow2(nb) - 1);
        MaskIsMod(ShiftRight(lin, shift), nb);
        OrIsAdd(out.Get(f), chunk, inShift.Get(f));
        out := out.Put(f, BitOr(out.Get(f), ShiftLeft(chunk, inShift.Get(f))));
        inShift := inShift.Put(f, inShift.Get(f) + nb);
        shift := shift + nb;
      } else {
        ZeroChunk(lin, Total(fs[..i]), Width(fs[..i], f));
      }
      i := i + 1;
    }
    assert fs[..i] == fs;
    SameCoords(out, Parts(fs, lin));
  }

  /** AddrMap.inverse's loop. */
  method Assemble(fs: seq<Slot>, c: Coords) returns (lin: nat)
    ensures lin == Whole(fs, c)
  {
    lin := 0;
    var inShift := Coords(0, 0, 0, 0, 0);
    var shift := 0;
    var i := 0;
    while i < |fs|
      invariant 0 <= i <= |fs|
      invariant shift == Total(fs[..i])
      invariant lin == Whole(fs[..i], c)
      invariant forall f: Field :: inShift.Get(f) == Width(fs[..i], f)
    {
      var f, nb := fs[i].f, fs[i].nb;
      assert fs[..i + 1][..i] == fs[..i];
      WholeBound(fs[..i], c);
      if nb != 0 {
        var chunk := BitAnd(ShiftRight(c.Get(f), inShift.Get(f)), Pow2(nb) - 1);
        MaskIsMod(ShiftRight(c.Get(f), inShift.Get(f)), nb);
        OrIsAdd(lin, chunk, shift);
        lin := BitOr(lin, ShiftLeft(chunk, shift));
        inShift := inShift.Put(f, inShift.Get(f) + nb);
        shift := shift + nb;
      } else {
        ZeroChunk(c.Get(f), Width(fs[..i], f), Total(fs[..i]));
      }
      i := i + 1;
    }
    assert fs[..i] == fs;
  }

  lemma ZeroChunk(x: nat, s: nat, t: nat)
    ensures x / Pow2(s) % Pow2(0) * Pow2(t) == 0
  {
    assert x / Pow2(s) % 1 == 0;
  }

  /** A chunk of n bits placed above s bits stays below s + n bits. */
  lemma ChunkBound(lo: nat, x: nat, s: nat, n: nat)
    requires lo < Pow2(s)
    ensures lo + x % Pow2(n) * Pow2(s) < Pow2(s + n)
  {
    Pow2Add(n, s);
    MulMono(x % Pow2(n) + 1, Pow2(n), Pow2(s));
  }

  lemma {:induction false} PartBound(fs: seq<Slot>, x: nat, f: Field)
    ensures Part(fs, x, f) < Pow2(Width(fs, f))
  {
    if fs != [] {
      var p, e := fs[..|fs| - 1], fs[|fs| - 1];
      PartBound(p, x, f);
      if e.f == f {
        ChunkBound(Part(p, x, f), x / Pow2(Total(p)), Width(p, f), e.nb);
      }
    }
  }

  lemma {:induction false} WholeBound(fs: seq<Slot>, c: Coords)
    ensures Whole(fs, c) < Pow2(Total(fs))
  {
    if fs != [] {
      var p, e := fs[..|fs| - 1], fs[|fs| - 1];
      WholeBound(p, c);
      ChunkBound(Whole(p, c), c.Get(e.f) / Pow2(Width(p, e.f)), Total(p), e.nb);
    }
  }

  // ---- the bijection -----------------------------------------------------

  /** The low a + b bits are the low a bits and the next b bits. */
  lemma LowBits(x: nat, a: nat, b: nat)
    ensures x % Pow2(a + b) == x % Pow2(a) + x / Pow2(a) % Pow2(b) * Pow2(a)
  {
    Pow2Add(a, b);
    ModSplit(x, Pow2(a), Pow2(b));
  }

  /** A chunk read back from lo + h * 2^a, and the part below it. */
  lemma ReadBack(lo: nat, h: nat, a: nat)
    requires lo < Pow2(a)
    ensures (lo + h * Pow2(a)) / Pow2(a) == h && (lo + h * Pow2(a)) % Pow2(a) == lo
  {
    DivUnique(lo + h * Pow2(a), Pow2(a), h, lo);
  }

  lemma ModIdem(x: nat, p: nat)
    requires p > 0
    ensures x % p % p == x % p
  {
    DivUnique(x % p, p, 0, x % p);
  }

  /** Low bits of a low part: reducing modulo a larger power first changes nothing. */
  lemma ModMod(x: nat, a: nat, b: nat)
    ensures x % Pow2(a + b) % Pow2(a) == x % Pow2(a)
    ensures x % Pow2(a + b) / Pow2(a) == x / Pow2(a) % Pow2(b)
  {
    LowBits(x, a, b);
    ReadBack(x % Pow2(a), x / Pow2(a) % Pow2(b), a);
  }

  /** A field's value only depends on the address bits the layout covers. */
  lemma {:induction false} PartMod(fs: seq<Slot>, x: nat, y: nat, f: Field)
    requires x % Pow2(Total(fs)) == y % Pow2(Total(fs))
    ensures Part(fs, x, f) == Part(fs, y, f)
  {
    if fs != [] {
      var p, e := fs[..|fs| - 1], fs[|fs| - 1];
      ModMod(x, Total(p), e.nb);
      ModMod(y, Total(p), e.nb);
      PartMod(p, x, y, f);
    }
  }

  /** The address only depends on the field bits the layout covers. */
  lemma {:induction false} WholeMod(fs: seq<Slot>, c: Coords, d: Coords)
    requires forall f: Field :: c.Get(f) % Pow2(Width(fs, f)) == d.Get(f) % Pow2(Width(fs, f))
    ensures Whole(fs, c) == Whole(fs, d)
  {
    if fs != [] {
      var p, e := fs[..|fs| - 1], fs[|fs| - 1];
      forall f: Field
        ensures c.Get(f) % Pow2(Width(p, f)) == d.Get(f) % Pow2(Width(p, f))
      {
        assert c.Get(f) % Pow2(Width(fs, f)) == d.Get(f) % Pow2(Width(fs, f));
        if e.f == f {
          ModMod(c.Get(f), Width(p, f), e.nb);
          ModMod(d.Get(f), Width(p, f), e.nb);
        }
      }
      WholeMod(p, c, d);
      assert c.Get(e.f) % Pow2(Width(fs, e.f)) == d.Get(e.f) % Pow2(Width(fs, e.f));
      ModMod(c.Get(e.f), Width(p, e.f), e.nb);
      ModMod(d.Get(e.f), Width(p, e.f), e.nb);
    }
  }

  lemma PartsGet(fs: seq<Slot>, x: nat, f: Field)
    ensures Parts(fs, x).Get(f) == Part(fs, x, f)
  {
  }

  lemma SmallMod(x: nat, p: nat)
    requires x < p
    ensures x % p == x
  {
    DivUnique(x, p, 0, x);
  }

  /** What the last slot adds to field f leaves the lower bits of f alone. */
  lemma PartLow(fs: seq<Slot>, x: nat, f: Field)
    requires fs != []
    ensures var p, e := fs[..|fs| - 1], fs[|fs| - 1];
      && Part(fs, x, f) % Pow2(Width(p, f)) == Part(p, x, f)
      && (e.f == f ==> Part(fs, x, f) / Pow2(Width(p, f)) % Pow2(e.nb) == x / Pow2(Total(p)) % Pow2(e.nb))
  {
    var p, e := fs[..|fs| - 1], fs[|fs| - 1];
    PartBound(p, x, f);
    if e.f == f {
      var chunk := x / Pow2(Total(p)) % Pow2(e.nb);
      ReadBack(Part(p, x, f), chunk, Width(p, f));
      ModIdem(x / Pow2(Total(p)), Pow2(e.nb));
    } else {
      SmallMod(Part(p, x, f), Pow2(Width(p, f)));
    }
  }

  /** Reassembling a split address gives its covered bits back. */
  lemma {:induction false} WholeOfParts(fs: seq<Slot>, x: nat)
    ensures Whole(fs, Parts(fs, x)) == x % Pow2(Total(fs))
  {
    if fs == [] {
      assert x % 1 == 0;
    } else {
      var p, e := fs[..|fs| - 1], fs[|fs| - 1];
      forall f: Field
        ensures Parts(fs, x).Get(f) % Pow2(Width(p, f)) == Parts(p, x).Get(f) % Pow2(Width(p, f))
      {
        PartsGet(fs, x, f);
        PartsGet(p, x, f);
        PartLow(fs, x, f);
        PartBound(p, x, f);
        SmallMod(Part(p, x, f), Pow2(Width(p, f)));
      }
      WholeMod(p, Parts(fs, x), Parts(p, x));
      WholeOfParts(p, x);
      PartsGet(fs, x, e.f);
      PartLow(fs, x, e.f);
      LowBits(x, Total(p), e.nb);
    }
  }

  lemma WholeLow(fs: seq<Slot>, c: Coords, lo: nat, t: nat, q: nat)
    requires fs != []
    requires var p, e := fs[..|fs| - 1], fs[|fs| - 1];
      lo == Whole(p, c) && t == Total(p) && q == c.Get(e.f) / Pow2(Width(p, e.f))
    ensures Whole(fs, c) % Pow2(t) == lo % Pow2(t)
    ensures Whole(fs, c) / Pow2(t) % Pow2(fs[|fs| - 1].nb) == q % Pow2(fs[|fs| - 1].nb)
  {
    var nb := fs[|fs| - 1].nb;
    WholeBound(fs[..|fs| - 1], c);
    ReadBack(lo, q % Pow2(nb), t);
    SmallMod(lo, Pow2(t));
    ModIdem(q, Pow2(nb));
  }

  /** Splitting an assembled address gives each field's covered bits back. */
  lemma {:induction false} PartsOfWhole(fs: seq<Slot>, c: Coords, f: Field)
    ensures Part(fs, Whole(fs, c), f) == c.Get(f) % Pow2(Width(fs, f))
  {
    if fs == [] {
      assert c.Get(f) % 1 == 0;
    } else {
      var p, e := fs[..|fs| - 1], fs[|fs| - 1];
      DivNat(c.Get(e.f), Pow2(Width(p, e.f)));
      WholeLow(fs, c, Whole(p, c), Total(p), c.Get(e.f) / Pow2(Width(p, e.f)));
      PartMod(p, Whole(fs, c), Whole(p, c), f);
      PartsOfWhole(p, c, f);
      if e.f == f {
        LowBits(c.Get(f), Width(p, f), e.nb);
      }
    }
  }
}
