// The three interleaving schemes: they cover the geometry exactly, so mapping is a
// bijection, and closed forms for row, bank and channel.
module Schemes {
  import opened Counting
  import opened Results
  import opened Bits
  import opened Geometry
  import opened AddrMap

  datatype Scheme = HostCentric | HostCacheline | PimFriendly

  /** Low column bits of the cacheline interleave. */
  function CoLo(g: Geom): nat {
    Min(BitsOf(g.cachelineBytes / g.burstBytes), BitsOf(g.Cols()))
  }

  function Fields(g: Geom, scheme: Scheme): seq<Slot> {
    var ch, bg, ba := BitsOf(g.channels), BitsOf(g.bankGroups), BitsOf(g.banksPerGroup);
    var ro, co := BitsOf(g.rowsPerBank), BitsOf(g.Cols());
    match scheme
    case HostCentric => [Slot(Co, co), Slot(Ch, ch), Slot(Ba, ba), Slot(Bg, bg), Slot(Ro, ro)]
    case HostCacheline =>
      [Slot(Co, CoLo(g)), Slot(Ch, ch), Slot(Ba, ba), Slot(Bg, bg), Slot(Co, co - CoLo(g)), Slot(Ro, ro)]
    case PimFriendly => [Slot(Ba, ba), Slot(Bg, bg), Slot(Co, co), Slot(Ro, ro), Slot(Ch, ch)]
  }

  // ---- a layout read from its lowest slot --------------------------------

  lemma {:induction false} ConsWidths(a: Slot, r: seq<Slot>, f: Field)
    ensures Total([a] + r) == a.nb + Total(r)
    ensures Width([a] + r, f) == (if a.f == f then a.nb else 0) + Width(r, f)
  {
    if r == [] {
      assert ([a] + r)[..0] == [];
    } else {
      ConsWidths(a, r[..|r| - 1], f);
      assert ([a] + r)[..|r|] == [a] + r[..|r| - 1];
    }
  }

  lemma DivDiv(x: nat, a: nat, b: nat)
    ensures x / Pow2(a + b) == x / Pow2(a) / Pow2(b)
  {
    Pow2Add(a, b);
    ModSplit(x, Pow2(a), Pow2(b));
  }

  /** The contribution of one slot placed above the layout p. */
  function Above(p: seq<Slot>, e: Slot, x: nat, f: Field): int {
    if e.f == f then ShiftRight(x, Total(p)) % Pow2(e.nb) * Pow2(Width(p, f)) else 0
  }

  lemma PartSnoc(p: seq<Slot>, e: Slot, x: nat, f: Field)
    ensures Part(p + [e], x, f) == Part(p, x, f) + Above(p, e, x, f)
  {
    assert (p + [e])[..|p|] == p;
  }

  lemma AboveCons(a: Slot, p: seq<Slot>, e: Slot, x: nat, f: Field)
    ensures Above([a] + p, e, x, f) == Above(p, e, ShiftRight(x, a.nb), f) * if a.f == f then Pow2(a.nb) else 1
  {
    ConsWidths(a, p, f);
    DivDiv(x, a.nb, Total(p));
    if e.f == f && a.f == f {
      Pow2Add(a.nb, Width(p, f));
      MulRotate(ShiftRight(ShiftRight(x, a.nb), Total(p)) % Pow2(e.nb), Pow2(a.nb), Pow2(Width(p, f)));
    }
  }

  lemma MulRotate(c: int, p: nat, q: nat)
    ensures c * (p * q) == c * q * p
  {
  }

  /** The lowest slot takes the lowest bits; the rest of the layout sees x shifted. */
  lemma {:induction false} ConsPart(a: Slot, r: seq<Slot>, x: nat, f: Field)
    ensures Part([a] + r, x, f) ==
            if a.f == f then x % Pow2(a.nb) + Part(r, ShiftRight(x, a.nb), f) * Pow2(a.nb)
            else Part(r, ShiftRight(x, a.nb), f)
  {
    if r == [] {
      PartSnoc([], a, x, f);
      assert ShiftRight(x, 0) == x;
      assert [a] + r == [] + [a];
    } else {
      var p, e := r[..|r| - 1], r[|r| - 1];
      ConsPart(a, p, x, f);
      PartSnoc([a] + p, e, x, f);
      assert [a] + r == ([a] + p) + [e] && r == p + [e];
      PartSnoc(p, e, ShiftRight(x, a.nb), f);
      AboveCons(a, p, e, x, f);
      MulDistributes(Part(p, ShiftRight(x, a.nb), f), Above(p, e, ShiftRight(x, a.nb), f), Pow2(a.nb));
    }
  }

  // ---- the schemes cover the geometry ------------------------------------

  function At(s: Slot, f: Field): nat { if s.f == f then s.nb else 0 }

  lemma TwoSlots(a: Slot, b: Slot, r: seq<Slot>, f: Field)
    ensures Total([a, b] + r) == a.nb + b.nb + Total(r)
    ensures Width([a, b] + r, f) == At(a, f) + At(b, f) + Width(r, f)
  {
    assert [a, b] + r == [a] + ([b] + r);
    ConsWidths(a, [b] + r, f);
    ConsWidths(b, r, f);
  }

  lemma OneSlot(a: Slot, f: Field)
    ensures Total([a]) == a.nb && Width([a], f) == At(a, f)
  {
    assert [a] == [a] + [];
    ConsWidths(a, [], f);
  }

  lemma FiveSlots(a: Slot, b: Slot, c: Slot, d: Slot, e: Slot, f: Field)
    ensures Total([a, b, c, d, e]) == a.nb + b.nb + c.nb + d.nb + e.nb
    ensures Width([a, b, c, d, e], f) == At(a, f) + At(b, f) + At(c, f) + At(d, f) + At(e, f)
  {
    OneSlot(e, f);
    TwoSlots(c, d, [e], f);
    assert [c, d] + [e] == [c, d, e];
    TwoSlots(a, b, [c, d, e], f);
    assert [a, b] + [c, d, e] == [a, b, c, d, e];
  }

  lemma SixSlots(a: Slot, b: Slot, c: Slot, d: Slot, e: Slot, h: Slot, f: Field)
    ensures Total([a, b, c, d, e, h]) == a.nb + b.nb + c.nb + d.nb + e.nb + h.nb
    ensures Width([a, b, c, d, e, h], f) == At(a, f) + At(b, f) + At(c, f) + At(d, f) + At(e, f) + At(h, f)
  {
    FiveSlots(b, c, d, e, h, f);
    ConsWidths(a, [b, c, d, e, h], f);
    assert [a] + [b, c, d, e, h] == [a, b, c, d, e, h];
  }

  /** Number of values field f takes. */
  function Size(g: Geom, f: Field): nat {
    match f
    case Ch => g.channels
    case Bg => g.bankGroups
    case Ba => g.banksPerGroup
    case Ro => g.rowsPerBank
    case Co => g.Cols()
  }

  /** Bits of field f. */
  function SizeBits(g: Geom, f: Field): nat {
    BitsOf(Size(g, f))
  }

  function AllBits(g: Geom): nat {
    BitsOf(g.channels) + BitsOf(g.bankGroups) + BitsOf(g.banksPerGroup) + BitsOf(g.rowsPerBank) + BitsOf(g.Cols())
  }

  lemma SchemeWidths(g: Geom, scheme: Scheme, f: Field)
    ensures Width(Fields(g, scheme), f) == SizeBits(g, f)
    ensures Total(Fields(g, scheme)) == AllBits(g)
  {
    var ch, bg, ba := BitsOf(g.channels), BitsOf(g.bankGroups), BitsOf(g.banksPerGroup);
    var ro, co, l := BitsOf(g.rowsPerBank), BitsOf(g.Cols()), CoLo(g);
    match scheme
    case HostCentric => FiveSlots(Slot(Co, co), Slot(Ch, ch), Slot(Ba, ba), Slot(Bg, bg), Slot(Ro, ro), f);
    case HostCacheline =>
      SixSlots(Slot(Co, l), Slot(Ch, ch), Slot(Ba, ba), Slot(Bg, bg), Slot(Co, co - l), Slot(Ro, ro), f);
    case PimFriendly => FiveSlots(Slot(Ba, ba), Slot(Bg, bg), Slot(Co, co), Slot(Ro, ro), Slot(Ch, ch), f);
  }

  lemma FieldWidths(g: Geom, scheme: Scheme, f: Field)
    requires g.Valid()
    ensures Pow2(Width(Fields(g, scheme), f)) == Size(g, f)
  {
    Widths(g);
    SchemeWidths(g, scheme, f);
  }

  lemma FourBits(a: nat, b: nat, c: nat, d: nat)
    ensures Pow2(a + b + c + d) == Pow2(a) * (Pow2(b) * Pow2(c)) * Pow2(d)
  {
    Pow2Add(b, c);
    Pow2Add(a, b + c);
    Pow2Add(a + (b + c), d);
  }

  /** Below the row bits the layout addresses exactly one frame. */
  lemma FrameBits(g: Geom)
    requires g.Valid()
    ensures Pow2(AllBits(g) - BitsOf(g.rowsPerBank)) == g.FrameBursts() > 0
    ensures g.TotalBursts() == g.FrameBursts() * g.rowsPerBank
  {
    Widths(g);
    TotalBurstsMeaning(g);
    FourBits(BitsOf(g.channels), BitsOf(g.bankGroups), BitsOf(g.banksPerGroup), BitsOf(g.Cols()));
  }

  /** The constructor's assertion: the layout has exactly as many bits as there are bursts, and
      each field those of its size. */
  lemma LayoutCovers(g: Geom, scheme: Scheme)
    requires g.Valid()
    ensures Pow2(Total(Fields(g, scheme))) == g.TotalBursts()
    ensures forall f: Field :: Pow2(Width(Fields(g, scheme), f)) == Size(g, f)
  {
    forall f: Field
      ensures Pow2(Width(Fields(g, scheme), f)) == Size(g, f)
    {
      FieldWidths(g, scheme, f);
    }
    SchemeWidths(g, scheme, Ch);
    FrameBits(g);
    Widths(g);
    Pow2Add(AllBits(g) - BitsOf(g.rowsPerBank), BitsOf(g.rowsPerBank));
  }

  ghost predicate InRange(g: Geom, c: Coords) {
    forall f: Field :: c.Get(f) < Size(g, f)
  }

  /** Mapping is a bijection between burst indices and in-range coordinates. */
  lemma Bijection(g: Geom, scheme: Scheme)
    requires g.Valid()
    ensures var fs := Fields(g, scheme);
      && (forall x: nat | x < g.TotalBursts() :: InRange(g, Parts(fs, x)) && Whole(fs, Parts(fs, x)) == x)
      && (forall c | InRange(g, c) :: Whole(fs, c) < g.TotalBursts() && Parts(fs, Whole(fs, c)) == c)
  {
    var fs := Fields(g, scheme);
    LayoutCovers(g, scheme);
    forall x: nat | x < g.TotalBursts()
      ensures InRange(g, Parts(fs, x)) && Whole(fs, Parts(fs, x)) == x
    {
      WholeOfParts(fs, x);
      SmallMod(x, g.TotalBursts());
      forall f: Field
        ensures Parts(fs, x).Get(f) < Size(g, f)
      {
        FieldWidths(g, scheme, f);
        PartBound(fs, x, f);
        PartsGet(fs, x, f);
      }
    }
    forall c | InRange(g, c)
      ensures Whole(fs, c) < g.TotalBursts() && Parts(fs, Whole(fs, c)) == c
    {
      WholeBound(fs, c);
      forall f: Field
        ensures Parts(fs, Whole(fs, c)).Get(f) == c.Get(f)
      {
        FieldWidths(g, scheme, f);
        PartsOfWhole(fs, c, f);
        PartsGet(fs, Whole(fs, c), f);
        SmallMod(c.Get(f), Size(g, f));
      }
      SameCoords(Parts(fs, Whole(fs, c)), c);
    }
  }

  /** AddrMap.map on one address, with its range check. */
  method Map(g: Geom, scheme: Scheme, lin: int) returns (r: Result<Coords>)
    requires g.Valid()
    ensures r.Ok? <==> 0 <= lin < g.TotalBursts()
    ensures r.Ok? ==> r.value == Parts(Fields(g, scheme), lin)
  {
    if lin < 0 || lin >= g.TotalBursts() {
      return ValueError;
    }
    var out := Split(Fields(g, scheme), lin);
    r := Ok(out);
  }

  // ---- closed forms ------------------------------------------------------

  /** Bursts of one cacheline stripe across all channels. */
  function LowCols(g: Geom): pos {
    Pow2(CoLo(g))
  }

  function Stripe(g: Geom): pos {
    LowCols(g) * g.channels
  }

  function HighCols(g: Geom): pos {
    Pow2(BitsOf(g.Cols()) - CoLo(g))
  }

  function FlatBank(g: Geom, c: Coords): nat { c.bg * g.banksPerGroup + c.ba }

  lemma ShrShr(x: nat, a: nat, b: nat)
    ensures ShiftRight(ShiftRight(x, a), b) == ShiftRight(x, a + b)
  {
    DivDiv(x, a, b);
  }

  lemma RowField(x: nat, ro: nat, f: Field)
    ensures Part([Slot(Ro, ro)], x, f) == if f == Ro then x % Pow2(ro) else 0
  {
    assert [Slot(Ro, ro)] == [Slot(Ro, ro)] + [];
    ConsPart(Slot(Ro, ro), [], x, f);
  }

  function CachelineLayout(l: nat, ch: nat, ba: nat, bg: nat, h: nat, ro: nat): seq<Slot> {
    [Slot(Co, l), Slot(Ch, ch), Slot(Ba, ba), Slot(Bg, bg), Slot(Co, h), Slot(Ro, ro)]
  }

  /** The bits host-cacheline gives field f, as shifts of the address. */
  function CachelinePart(l: nat, ch: nat, ba: nat, bg: nat, h: nat, ro: nat, x: nat, f: Field): int {
    match f
    case Co => x % Pow2(l) + ShiftRight(x, l + ch + ba + bg) % Pow2(h) * Pow2(l)
    case Ch => ShiftRight(x, l) % Pow2(ch)
    case Ba => ShiftRight(x, l + ch) % Pow2(ba)
    case Bg => ShiftRight(x, l + ch + ba) % Pow2(bg)
    case Ro => ShiftRight(x, l + ch + ba + bg + h) % Pow2(ro)
  }

  function UpperPart(bg: nat, h: nat, ro: nat, x: nat, f: Field): int {
    match f
    case Bg => x % Pow2(bg)
    case Co => ShiftRight(x, bg) % Pow2(h)
    case Ro => ShiftRight(x, bg + h) % Pow2(ro)
    case _ => 0
  }

  lemma UpperParts(bg: nat, h: nat, ro: nat, x: nat, f: Field)
    ensures Part([Slot(Bg, bg), Slot(Co, h), Slot(Ro, ro)], x, f) == UpperPart(bg, h, ro, x, f)
  {
    var s4, s5, s6 := Slot(Bg, bg), Slot(Co, h), Slot(Ro, ro);
    assert [s5, s6] == [s5] + [s6];
    assert [s4, s5, s6] == [s4] + [s5, s6];
    ShrShr(x, bg, h);
    ConsPart(s4, [s5, s6], x, f);
    ConsPart(s5, [s6], ShiftRight(x, bg), f);
    RowField(ShiftRight(x, bg + h), ro, f);
  }

  /** host-cacheline, field by field, from the lowest slot up. */
  lemma CachelineParts(l: nat, ch: nat, ba: nat, bg: nat, h: nat, ro: nat, x: nat, f: Field)
    ensures Part(CachelineLayout(l, ch, ba, bg, h, ro), x, f) == CachelinePart(l, ch, ba, bg, h, ro, x, f)
  {
    var s1, s2, s3 := Slot(Co, l), Slot(Ch, ch), Slot(Ba, ba);
    var r4 := [Slot(Bg, bg), Slot(Co, h), Slot(Ro, ro)];
    assert CachelineLayout(l, ch, ba, bg, h, ro) == [s1] + ([s2] + ([s3] + r4));
    ShrShr(x, l, ch);
    ShrShr(x, l + ch, ba);
    ShrShr(x, l + ch + ba, bg);
    ShrShr(x, l + ch + ba, bg + h);
    ConsPart(s1, [s2] + ([s3] + r4), x, f);
    ConsPart(s2, [s3] + r4, ShiftRight(x, l), f);
    ConsPart(s3, r4, ShiftRight(x, l + ch), f);
    UpperParts(bg, h, ro, ShiftRight(x, l + ch + ba), f);
  }

  lemma QuotientBelow(x: nat, a: nat, b: nat)
    requires a > 0 && x < a * b
    ensures 0 <= x / a < b
  {
    DivNat(x, a);
    if x / a >= b { MulMono(b, x / a, a); }
  }

  /** When all row bits are on top, the row is the frame number of the burst. */
  lemma TopRow(p: seq<Slot>, ro: nat, x: nat)
    requires Width(p, Ro) == 0
    ensures Part(p + [Slot(Ro, ro)], x, Ro) == x / Pow2(Total(p)) % Pow2(ro)
  {
    PartSnoc(p, Slot(Ro, ro), x, Ro);
    PartBound(p, x, Ro);
  }

  /** Under both host maps a burst's row is its address divided by the frame size. */
  lemma RowIsFrame(g: Geom, scheme: Scheme, x: nat)
    requires g.Valid() && scheme != PimFriendly && x < g.TotalBursts()
    ensures g.FrameBursts() > 0 && Parts(Fields(g, scheme), x).ro == x / g.FrameBursts()
  {
    var fs, ro := Fields(g, scheme), BitsOf(g.rowsPerBank);
    var p := fs[..|fs| - 1];
    assert fs == p + [Slot(Ro, ro)];
    SchemeWidths(g, scheme, Ro);
    FrameBits(g);
    TopRow(p, ro, x);
    Widths(g);
    QuotientBelow(x, g.FrameBursts(), g.rowsPerBank);
    SmallMod(x / g.FrameBursts(), g.rowsPerBank);
  }

  /** Field f of a burst under host-cacheline. */
  lemma CachelineField(g: Geom, x: nat, f: Field)
    ensures BitsOf(g.Cols()) >= CoLo(g)
    ensures Parts(Fields(g, HostCacheline), x).Get(f)
         == CachelinePart(CoLo(g), BitsOf(g.channels), BitsOf(g.banksPerGroup), BitsOf(g.bankGroups),
                          BitsOf(g.Cols()) - CoLo(g), BitsOf(g.rowsPerBank), x, f)
  {
    hide Part, BitsOf, CachelinePart;
    var l, ch, ba, bg := CoLo(g), BitsOf(g.channels), BitsOf(g.banksPerGroup), BitsOf(g.bankGroups);
    var h, ro := BitsOf(g.Cols()) - l, BitsOf(g.rowsPerBank);
    assert Fields(g, HostCacheline) == CachelineLayout(l, ch, ba, bg, h, ro);
    CachelineParts(l, ch, ba, bg, h, ro, x, f);
    PartsGet(Fields(g, HostCacheline), x, f);
  }

  /** A burst's stripe drops its low column and channel bits. */
  lemma StripeShift(g: Geom, x: nat)
    requires g.Valid()
    ensures x / Stripe(g) == ShiftRight(x, CoLo(g) + BitsOf(g.channels))
  {
    hide BitsOf, CoLo;
    Widths(g);
    Pow2Add(CoLo(g), BitsOf(g.channels));
  }

  lemma CachelineLow(g: Geom, x: nat)
    requires g.Valid()
    ensures Parts(Fields(g, HostCacheline), x).ch == x / LowCols(g) % g.channels
  {
    hide Part, Fields, BitsOf, CoLo;
    Widths(g);
    CachelineField(g, x, Ch);
  }

  lemma CachelineBank(g: Geom, x: nat)
    requires g.Valid()
    ensures FlatBank(g, Parts(Fields(g, HostCacheline), x)) == x / Stripe(g) % g.Banks()
  {
    hide Part, Fields, BitsOf, CoLo, Pow2;
    Widths(g);
    CachelineField(g, x, Ba);
    CachelineField(g, x, Bg);
    StripeShift(g, x);
    StripeBank(x, x / Stripe(g),
        CoLo(g) + BitsOf(g.channels), BitsOf(g.banksPerGroup), BitsOf(g.bankGroups), g.Banks());
  }

  /** The bits above the bank digits. */
  lemma AboveBanks(g: Geom, x: nat)
    requires g.Valid()
    ensures ShiftRight(x, CoLo(g) + BitsOf(g.channels) + BitsOf(g.banksPerGroup) + BitsOf(g.bankGroups))
         == x / Stripe(g) / g.Banks()
  {
    hide BitsOf, CoLo, Pow2;
    Widths(g);
    StripeShift(g, x);
    StripeAbove(x, x / Stripe(g), CoLo(g) + BitsOf(g.channels), BitsOf(g.banksPerGroup), BitsOf(g.bankGroups));
    Pow2Add(BitsOf(g.bankGroups), BitsOf(g.banksPerGroup));
  }

  lemma CachelineHigh(g: Geom, x: nat)
    requires g.Valid() && x < g.TotalBursts()
    ensures g.Cols() == LowCols(g) * HighCols(g)
    ensures var c, y := Parts(Fields(g, HostCacheline), x), x / Stripe(g);
      && c.co == x % LowCols(g) + y / g.Banks() % HighCols(g) * LowCols(g)
      && c.ro == y / g.Banks() / HighCols(g)
  {
    hide Part, Fields, BitsOf, Pow2, Geom.Valid;
    var l, ch, ba, bg := CoLo(g), BitsOf(g.channels), BitsOf(g.banksPerGroup), BitsOf(g.bankGroups);
    var h := BitsOf(g.Cols()) - l;
    Widths(g);
    CachelineField(g, x, Co);
    CachelineField(g, x, Ro);
    AboveBanks(g, x);
    ShrShr(x, l + ch + ba + bg, h);
    CachelineRow(g, x, l, ch, ba, bg, h);
    Pow2Add(l, h);
  }

  /** A burst's coordinates under host-cacheline, from its stripe y = x / Stripe. */
  lemma CachelineForm(g: Geom, x: nat)
    requires g.Valid() && x < g.TotalBursts()
    ensures g.Cols() == LowCols(g) * HighCols(g)
    ensures var c, y := Parts(Fields(g, HostCacheline), x), x / Stripe(g);
      && c.ch == x / LowCols(g) % g.channels
      && FlatBank(g, c) == y % g.Banks()
      && c.co == x % LowCols(g) + y / g.Banks() % HighCols(g) * LowCols(g)
      && c.ro == y / g.Banks() / HighCols(g)
  {
    hide Parts, Fields, BitsOf, Pow2, Geom.Valid, FlatBank, LowCols, HighCols, Stripe;
    CachelineLow(g, x);
    CachelineBank(g, x);
    CachelineHigh(g, x);
  }

  lemma Commute(p: int, q: int)
    ensures p * q == q * p
  {
  }

  /** The bank-group and bank digits of y form one flat bank number. */
  lemma BankDigits(y: nat, p: nat, q: nat, banks: nat)
    requires p > 0 && q > 0 && banks == q * p
    ensures banks > 0
    ensures y / p % q * p + y % p == y % banks
    ensures y / p / q == y / banks
  {
    Commute(p, q);
    ModSplit(y, p, q);
  }

  lemma StripeBank(x: nat, y: nat, s: nat, ba: nat, bg: nat, banks: nat)
    requires y == ShiftRight(x, s) && banks == Pow2(bg) * Pow2(ba)
    ensures banks > 0
    ensures ShiftRight(x, s + ba) % Pow2(bg) * Pow2(ba) + y % Pow2(ba) == y % banks
  {
    BankDigits(y, Pow2(ba), Pow2(bg), banks);
    ShrShr(x, s, ba);
  }

  lemma StripeAbove(x: nat, y: nat, s: nat, ba: nat, bg: nat)
    requires y == ShiftRight(x, s)
    ensures ShiftRight(x, s + ba + bg) == ShiftRight(y, bg + ba)
  {
    ShrShr(x, s, ba + bg);
  }

  lemma CachelineRow(g: Geom, x: nat, l: nat, ch: nat, ba: nat, bg: nat, h: nat)
    requires g.Valid() && x < g.TotalBursts()
    requires l == CoLo(g) && h == BitsOf(g.Cols()) - l
    requires ch == BitsOf(g.channels) && ba == BitsOf(g.banksPerGroup) && bg == BitsOf(g.bankGroups)
    ensures ShiftRight(x, l + ch + ba + bg + h) % Pow2(BitsOf(g.rowsPerBank)) == ShiftRight(x, l + ch + ba + bg + h)
  {
    FrameBits(g);
    Widths(g);
    assert l + ch + ba + bg + h == AllBits(g) - BitsOf(g.rowsPerBank);
    QuotientBelow(x, g.FrameBursts(), g.rowsPerBank);
    SmallMod(x / g.FrameBursts(), g.rowsPerBank);
  }
}
