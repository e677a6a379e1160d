// Closed forms of the coordinates under the two schemes whose fields are in one piece.
module SchemeForms {
  import opened Bits
  import opened Geometry
  import opened AddrMap
  import opened Schemes

  ghost predicate InOnePiece(fs: seq<Slot>) {
    forall i, j | 0 <= i < j < |fs| :: fs[i].f != fs[j].f
  }

  lemma {:induction false} NoWidth(fs: seq<Slot>, f: Field)
    requires forall i | 0 <= i < |fs| :: fs[i].f != f
    ensures Width(fs, f) == 0
  {
    if fs != [] {
      NoWidth(fs[..|fs| - 1], f);
    }
  }

  /** A field in one piece is read above the slots below it. */
  lemma {:induction false} PieceValue(fs: seq<Slot>, i: nat, x: nat)
    requires InOnePiece(fs) && i < |fs|
    ensures Part(fs, x, fs[i].f) == ShiftRight(x, Total(fs[..i])) % Pow2(fs[i].nb)
  {
    var n := |fs| - 1;
    var p, f := fs[..n], fs[i].f;
    PartSnoc(p, fs[n], x, f);
    assert fs == p + [fs[n]];
    if i < n {
      assert p[i] == fs[i] && p[..i] == fs[..i];
      PieceValue(p, i, x);
    } else {
      NoWidth(p, f);
      PartBound(p, x, f);
    }
  }

  /** The bits below each slot of a five-slot layout. */
  lemma BelowFive(a: Slot, b: Slot, c: Slot, d: Slot, e: Slot)
    ensures var fs := [a, b, c, d, e];
      && Total(fs[..0]) == 0 && Total(fs[..1]) == a.nb && Total(fs[..2]) == a.nb + b.nb
      && Total(fs[..3]) == a.nb + b.nb + c.nb && Total(fs[..4]) == a.nb + b.nb + c.nb + d.nb
  {
    var fs := [a, b, c, d, e];
    forall i | 0 <= i < 4
      ensures Total(fs[..i + 1]) == Total(fs[..i]) + fs[i].nb
    {
      assert fs[..i + 1][..i] == fs[..i];
    }
  }

  /** Five fields in one piece each, lowest first. */
  lemma FiveValues(a: Slot, b: Slot, c: Slot, d: Slot, e: Slot, x: nat)
    requires InOnePiece([a, b, c, d, e])
    ensures var fs := [a, b, c, d, e];
      && Part(fs, x, a.f) == x % Pow2(a.nb)
      && Part(fs, x, b.f) == ShiftRight(x, a.nb) % Pow2(b.nb)
      && Part(fs, x, c.f) == ShiftRight(x, a.nb + b.nb) % Pow2(c.nb)
      && Part(fs, x, d.f) == ShiftRight(x, a.nb + b.nb + c.nb) % Pow2(d.nb)
      && Part(fs, x, e.f) == ShiftRight(x, a.nb + b.nb + c.nb + d.nb) % Pow2(e.nb)
  {
    hide Part;
    var fs := [a, b, c, d, e];
    BelowFive(a, b, c, d, e);
    PieceValue(fs, 0, x);
    PieceValue(fs, 1, x);
    PieceValue(fs, 2, x);
    PieceValue(fs, 3, x);
    PieceValue(fs, 4, x);
    assert ShiftRight(x, 0) == x;
  }

  /** Bursts below the bank digits under host-centric: one row of every channel's bank. */
  function Rowful(g: Geom): nat { g.Cols() * g.channels }

  lemma TwoWidths(x: nat, a: nat, b: nat, p: nat, q: nat)
    requires p == Pow2(a) && q == Pow2(b)
    ensures p * q > 0 && ShiftRight(x, a + b) == x / (p * q)
  {
    Pow2Add(a, b);
  }

  /** The layout of host-centric, field by field. */
  lemma CentricFields(g: Geom, x: nat)
    ensures var c := Parts(Fields(g, HostCentric), x);
      var co, ch := BitsOf(g.Cols()), BitsOf(g.channels);
      var ba, bg, ro := BitsOf(g.banksPerGroup), BitsOf(g.bankGroups), BitsOf(g.rowsPerBank);
      && c.co == x % Pow2(co) && c.ch == ShiftRight(x, co) % Pow2(ch)
      && c.ba == ShiftRight(x, co + ch) % Pow2(ba) && c.bg == ShiftRight(x, co + ch + ba) % Pow2(bg)
      && c.ro == ShiftRight(x, co + ch + ba + bg) % Pow2(ro)
  {
    hide Part, BitsOf;
    FiveValues(Slot(Co, BitsOf(g.Cols())), Slot(Ch, BitsOf(g.channels)), Slot(Ba, BitsOf(g.banksPerGroup)),
        Slot(Bg, BitsOf(g.bankGroups)), Slot(Ro, BitsOf(g.rowsPerBank)), x);
  }

  /** host-centric: column, channel and bank of a burst are its digits, the row is its frame. */
  lemma CentricForm(g: Geom, x: nat)
    requires g.Valid() && x < g.TotalBursts()
    ensures g.Cols() > 0 && Rowful(g) > 0 && g.FrameBursts() > 0
    ensures var c := Parts(Fields(g, HostCentric), x);
      && c.co == x % g.Cols() && c.ch == x / g.Cols() % g.channels
      && FlatBank(g, c) == x / Rowful(g) % g.Banks()
      && c.ro == x / g.FrameBursts()
  {
    hide Part, Parts, Fields, BitsOf, Pow2;
    Widths(g);
    RowIsFrame(g, HostCentric, x);
    CentricFields(g, x);
    TwoWidths(x, BitsOf(g.Cols()), BitsOf(g.channels), g.Cols(), g.channels);
    StripeBank(x, x / Rowful(g), BitsOf(g.Cols()) + BitsOf(g.channels), BitsOf(g.banksPerGroup),
        BitsOf(g.bankGroups), g.Banks());
  }

  /** The layout of pim-friendly, field by field. */
  lemma FriendlyFields(g: Geom, x: nat)
    ensures var c := Parts(Fields(g, PimFriendly), x);
      var co, ch := BitsOf(g.Cols()), BitsOf(g.channels);
      var ba, bg, ro := BitsOf(g.banksPerGroup), BitsOf(g.bankGroups), BitsOf(g.rowsPerBank);
      && c.ba == x % Pow2(ba) && c.bg == ShiftRight(x, ba) % Pow2(bg)
      && c.co == ShiftRight(x, ba + bg) % Pow2(co) && c.ro == ShiftRight(x, ba + bg + co) % Pow2(ro)
      && c.ch == ShiftRight(x, ba + bg + co + ro) % Pow2(ch)
  {
    hide Part, BitsOf;
    FiveValues(Slot(Ba, BitsOf(g.banksPerGroup)), Slot(Bg, BitsOf(g.bankGroups)), Slot(Co, BitsOf(g.Cols())),
        Slot(Ro, BitsOf(g.rowsPerBank)), Slot(Ch, BitsOf(g.channels)), x);
  }

  /** Bursts of one row across a channel's banks, and of a whole channel. */
  function BankRow(g: Geom): nat { g.Banks() * g.Cols() }

  function Channel(g: Geom): nat { BankRow(g) * g.rowsPerBank }

  lemma ThreeWidths(g: Geom)
    requires g.Valid()
    ensures g.Banks() == Pow2(BitsOf(g.banksPerGroup) + BitsOf(g.bankGroups))
    ensures BankRow(g) == Pow2(BitsOf(g.banksPerGroup) + BitsOf(g.bankGroups) + BitsOf(g.Cols())) > 0
    ensures Channel(g)
         == Pow2(BitsOf(g.banksPerGroup) + BitsOf(g.bankGroups) + BitsOf(g.Cols()) + BitsOf(g.rowsPerBank)) > 0
  {
    hide BitsOf, Pow2;
    var ba, bg, co, ro := BitsOf(g.banksPerGroup), BitsOf(g.bankGroups), BitsOf(g.Cols()), BitsOf(g.rowsPerBank);
    Widths(g);
    Commute(Pow2(ba), Pow2(bg));
    Pow2Add(ba, bg);
    Pow2Add(ba + bg, co);
    Pow2Add(ba + bg + co, ro);
  }

  lemma ChannelsOfBursts(g: Geom)
    requires g.Valid()
    ensures g.TotalBursts() == Channel(g) * g.channels
  {
    TotalBurstsMeaning(g);
    Regroup(g.channels, g.Banks(), g.Cols(), g.rowsPerBank);
  }

  lemma Regroup(ch: nat, b: nat, c: nat, r: nat)
    ensures ch * b * c * r == b * c * r * ch
  {
    Swap(1, ch, b);
    Swap(b, ch, c);
    Swap(b * c, ch, r);
  }

  /** pim-friendly: bank, column, row and channel are the digits, in that order. */
  lemma FriendlyForm(g: Geom, x: nat)
    requires g.Valid() && x < g.TotalBursts()
    ensures BankRow(g) > 0 && Channel(g) > 0 && g.Cols() > 0
    ensures var c := Parts(Fields(g, PimFriendly), x);
      && FlatBank(g, c) == x % g.Banks() && c.co == x / g.Banks() % g.Cols()
      && c.ro == x / BankRow(g) % g.rowsPerBank && c.ch == x / Channel(g)
  {
    hide Part, Parts, Fields, BitsOf, Pow2, Channel, BankRow;
    Widths(g);
    ThreeWidths(g);
    FriendlyFields(g, x);
    BankDigits(x, g.banksPerGroup, g.bankGroups, g.Banks());
    ChannelsOfBursts(g);
    QuotientBelow(x, Channel(g), g.channels);
    SmallMod(x / Channel(g), g.channels);
  }
}
