// Compaction told by its outcome: which blocks move, in which order, and into which free ids,
// in terms of the live blocks of each frame before it began.
module CompactionOrder {
  import opened Counting
  import opened Pool
  import opened Bookkeeping
  import opened Compaction
  import opened CompactionRule

  // ---- live blocks per frame ---------------------------------------------

  /** Live blocks in frame f. */
  ghost function LiveIn(l: Ledger, f: int): nat
    requires l.pool.Framed?
  {
    |set b | b in l.refcount && b / l.pool.G == f|
  }

  function Ids(G: pos, f: nat, s: set<nat>): set<nat> {
    set o | o in s :: BlockId(G, f, o)
  }

  lemma {:induction false} IdsSize(G: pos, f: nat, s: set<nat>)
    ensures |Ids(G, f, s)| == |s|
  {
    if s != {} {
      var o :| o in s;
      IdsSize(G, f, s - {o});
      assert Ids(G, f, s) == Ids(G, f, s - {o}) + {BlockId(G, f, o)};
    }
  }

  /** The live blocks of a frame are those at its offsets that are not free. */
  lemma LiveIds(l: Ledger, held: multiset<nat>, f: nat)
    requires Exact(l, held) && l.pool.Framed? && f < |l.pool.frames|
    ensures (set b | b in l.refcount && b / l.pool.G == f) == Ids(l.pool.G, f, Below(l.pool.G) - l.pool.frames[f])
  {
    hide Counted, Refs, Free, BlockId;
    var G, frames := l.pool.G, l.pool.frames;
    BelowSize(G);
    forall b: nat
      ensures (b in l.refcount && b / G == f) <==> b in Ids(G, f, Below(G) - frames[f])
    {
      if b in l.refcount && b / G == f {
        assert b in l.refcount.Keys;
        BlockParts(G, l.numBlocks, |frames|, b);
        FreeMember(G, frames, l.pool.cur, l.numBlocks, f, b % G);
        assert b % G in Below(G) - frames[f];
      }
      if b in Ids(G, f, Below(G) - frames[f]) {
        var o :| o in Below(G) - frames[f] && b == BlockId(G, f, o);
        FreeMember(G, frames, l.pool.cur, l.numBlocks, f, o);
        IdParts(G, f, o);
        assert b in l.refcount.Keys;
      }
    }
  }

  lemma IdParts(G: pos, f: nat, o: nat)
    requires o < G
    ensures BlockId(G, f, o) / G == f && BlockId(G, f, o) % G == o
  {
    DivUnique(BlockId(G, f, o), G, f, o);
  }

  /** Live and free blocks of a frame fill it. */
  lemma LiveCount(l: Ledger, held: multiset<nat>, f: nat)
    requires Exact(l, held) && l.pool.Framed? && f < |l.pool.frames|
    ensures LiveIn(l, f) + |l.pool.frames[f]| == l.pool.G
  {
    hide Counted, Refs, Free, Partition;
    var G, s := l.pool.G, l.pool.frames[f];
    BelowSize(G);
    LiveIds(l, held, f);
    IdsSize(G, f, Below(G) - s);
    assert s <= Below(G);
  }

  /** Frame f is to be emptied: it has live blocks, fewer than the threshold. */
  ghost predicate Underused(l: Ledger, f: int, below: real)
    requires l.pool.Framed?
  {
    0 < LiveIn(l, f) && (LiveIn(l, f) as real) < below * (l.pool.G as real)
  }

  lemma {:induction false} DonorsAre(G: pos, frames: seq<set<nat>>, below: real)
    ensures Ascending(DonorFrames(G, frames, below))
    ensures forall f: nat :: f in DonorFrames(G, frames, below) <==> f < |frames| && SparseFrame(G, frames[f], below)
  {
    hide SparseFrame;
    if frames != [] {
      DonorsAre(G, frames[..|frames| - 1], below);
      var p := DonorFrames(G, frames[..|frames| - 1], below);
      forall i | 0 <= i < |p|
        ensures p[i] < |frames| - 1
      {
        assert p[i] in p;
      }
    }
  }

  /** The donor frames are the underused ones. */
  lemma DonorsUnderused(l: Ledger, held: multiset<nat>, below: real)
    requires Exact(l, held) && l.pool.Framed?
    ensures var donors := DonorFrames(l.pool.G, l.pool.frames, below);
      forall f: nat :: f in donors <==> f < |l.pool.frames| && Underused(l, f, below)
  {
    hide Exact, LiveIn;
    var G, frames := l.pool.G, l.pool.frames;
    DonorsAre(G, frames, below);
    forall f: nat | f < |frames|
      ensures SparseFrame(G, frames[f], below) <==> Underused(l, f, below)
    {
      LiveCount(l, held, f);
    }
  }

  // ---- the blocks in the order of their ids ------------------------------

  /** Caller-held blocks are in no table. */
  ghost predicate Kept(l: Ledger, held: multiset<nat>) {
    Exact(l, held) && forall b | b in held :: b !in Refs(l.tables)
  }

  lemma KeptExact(l: Ledger, held: multiset<nat>)
    requires Kept(l, held)
    ensures Exact(l, held)
  {
  }

  lemma MoveOutKept(l: Ledger, held: multiset<nat>, donors: seq<nat>, f: nat, b: nat)
    requires Kept(l, held) && l.pool.Framed?
    ensures Kept(MoveOut(l, donors, f, b), held)
  {
    hide Exact, Free, Refs, Move;
    var t := Place(l, donors, f);
    if b in Refs(l.tables) && t >= 0 {
      InTableLive(l, held, b);
      LowestIsFree(l, held, t);
      MoveExact(l, held, b, LowestFree(l, t));
      PrivateMove(l, held, b, LowestFree(l, t));
    }
  }

  /** The state after ids 0 to n - 1 have been looked at. */
  ghost function Swept(l: Ledger, donors: seq<nat>, n: nat): (m: Ledger)
    requires l.pool.Framed?
    ensures m.pool.Framed? && m.pool.G == l.pool.G && m.numBlocks == l.numBlocks && |m.pool.frames| == |l.pool.frames|
  {
    if n == 0 then l else
    var p := Swept(l, donors, n - 1);
    DivNat(n - 1, l.pool.G);
    if FrameOf(l.pool.G, n - 1) in donors then MoveOut(p, donors, (n - 1) / l.pool.G, n - 1) else p
  }

  lemma {:induction false} SweptKept(l: Ledger, held: multiset<nat>, donors: seq<nat>, n: nat)
    requires Kept(l, held) && l.pool.Framed?
    ensures Kept(Swept(l, donors, n), held)
  {
    hide Kept, MoveOut;
    if n > 0 {
      SweptKept(l, held, donors, n - 1);
      DivNat(n - 1, l.pool.G);
      MoveOutKept(Swept(l, donors, n - 1), held, donors, (n - 1) / l.pool.G, n - 1);
    }
  }

  /** A move consumes one offset outside the donors and gives one back. */
  lemma MovedFrames(l: Ledger, t: nat, b: nat)
    requires l.pool.Framed? && t < |l.pool.frames| && l.pool.frames[t] != {}
    requires MinOf(l.pool.frames[t]) < l.pool.G && b / l.pool.G < |l.pool.frames| && b / l.pool.G != t
    ensures var nb := LowestFree(l, t); var m := Move(l, b, nb);
      && nb / l.pool.G == t
      && m.pool.frames == l.pool.frames[t := l.pool.frames[t] - {nb % l.pool.G}]
                                       [b / l.pool.G := l.pool.frames[b / l.pool.G] + {b % l.pool.G}]
  {
    hide Replace;
    IdParts(l.pool.G, t, MinOf(l.pool.frames[t]));
  }

  /** A donor's free offsets only grow. */
  lemma MoveOutGrows(l: Ledger, held: multiset<nat>, donors: seq<nat>, f: nat, b: nat, d: nat)
    requires Kept(l, held) && l.pool.Framed? && d in donors && d < |l.pool.frames|
    requires f in donors && b / l.pool.G == f
    ensures l.pool.frames[d] <= MoveOut(l, donors, f, b).pool.frames[d]
  {
    hide Free, Refs, Move, Counted, Partition;
    var t := Place(l, donors, f);
    if b in Refs(l.tables) && t >= 0 {
      InFrames(l, held, b);
      MovedFrames(l, t, b);
    }
  }

  lemma InFrames(l: Ledger, held: multiset<nat>, b: nat)
    requires Exact(l, held) && l.pool.Framed? && b in Refs(l.tables)
    ensures 0 <= b / l.pool.G < |l.pool.frames| && b < l.numBlocks && b % l.pool.G !in l.pool.frames[b / l.pool.G]
  {
    InTableLive(l, held, b);
    assert b in l.refcount.Keys;
    BlockParts(l.pool.G, l.numBlocks, |l.pool.frames|, b);
    FreeMember(l.pool.G, l.pool.frames, l.pool.cur, l.numBlocks, b / l.pool.G, b % l.pool.G);
  }

  lemma {:induction false} SweptGrows(l: Ledger, held: multiset<nat>, donors: seq<nat>, i: nat, j: nat, d: nat)
    requires Kept(l, held) && l.pool.Framed? && d in donors && d < |l.pool.frames| && i <= j
    ensures Swept(l, donors, i).pool.frames[d] <= Swept(l, donors, j).pool.frames[d]
  {
    hide Kept, MoveOut;
    if i < j {
      SweptGrows(l, held, donors, i, j - 1, d);
      SweptKept(l, held, donors, j - 1);
      DivNat(j - 1, l.pool.G);
      if FrameOf(l.pool.G, j - 1) in donors {
        MoveOutGrows(Swept(l, donors, j - 1), held, donors, (j - 1) / l.pool.G, j - 1, d);
      }
    }
  }

  lemma SweptOne(l: Ledger, donors: seq<nat>, f: nat, b: nat)
    requires l.pool.Framed? && b / l.pool.G == f && f in donors
    ensures Swept(l, donors, b + 1) == MoveOut(Swept(l, donors, b), donors, f, b)
  {
    hide MoveOut;
  }

  lemma MoveAllSnoc(m: Ledger, donors: seq<nat>, f: nat, u: seq<nat>, b: nat)
    requires m.pool.Framed?
    ensures MoveAll(m, donors, f, u + [b]) == MoveOut(MoveAll(m, donors, f, u), donors, f, b)
  {
    hide MoveOut;
    assert (u + [b])[..|u|] == u;
  }

  /** The id at offset n - 1 of frame f, which holds the free offsets s as it is emptied. */
  lemma OffsetSwept(l: Ledger, held: multiset<nat>, donors: seq<nat>, f: nat, i: nat, n: pos, s: set<nat>)
    requires Kept(l, held) && l.pool.Framed? && f in donors && f < |l.pool.frames|
    requires i == BlockId(l.pool.G, f, 0) && n <= l.pool.G && s == Swept(l, donors, i).pool.frames[f]
    ensures var b := BlockId(l.pool.G, f, n - 1);
      && b == i + (n - 1)
      && Swept(l, donors, b + 1)
         == if n - 1 in s then Swept(l, donors, b) else MoveOut(Swept(l, donors, b), donors, f, b)
  {
    hide Kept, MoveOut, Swept;
    var b := BlockId(l.pool.G, f, n - 1);
    IdParts(l.pool.G, f, n - 1);
    SweptOne(l, donors, f, b);
    SweptGrows(l, held, donors, i, b, f);
    SweptKept(l, held, donors, b);
    if n - 1 in s {
      FreeStays(Swept(l, donors, b), held, donors, f, n - 1, b);
    }
  }

  /** Emptying frame f looks at its ids in order; those that were free change nothing. */
  lemma {:induction false} FrameSwept(l: Ledger, held: multiset<nat>, donors: seq<nat>, f: nat, i: nat, n: nat,
                                      m: Ledger, s: set<nat>)
    requires Kept(l, held) && l.pool.Framed? && f in donors && f < |l.pool.frames|
    requires i == BlockId(l.pool.G, f, 0) && n <= l.pool.G
    requires m == Swept(l, donors, i) && s == m.pool.frames[f]
    ensures Swept(l, donors, i + n) == MoveAll(m, donors, f, UsedIn(l.pool.G, s, f, n))
  {
    hide Kept, MoveOut, Swept;
    if n > 0 {
      hide MoveAll;
      FrameSwept(l, held, donors, f, i, n - 1, m, s);
      OffsetSwept(l, held, donors, f, i, n, s);
      var u := UsedIn(l.pool.G, s, f, n - 1);
      MoveAllSnoc(m, donors, f, u, BlockId(l.pool.G, f, n - 1));
      assert UsedIn(l.pool.G, s, f, n) == if n - 1 in s then u else u + [BlockId(l.pool.G, f, n - 1)];
    }
  }

  lemma FreeStays(p: Ledger, held: multiset<nat>, donors: seq<nat>, f: nat, o: nat, b: nat)
    requires Kept(p, held) && p.pool.Framed? && f < |p.pool.frames| && o in p.pool.frames[f] && o < p.pool.G
    requires b == BlockId(p.pool.G, f, o)
    ensures MoveOut(p, donors, f, b) == p
  {
    IdParts(p.pool.G, f, o);
    if b in Refs(p.tables) { InFrames(p, held, b); }
  }

  /** Ids outside the donors change nothing. */
  lemma {:induction false} SweptIdle(l: Ledger, donors: seq<nat>, i: nat, j: nat)
    requires l.pool.Framed? && i <= j && forall x | i <= x < j :: FrameOf(l.pool.G, x) !in donors
    ensures Swept(l, donors, j) == Swept(l, donors, i)
  {
    if i < j {
      SweptIdle(l, donors, i, j - 1);
    }
  }

  /** First id past the first d donors. */
  function After(G: pos, donors: seq<nat>, d: nat): nat
    requires d <= |donors|
  {
    if d == 0 then 0 else BlockId(G, donors[d - 1], G)
  }

  lemma FrameIds(G: pos, x: nat)
    ensures x / G >= 0 && BlockId(G, x / G, 0) <= x < BlockId(G, x / G, G)
  {
    DivNat(x, G);
  }

  lemma IdsMono(G: pos, f: nat, g: nat, o: nat)
    requires f <= g
    ensures BlockId(G, f, o) <= BlockId(G, g, o)
  {
    MulMono(f, g, G);
  }

  lemma BetweenDonors(G: pos, donors: seq<nat>, d: nat, x: nat)
    requires Ascending(donors) && d <= |donors| && After(G, donors, d) <= x
    requires d < |donors| ==> x < BlockId(G, donors[d], 0)
    ensures FrameOf(G, x) !in donors
  {
    hide BlockId;
    FrameIds(G, x);
    var f := x / G;
    if f in donors {
      var e :| 0 <= e < |donors| && donors[e] == f;
      if e < d { IdsMono(G, f, donors[d - 1], G); } else { IdsMono(G, donors[d], f, 0); }
    }
  }

  /** The ids of the next donor, and those before it. */
  lemma DonorSwept(l: Ledger, held: multiset<nat>, donors: seq<nat>, d: pos)
    requires Kept(l, held) && l.pool.Framed? && Ascending(donors) && d <= |donors|
    requires forall f | f in donors :: f < |l.pool.frames|
    ensures Swept(l, donors, After(l.pool.G, donors, d))
         == EmptyOne(Swept(l, donors, After(l.pool.G, donors, d - 1)), donors, donors[d - 1])
  {
    hide Kept, MoveAll, UsedIn, Swept;
    var G, f := l.pool.G, donors[d - 1];
    assert f in donors;
    var i, j := After(G, donors, d - 1), BlockId(G, f, 0);
    if d > 1 { MulMono(donors[d - 2] + 1, f, G); MulDistributes(donors[d - 2], 1, G); }
    forall x | i <= x < j
      ensures FrameOf(G, x) !in donors
    {
      BetweenDonors(G, donors, d - 1, x);
    }
    SweptIdle(l, donors, i, j);
    var m := Swept(l, donors, j);
    FrameSwept(l, held, donors, f, j, G, m, m.pool.frames[f]);
  }

  lemma {:induction false} EmptySwept(l: Ledger, held: multiset<nat>, donors: seq<nat>, d: nat)
    requires Kept(l, held) && l.pool.Framed? && Ascending(donors) && d <= |donors|
    requires forall f | f in donors :: f < |l.pool.frames|
    ensures EmptyAll(l, donors, donors[..d]) == Swept(l, donors, After(l.pool.G, donors, d))
  {
    hide Kept, EmptyOne;
    if d > 0 {
      hide Swept, After;
      EmptySwept(l, held, donors, d - 1);
      assert donors[..d][..d - 1] == donors[..d - 1];
      DonorSwept(l, held, donors, d);
    }
  }

  lemma PastDonors(l: Ledger, donors: seq<nat>)
    requires l.pool.Framed? && Ascending(donors) && |l.pool.frames| * l.pool.G == l.numBlocks
    requires forall f | f in donors :: f < |l.pool.frames|
    ensures Swept(l, donors, l.numBlocks) == Swept(l, donors, After(l.pool.G, donors, |donors|))
  {
    hide Swept;
    var G, i := l.pool.G, After(l.pool.G, donors, |donors|);
    if donors != [] {
      assert donors[|donors| - 1] in donors;
      MulMono(donors[|donors| - 1] + 1, |l.pool.frames|, G);
      MulDistributes(donors[|donors| - 1], 1, G);
    }
    forall x | i <= x < l.numBlocks
      ensures FrameOf(G, x) !in donors
    {
      BetweenDonors(G, donors, |donors|, x);
    }
    SweptIdle(l, donors, i, l.numBlocks);
  }

  /** Compaction looks at the ids in ascending order. */
  lemma CompactedSwept(l: Ledger, held: multiset<nat>, below: real)
    requires Kept(l, held) && l.pool.Framed?
    ensures Compacted(l, below) == Swept(l, DonorFrames(l.pool.G, l.pool.frames, below), l.numBlocks)
  {
    hide SparseFrame, DonorFrames, EmptyAll, Swept, Counted, Partition, Free;
    var donors := DonorFrames(l.pool.G, l.pool.frames, below);
    DonorsAre(l.pool.G, l.pool.frames, below);
    EmptySwept(l, held, donors, |donors|);
    assert donors[..|donors|] == donors;
    PastDonors(l, donors);
  }

  // ---- where each block goes ---------------------------------------------

  /** Free id s is taken before free id t: its frame has more live blocks, or as many and a
      lower index, or it is the lower id of one frame. */
  ghost predicate TakenBefore(l: Ledger, s: nat, t: nat)
    requires l.pool.Framed?
  {
    var f, g := s / l.pool.G, t / l.pool.G;
    if f == g then s < t else LiveIn(l, f) > LiveIn(l, g) || (LiveIn(l, f) == LiveIn(l, g) && f < g)
  }

  /** No frame outside the donors has a free id. */
  ghost predicate NoRoom(l: Ledger, donors: seq<nat>)
    requires l.pool.Framed?
  {
    forall t: nat | t < |l.pool.frames| && t !in donors :: l.pool.frames[t] == {}
  }

  /** Ids below n looked at: those that moved, where to, and those that could not. */
  ghost predicate Orderly(l: Ledger, m: Ledger, ren: Renaming, donors: seq<nat>, n: nat)
    requires l.pool.Framed? && m.pool.Framed?
  {
    && Renames(l, m, ren) && |m.pool.frames| == |l.pool.frames|
    && MovedOut(l, ren, donors, n)
    && MovedInOrder(l, ren)
    && BestTaken(l, m, ren, donors)
    && Shrunk(l, m, ren, donors)
    && StayedLast(l, m, ren, donors, n)
  }

  ghost predicate MovedOut(l: Ledger, ren: Renaming, donors: seq<nat>, n: nat)
    requires l.pool.Framed?
  {
    forall x | x in Moved(ren) ::
      x < n && x in Refs(l.tables) && FrameOf(l.pool.G, x) in donors && FrameOf(l.pool.G, ren[x]) !in donors
  }

  /** The lower block got the better id. */
  ghost predicate MovedInOrder(l: Ledger, ren: Renaming)
    requires l.pool.Framed?
  {
    forall x, y | x in Moved(ren) && y in Moved(ren) && x < y :: TakenBefore(l, ren[x], ren[y])
  }

  /** No better id was left. */
  ghost predicate BestTaken(l: Ledger, m: Ledger, ren: Renaming, donors: seq<nat>)
    requires l.pool.Framed? && m.pool.Framed?
  {
    forall x, t: nat, o: nat |
      x in Moved(ren) && t < |m.pool.frames| && t !in donors && o in m.pool.frames[t] && o < m.pool.G ::
      TakenBefore(l, ren[x], BlockId(m.pool.G, t, o))
  }

  /** Frames outside the donors only filled up, and only by blocks that moved. */
  ghost predicate Shrunk(l: Ledger, m: Ledger, ren: Renaming, donors: seq<nat>)
    requires l.pool.Framed? && m.pool.Framed? && |m.pool.frames| == |l.pool.frames|
  {
    forall t: nat | t < |l.pool.frames| && t !in donors ::
      && m.pool.frames[t] <= l.pool.frames[t]
      && (m.pool.frames[t] == l.pool.frames[t] || Filled(l.pool.G, ren, t))
  }

  ghost predicate Filled(G: pos, ren: Renaming, t: nat) {
    exists x | x in Moved(ren) :: ren[x] / G == t
  }

  /** A table block left in a donor had nowhere to go, after every block that moved. */
  ghost predicate StayedLast(l: Ledger, m: Ledger, ren: Renaming, donors: seq<nat>, n: nat)
    requires l.pool.Framed? && m.pool.Framed?
  {
    forall y: nat | y < n && y in Refs(l.tables) && FrameOf(l.pool.G, y) in donors && y !in Moved(ren) ::
      NoRoom(m, donors) && forall x | x in Moved(ren) :: x < y
  }

  /** Where a block of a donor goes: the fullest frame outside the donors with room, lowest
      index on ties; nowhere when there is none. */
  lemma {:induction false} TargetMeaning(frames: seq<set<nat>>, donors: seq<nat>, f: nat, n: nat)
    requires n <= |frames| && f in donors
    ensures var t := Target(frames, donors, f, n);
      && (t < 0 ==> forall g | 0 <= g < n && g !in donors :: frames[g] == {})
      && (t >= 0 ==> forall g | 0 <= g < n && g !in donors && frames[g] != {} ::
            |frames[t]| < |frames[g]| || (|frames[t]| == |frames[g]| && t <= g))
  {
    if n > 0 {
      TargetMeaning(frames, donors, f, n - 1);
    }
  }

  lemma OrderlyStart(l: Ledger, held: multiset<nat>, donors: seq<nat>)
    requires Kept(l, held) && l.pool.Framed?
    ensures Orderly(l, l, Identity(l), donors, 0)
  {
    hide Exact, Renames, Refs, TakenBefore;
    RenamesSelf(l, held);
    assert Moved(Identity(l)) == {};
  }

  /** A table block is where the renaming puts it. */
  lemma ImageInTable(l: Ledger, m: Ledger, ren: Renaming, b: nat)
    requires Renames(l, m, ren) && b in Refs(l.tables)
    ensures b in ren && ren[b] in Refs(m.tables)
  {
    hide Refs, RenamesCounts;
    var k := RefsOwner(l.tables, b);
    var i :| 0 <= i < |l.tables[k]| && l.tables[k][i] == b;
    assert RenamesTable(l.tables[k], m.tables[k], ren);
    assert m.tables[k][i] == ren[b];
    RefsMember(m.tables, k, ren[b]);
  }

  lemma SourceInTable(l: Ledger, m: Ledger, ren: Renaming, b: nat) returns (x: nat)
    requires Renames(l, m, ren) && b in Refs(m.tables)
    ensures x in ren && ren[x] == b && x in Refs(l.tables)
  {
    hide Refs, RenamesCounts;
    var k := RefsOwner(m.tables, b);
    var i :| 0 <= i < |m.tables[k]| && m.tables[k][i] == b;
    assert RenamesTable(l.tables[k], m.tables[k], ren);
    x := l.tables[k][i];
    RefsMember(l.tables, k, x);
  }

  /** An id that changes nothing: outside the donors, in no table, or with nowhere to go. */
  lemma OrderlySkip(l: Ledger, m: Ledger, ren: Renaming, donors: seq<nat>, n: nat)
    requires l.pool.Framed? && m.pool.Framed? && Orderly(l, m, ren, donors, n)
    requires FrameOf(l.pool.G, n) !in donors || n !in Refs(m.tables) || NoRoom(m, donors)
    ensures Orderly(l, m, ren, donors, n + 1)
  {
    hide Renames, Refs, TakenBefore, NoRoom;
    if n in Refs(l.tables) && FrameOf(l.pool.G, n) in donors {
      ImageInTable(l, m, ren, n);
      assert n !in Moved(ren);
    }
  }

  /** Frame f is filled before frame g. */
  ghost predicate Fuller(l: Ledger, f: int, g: int)
    requires l.pool.Framed?
  {
    LiveIn(l, f) > LiveIn(l, g) || (LiveIn(l, f) == LiveIn(l, g) && f < g)
  }

  lemma TakenFrames(l: Ledger, s: nat, g: nat, o: nat)
    requires l.pool.Framed? && o < l.pool.G && s / l.pool.G != g && TakenBefore(l, s, BlockId(l.pool.G, g, o))
    ensures Fuller(l, s / l.pool.G, g)
  {
    hide LiveIn;
    IdParts(l.pool.G, g, o);
  }

  /** A block went into f, not into the free id o of g. */
  lemma FilledFirst(l: Ledger, m: Ledger, ren: Renaming, donors: seq<nat>, f: nat, g: nat, o: nat)
    requires l.pool.Framed? && m.pool.Framed? && m.pool.G == l.pool.G && BestTaken(l, m, ren, donors)
    requires Filled(l.pool.G, ren, f)
    requires g < |m.pool.frames| && g !in donors && g != f && o in m.pool.frames[g] && o < m.pool.G
    ensures Fuller(l, f, g)
  {
    hide Fuller, TakenBefore, BlockId;
    var x :| x in Moved(ren) && ren[x] / l.pool.G == f;
    assert TakenBefore(l, ren[x], BlockId(m.pool.G, g, o));
    TakenFrames(l, ren[x], g, o);
  }

  /** A frame with the fewest free ids now was the better one to begin with. */
  lemma BestFrame(l: Ledger, m: Ledger, ren: Renaming, held: multiset<nat>, donors: seq<nat>, t: nat, g: nat, o: nat)
    requires Exact(l, held) && Exact(m, held) && l.pool.Framed? && m.pool.Framed? && m.pool.G == l.pool.G
    requires |m.pool.frames| == |l.pool.frames| && Shrunk(l, m, ren, donors) && BestTaken(l, m, ren, donors)
    requires t < |l.pool.frames| && t !in donors && m.pool.frames[t] != {}
    requires g < |l.pool.frames| && g !in donors && g != t && o in m.pool.frames[g] && o < m.pool.G
    requires |m.pool.frames[t]| < |m.pool.frames[g]| || (|m.pool.frames[t]| == |m.pool.frames[g]| && t <= g)
    ensures Fuller(l, t, g)
  {
    hide Exact, LiveIn, BestTaken, Filled;
    LiveCount(l, held, t);
    LiveCount(l, held, g);
    LowestInFrame(m, held, t);
    SubsetSize(m.pool.frames[g], l.pool.frames[g]);
    if Filled(l.pool.G, ren, t) {
      FilledFirst(l, m, ren, donors, t, g, o);
    } else if Filled(l.pool.G, ren, g) {
      FilledFirst(l, m, ren, donors, g, t, MinOf(m.pool.frames[t]));
    }
  }

  /** The chosen id is better than every id that stays free. */
  lemma BestId(l: Ledger, m: Ledger, ren: Renaming, held: multiset<nat>, donors: seq<nat>, f: nat, g: nat, o: nat)
    requires Exact(l, held) && Exact(m, held) && l.pool.Framed? && m.pool.Framed? && m.pool.G == l.pool.G
    requires |m.pool.frames| == |l.pool.frames| && Shrunk(l, m, ren, donors) && BestTaken(l, m, ren, donors)
    requires f in donors && Place(m, donors, f) >= 0
    requires g < |l.pool.frames| && g !in donors && o in m.pool.frames[g] && o < m.pool.G
    requires LowestFree(m, Place(m, donors, f)) != BlockId(m.pool.G, g, o)
    ensures TakenBefore(l, LowestFree(m, Place(m, donors, f)), BlockId(m.pool.G, g, o))
  {
    hide Counted, Refs, Free, Partition, LiveIn;
    var t := Place(m, donors, f);
    TargetMeaning(m.pool.frames, donors, f, |m.pool.frames|);
    IdParts(m.pool.G, t, MinOf(m.pool.frames[t]));
    IdParts(m.pool.G, g, o);
    if g != t { BestFrame(l, m, ren, held, donors, t, g, o); }
  }

  /** The renaming and the frames after block b has moved to id nb of frame t. */
  lemma MoveFacts(l: Ledger, m: Ledger, ren: Renaming, held: multiset<nat>, donors: seq<nat>, b: nat, t: nat, nb: nat)
    requires l.pool.Framed? && m.pool.Framed? && m.pool.G == l.pool.G && Kept(m, held)
    requires Orderly(l, m, ren, donors, b) && b in Refs(m.tables) && FrameOf(l.pool.G, b) in donors
    requires t < |m.pool.frames| && t !in donors && m.pool.frames[t] != {} && nb == LowestFree(m, t)
    ensures b in ren && b !in Moved(ren) && b in Refs(l.tables)
    ensures Then(ren, b, nb) == ren[b := nb] && Moved(ren[b := nb]) == Moved(ren) + {b}
    ensures Renames(l, Move(m, b, nb), ren[b := nb])
    ensures 0 <= b / l.pool.G < |m.pool.frames| && nb / l.pool.G == t
    ensures Move(m, b, nb).pool.Framed? && Move(m, b, nb).pool.G == l.pool.G
    ensures Move(m, b, nb).pool.frames == m.pool.frames[t := m.pool.frames[t] - {nb % l.pool.G}]
                                          [b / l.pool.G := m.pool.frames[b / l.pool.G] + {b % l.pool.G}]
  {
    hide Exact, Refs, Free, Move, MovedInOrder, BestTaken, Shrunk, StayedLast, Renames, Then, Injective;
    InFrames(m, held, b);
    InTableLive(m, held, b);
    LowestIsFree(m, held, t);
    LowestInFrame(m, held, t);
    MovedFrames(m, t, b);
    MoveShape(m, b, nb);
    RenamesMove(l, m, ren, b, nb);
    var x := SourceInTable(l, m, ren, b);
    RenamedInto(l, m, ren);
    MovedGrows(m.refcount.Keys, ren, l.pool.G, donors, b, nb);
  }

  lemma LowestInFrame(m: Ledger, held: multiset<nat>, t: nat)
    requires Exact(m, held) && m.pool.Framed? && t < |m.pool.frames| && m.pool.frames[t] != {}
    ensures MinOf(m.pool.frames[t]) < m.pool.G
  {
    hide Counted, Refs, Free, Partition;
  }

  lemma RenamedInto(l: Ledger, m: Ledger, ren: Renaming)
    requires Renames(l, m, ren)
    ensures Injective(ren) && forall x | x in ren :: ren[x] in m.refcount.Keys
  {
    hide RenamesTable;
  }

  /** A table block of a donor that has somewhere to go moves there. */
  lemma OrderlyMove(l: Ledger, m: Ledger, ren: Renaming, held: multiset<nat>, donors: seq<nat>, b: nat)
    requires l.pool.Framed? && m.pool.Framed? && m.pool.G == l.pool.G && Exact(l, held) && Kept(m, held)
    requires Orderly(l, m, ren, donors, b) && b in Refs(m.tables) && b / l.pool.G >= 0
    requires FrameOf(l.pool.G, b) in donors && Place(m, donors, b / l.pool.G) >= 0
    ensures var nb := LowestFree(m, Place(m, donors, b / l.pool.G));
      Orderly(l, Move(m, b, nb), ren[b := nb], donors, b + 1)
  {
    hide Exact, Refs, Free, Move, Renames, Moved, LowestFree, Place, Then;
    hide MovedOut, MovedInOrder, BestTaken, Shrunk, StayedLast, NoRoom;
    var G, f := l.pool.G, b / l.pool.G;
    var t := Place(m, donors, f);
    var nb := LowestFree(m, t);
    var m', r := Move(m, b, nb), ren[b := nb];
    MoveFacts(l, m, ren, held, donors, b, t, nb);
    MovedBelow(l, ren, donors, b);
    NextBest(l, m, ren, held, donors, f);
    MovedInOrderNext(l, ren, b, nb);
    BestTakenNext(l, m, ren, held, donors, b, nb, m');
    ShrunkNext(l, m, ren, donors, b, t, nb, m');
    HadRoom(m, donors, t);
    MovedOutNext(l, m, m', ren, donors, b, nb);
  }

  lemma MovedOutNext(l: Ledger, m: Ledger, m': Ledger, ren: Renaming, donors: seq<nat>, b: nat, nb: nat)
    requires l.pool.Framed? && m.pool.Framed? && m'.pool.Framed?
    requires MovedOut(l, ren, donors, b) && StayedLast(l, m, ren, donors, b) && !NoRoom(m, donors)
    requires b in ren && b in Refs(l.tables) && Moved(ren[b := nb]) == Moved(ren) + {b}
    requires FrameOf(l.pool.G, b) in donors && FrameOf(l.pool.G, nb) !in donors
    ensures MovedOut(l, ren[b := nb], donors, b + 1) && StayedLast(l, m', ren[b := nb], donors, b + 1)
  {
    hide Refs, NoRoom, FrameOf;
  }

  lemma HadRoom(m: Ledger, donors: seq<nat>, t: nat)
    requires m.pool.Framed? && t < |m.pool.frames| && t !in donors && m.pool.frames[t] != {}
    ensures !NoRoom(m, donors)
  {
  }

  lemma MovedInOrderNext(l: Ledger, ren: Renaming, b: nat, nb: nat)
    requires l.pool.Framed? && MovedInOrder(l, ren)
    requires forall x | x in Moved(ren) :: x < b && TakenBefore(l, ren[x], nb)
    requires b in ren && Moved(ren[b := nb]) == Moved(ren) + {b}
    ensures MovedInOrder(l, ren[b := nb])
  {
    hide TakenBefore, Moved;
    MovedLive(ren);
    MovedLive(ren[b := nb]);
  }

  lemma MovedLive(ren: Renaming)
    ensures forall x | x in Moved(ren) :: x in ren
  {
  }

  lemma MovedBelow(l: Ledger, ren: Renaming, donors: seq<nat>, b: nat)
    requires l.pool.Framed? && MovedOut(l, ren, donors, b)
    ensures forall x | x in Moved(ren) :: x < b
  {
  }

  lemma NextBest(l: Ledger, m: Ledger, ren: Renaming, held: multiset<nat>, donors: seq<nat>, f: nat)
    requires l.pool.Framed? && m.pool.Framed? && m.pool.G == l.pool.G && Exact(m, held)
    requires BestTaken(l, m, ren, donors) && Place(m, donors, f) >= 0
    ensures forall x | x in Moved(ren) :: TakenBefore(l, ren[x], LowestFree(m, Place(m, donors, f)))
  {
    hide Exact, TakenBefore, BlockId;
    LowestInFrame(m, held, Place(m, donors, f));
  }

  lemma BestTakenNext(l: Ledger, m: Ledger, ren: Renaming, held: multiset<nat>, donors: seq<nat>, b: nat, nb: nat,
                      m': Ledger)
    requires l.pool.Framed? && m.pool.Framed? && m'.pool.Framed? && m.pool.G == l.pool.G == m'.pool.G
    requires Exact(l, held) && Exact(m, held) && |m.pool.frames| == |l.pool.frames|
    requires Shrunk(l, m, ren, donors) && BestTaken(l, m, ren, donors)
    requires b in ren && b !in Moved(ren) && Moved(ren[b := nb]) == Moved(ren) + {b}
    requires b / l.pool.G in donors && 0 <= b / l.pool.G < |m.pool.frames| && Place(m, donors, b / l.pool.G) >= 0
    requires var t := Place(m, donors, b / l.pool.G);
      && nb == LowestFree(m, t) && nb / l.pool.G == t
      && m'.pool.frames == m.pool.frames[t := m.pool.frames[t] - {nb % l.pool.G}]
                                        [b / l.pool.G := m.pool.frames[b / l.pool.G] + {b % l.pool.G}]
    ensures BestTaken(l, m', ren[b := nb], donors)
  {
    hide Exact, TakenBefore, Shrunk, Place, LowestFree, BlockId;
    var r, f := ren[b := nb], b / l.pool.G;
    forall x, t: nat, o: nat |
      x in Moved(r) && t < |m'.pool.frames| && t !in donors && o in m'.pool.frames[t] && o < m'.pool.G
      ensures TakenBefore(l, r[x], BlockId(m'.pool.G, t, o))
    {
      assert o in m.pool.frames[t];
      if x == b {
        IdParts(l.pool.G, t, o);
        assert nb != BlockId(l.pool.G, t, o);
        BestId(l, m, ren, held, donors, f, t, o);
      } else {
        assert TakenBefore(l, ren[x], BlockId(m.pool.G, t, o));
      }
    }
  }

  lemma ShrunkNext(l: Ledger, m: Ledger, ren: Renaming, donors: seq<nat>, b: nat, t: nat, nb: nat, m': Ledger)
    requires l.pool.Framed? && m.pool.Framed? && m'.pool.Framed?
    requires |m.pool.frames| == |l.pool.frames| && Shrunk(l, m, ren, donors)
    requires b in ren && b !in Moved(ren) && Moved(ren[b := nb]) == Moved(ren) + {b}
    requires b / l.pool.G in donors && 0 <= b / l.pool.G < |m.pool.frames| && t < |m.pool.frames|
    requires nb / l.pool.G == t
    requires m'.pool.frames == m.pool.frames[t := m.pool.frames[t] - {nb % l.pool.G}]
                                          [b / l.pool.G := m.pool.frames[b / l.pool.G] + {b % l.pool.G}]
    ensures |m'.pool.frames| == |l.pool.frames| && Shrunk(l, m', ren[b := nb], donors)
  {
    var r := ren[b := nb];
    forall g: nat | g < |l.pool.frames| && g !in donors
      ensures m'.pool.frames[g] <= l.pool.frames[g]
      ensures m'.pool.frames[g] == l.pool.frames[g] || Filled(l.pool.G, r, g)
    {
      if g == t {
        assert b in Moved(r) && r[b] / l.pool.G == g;
      } else if Filled(l.pool.G, ren, g) {
        var x :| x in Moved(ren) && ren[x] / l.pool.G == g;
        assert x in Moved(r) && r[x] == ren[x];
      }
    }
  }

  /** Looking at the ids one by one keeps all of this. */
  lemma {:induction false} SweptOrderly(l: Ledger, held: multiset<nat>, donors: seq<nat>, n: nat)
    returns (ren: Renaming)
    requires Kept(l, held) && l.pool.Framed?
    ensures Orderly(l, Swept(l, donors, n), ren, donors, n)
  {
    hide Kept, Orderly;
    if n == 0 {
      OrderlyStart(l, held, donors);
      ren := Identity(l);
    } else {
      hide MoveOut;
      ren := SweptOrderly(l, held, donors, n - 1);
      SweptKept(l, held, donors, n - 1);
      ren := NextOrderly(l, Swept(l, donors, n - 1), ren, held, donors, n - 1);
    }
  }

  lemma NextOrderly(l: Ledger, m: Ledger, ren0: Renaming, held: multiset<nat>, donors: seq<nat>, b: nat)
    returns (ren: Renaming)
    requires l.pool.Framed? && m.pool.Framed? && m.pool.G == l.pool.G && Kept(l, held) && Kept(m, held)
    requires Orderly(l, m, ren0, donors, b)
    ensures b / l.pool.G >= 0
    ensures Orderly(l, if FrameOf(l.pool.G, b) in donors then MoveOut(m, donors, b / l.pool.G, b) else m, ren,
                    donors, b + 1)
  {
    hide Exact, Orderly, LowestFree, Refs, Move;
    DivNat(b, l.pool.G);
    ren := ren0;
    var f := b / l.pool.G;
    if f !in donors || b !in Refs(m.tables) {
      OrderlySkip(l, m, ren, donors, b);
      return;
    }
    TargetMeaning(m.pool.frames, donors, f, |m.pool.frames|);
    if Place(m, donors, f) < 0 {
      OrderlySkip(l, m, ren, donors, b);
      return;
    }
    OrderlyMove(l, m, ren, held, donors, b);
    ren := ren[b := LowestFree(m, Place(m, donors, f))];
  }

  // ---- the outcome -------------------------------------------------------

  /** What compaction does to l, with threshold below: only table blocks of underused frames
      move, and only to frames that are not; the blocks move in the order of their ids, each to
      the best free id left; one stays only when no id is left, and then all above it stay. */
  ghost predicate CompactsTo(l: Ledger, m: Ledger, ren: Renaming, below: real)
    requires l.pool.Framed? && m.pool.Framed?
  {
    var G := l.pool.G;
    && Renames(l, m, ren)
    && (forall x | x in Moved(ren) ::
          x in Refs(l.tables) && Underused(l, x / G, below) && !Underused(l, ren[x] / G, below))
    && MovedInOrder(l, ren)
    && (forall x, s | x in Moved(ren) && s in Free(m.pool) && !Underused(l, s / G, below) :: TakenBefore(l, ren[x], s))
    && forall y | y in Refs(l.tables) && Underused(l, y / G, below) && y !in Moved(ren) ::
         && (forall s | s in Free(m.pool) :: Underused(l, s / G, below))
         && forall x | x in Moved(ren) :: x < y
  }

  lemma FreeParts(m: Ledger, held: multiset<nat>, s: nat)
    requires Exact(m, held) && m.pool.Framed? && s in Free(m.pool)
    ensures 0 <= s / m.pool.G < |m.pool.frames| && s % m.pool.G in m.pool.frames[s / m.pool.G]
    ensures s == BlockId(m.pool.G, s / m.pool.G, s % m.pool.G)
  {
    BlockParts(m.pool.G, m.numBlocks, |m.pool.frames|, s);
    FreeMember(m.pool.G, m.pool.frames, m.pool.cur, m.numBlocks, s / m.pool.G, s % m.pool.G);
  }

  lemma ImageBelow(l: Ledger, m: Ledger, held: multiset<nat>, ren: Renaming, x: nat)
    requires Exact(m, held) && m.pool.Framed? && Renames(l, m, ren) && x in ren
    ensures 0 <= ren[x] / m.pool.G < |m.pool.frames|
  {
    hide Counted, Refs, Free, RenamesTable;
    assert ren[x] in m.refcount.Keys;
    BlockParts(m.pool.G, m.numBlocks, |m.pool.frames|, ren[x]);
  }

  lemma MovedDone(l: Ledger, m: Ledger, held: multiset<nat>, ren: Renaming, donors: seq<nat>, below: real)
    requires l.pool.Framed? && m.pool.Framed? && m.pool.G == l.pool.G && |m.pool.frames| == |l.pool.frames|
    requires Exact(m, held) && Renames(l, m, ren) && MovedOut(l, ren, donors, l.numBlocks)
    requires forall f: nat :: f in donors <==> f < |l.pool.frames| && Underused(l, f, below)
    ensures forall x | x in Moved(ren) ::
              x in Refs(l.tables) && Underused(l, x / l.pool.G, below) && !Underused(l, ren[x] / l.pool.G, below)
  {
    hide Exact, Refs, Renames, Underused;
    forall x | x in Moved(ren)
      ensures Underused(l, x / l.pool.G, below) && !Underused(l, ren[x] / l.pool.G, below)
    {
      ImageBelow(l, m, held, ren, x);
    }
  }

  lemma TakenDone(l: Ledger, m: Ledger, held: multiset<nat>, ren: Renaming, donors: seq<nat>, below: real)
    requires l.pool.Framed? && m.pool.Framed? && m.pool.G == l.pool.G && |m.pool.frames| == |l.pool.frames|
    requires Exact(m, held) && BestTaken(l, m, ren, donors)
    requires forall f: nat :: f in donors <==> f < |l.pool.frames| && Underused(l, f, below)
    ensures forall x, s | x in Moved(ren) && s in Free(m.pool) && !Underused(l, s / l.pool.G, below) ::
              TakenBefore(l, ren[x], s)
  {
    hide Exact, Free, Underused, TakenBefore, BlockId, Moved;
    MovedLive(ren);
    forall x, s | x in Moved(ren) && s in Free(m.pool) && !Underused(l, s / l.pool.G, below)
      ensures TakenBefore(l, ren[x], s)
    {
      FreeParts(m, held, s);
    }
  }

  lemma StayedDone(l: Ledger, m: Ledger, held: multiset<nat>, ren: Renaming, donors: seq<nat>, below: real, y: nat)
    requires l.pool.Framed? && m.pool.Framed? && m.pool.G == l.pool.G && |m.pool.frames| == |l.pool.frames|
    requires Exact(l, held) && Exact(m, held) && StayedLast(l, m, ren, donors, l.numBlocks)
    requires forall f: nat :: f in donors <==> f < |l.pool.frames| && Underused(l, f, below)
    requires y in Refs(l.tables) && Underused(l, y / l.pool.G, below) && y !in Moved(ren)
    ensures forall s | s in Free(m.pool) :: Underused(l, s / l.pool.G, below)
    ensures forall x | x in Moved(ren) :: x < y
  {
    hide Exact, Refs, Free, Underused, Moved;
    InFrames(l, held, y);
    assert FrameOf(l.pool.G, y) in donors && NoRoom(m, donors);
    forall s | s in Free(m.pool)
      ensures Underused(l, s / l.pool.G, below)
    {
      FreeParts(m, held, s);
    }
  }

  lemma OrderlyDone(l: Ledger, m: Ledger, held: multiset<nat>, ren: Renaming, donors: seq<nat>, below: real)
    requires l.pool.Framed? && m.pool.Framed? && m.pool.G == l.pool.G
    requires Exact(l, held) && Exact(m, held) && Orderly(l, m, ren, donors, l.numBlocks)
    requires forall f: nat :: f in donors <==> f < |l.pool.frames| && Underused(l, f, below)
    ensures CompactsTo(l, m, ren, below)
  {
    hide Exact, Refs, Free, Renames, Underused, TakenBefore, Moved;
    hide MovedOut, MovedInOrder, BestTaken, Shrunk, StayedLast;
    MovedLive(ren);
    MovedDone(l, m, held, ren, donors, below);
    TakenDone(l, m, held, ren, donors, below);
    forall y | y in Refs(l.tables) && Underused(l, y / l.pool.G, below) && y !in Moved(ren)
      ensures forall s | s in Free(m.pool) :: Underused(l, s / l.pool.G, below)
      ensures forall x | x in Moved(ren) :: x < y
    {
      StayedDone(l, m, held, ren, donors, below, y);
    }
  }

  /** The outcome of compaction, read from the live blocks of each frame before it. */
  lemma CompactedOrder(l: Ledger, held: multiset<nat>, below: real) returns (ren: Renaming)
    requires Kept(l, held) && l.pool.Framed?
    ensures Compacted(l, below).pool.Framed? && CompactsTo(l, Compacted(l, below), ren, below)
  {
    hide DonorFrames, EmptyAll, Swept, Orderly, CompactsTo, Counted, Partition, Free, Refs;
    var donors := DonorFrames(l.pool.G, l.pool.frames, below);
    CompactedSwept(l, held, below);
    DonorsUnderused(l, held, below);
    ren := SweptOrderly(l, held, donors, l.numBlocks);
    SweptKept(l, held, donors, l.numBlocks);
    OrderlyDone(l, Swept(l, donors, l.numBlocks), held, ren, donors, below);
  }

  /** The tables fix where a table block goes. */
  lemma OneImage(l: Ledger, m: Ledger, ren: Renaming, ren': Renaming, x: nat)
    requires Renames(l, m, ren) && Renames(l, m, ren') && x in Refs(l.tables)
    ensures x in ren && x in ren' && ren[x] == ren'[x]
  {
    hide Refs, RenamesCounts;
    var k := RefsOwner(l.tables, x);
    var i :| 0 <= i < |l.tables[k]| && l.tables[k][i] == x;
    assert RenamesTable(l.tables[k], m.tables[k], ren) && RenamesTable(l.tables[k], m.tables[k], ren');
  }

  lemma RenamesLive(l: Ledger, m: Ledger, ren: Renaming)
    requires Renames(l, m, ren)
    ensures ren.Keys == l.refcount.Keys
  {
    hide RenamesTable, Injective;
  }

  lemma LiveIsReferred(l: Ledger, held: multiset<nat>, x: nat)
    requires Exact(l, held) && x in l.refcount && x !in Refs(l.tables)
    ensures x in held
  {
    hide Refs, Free, Partition, PoolOk;
    assert CountOf(l.refcount, x) == (Refs(l.tables) + held)[x];
  }

  /** Two renamings to one state that move only table blocks are the same. */
  lemma SameRenaming(l: Ledger, m: Ledger, held: multiset<nat>, ren: Renaming, ren': Renaming)
    requires Exact(l, held) && Renames(l, m, ren) && Renames(l, m, ren')
    requires forall x | x in Moved(ren) :: x !in held
    requires forall x | x in Moved(ren') :: x in Refs(l.tables)
    ensures ren == ren'
  {
    hide Exact, Refs, Renames;
    RenamesLive(l, m, ren);
    RenamesLive(l, m, ren');
    forall x | x in ren
      ensures ren[x] == ren'[x]
    {
      assert x in l.refcount.Keys;
      if x in Refs(l.tables) {
        OneImage(l, m, ren, ren', x);
      } else {
        LiveIsReferred(l, held, x);
        assert x !in Moved(ren) && x !in Moved(ren') && x in ren'.Keys;
      }
    }
  }
}
