// Compaction as a function of the allocator's state: which frames are emptied, in which order
// their blocks move, and where each goes.
module CompactionRule {
  import opened Counting
  import opened Pool
  import opened Bookkeeping
  import opened FramePlan
  import opened Compaction

  /** A frame partly used, and below the compaction threshold. */
  predicate SparseFrame(G: pos, s: set<nat>, below: real) {
    0 < G - |s| && ((G - |s|) as real) < below * (G as real)
  }

  /** The frames to be emptied, ascending. */
  function DonorFrames(G: pos, frames: Frames, below: real): seq<nat> {
    if frames == [] then [] else
    var n := |frames| - 1;
    DonorFrames(G, frames[..n], below) + if SparseFrame(G, frames[n], below) then [n] else []
  }

  /** The used block ids among the first n offsets of frame f, ascending. */
  function UsedIn(G: pos, s: set<nat>, f: nat, n: nat): seq<nat> {
    if n == 0 then [] else UsedIn(G, s, f, n - 1) + if n - 1 !in s then [BlockId(G, f, n - 1)] else []
  }

  /** The fullest of the first n frames with room outside the donors, lowest index on ties,
      -1 when there is none. */
  function Target(frames: Frames, donors: seq<nat>, f: nat, n: nat): (t: int)
    requires n <= |frames|
    ensures -1 <= t < n && (t >= 0 ==> frames[t] != {} && t !in donors && t != f)
  {
    if n == 0 then -1 else
    var best, g := Target(frames, donors, f, n - 1), n - 1;
    if g == f || g in donors || frames[g] == {} then best
    else if best < 0 || |frames[g]| < |frames[best]| then g else best
  }

  /** Where a block of donor frame f goes, if anywhere. */
  function Place(l: Ledger, donors: seq<nat>, f: nat): (t: int)
    requires l.pool.Framed?
    ensures t >= 0 ==> t < |l.pool.frames| && l.pool.frames[t] != {} && t !in donors && t != f
  {
    Target(l.pool.frames, donors, f, |l.pool.frames|)
  }

  /** The lowest free id of frame t. */
  function LowestFree(l: Ledger, t: nat): nat
    requires l.pool.Framed? && t < |l.pool.frames| && l.pool.frames[t] != {}
  {
    BlockId(l.pool.G, t, MinOf(l.pool.frames[t]))
  }

  function MoveTo(l: Ledger, b: nat, nb: nat): (m: Ledger)
    requires l.pool.Framed?
    ensures m == Move(l, b, nb)
    ensures m.pool.Framed? && m.pool.G == l.pool.G && m.numBlocks == l.numBlocks && |m.pool.frames| == |l.pool.frames|
  {
    MoveShape(l, b, nb);
    Move(l, b, nb)
  }

  lemma MoveShape(l: Ledger, b: nat, nb: nat)
    requires l.pool.Framed?
    ensures var m := Move(l, b, nb);
      m.pool.Framed? && m.pool.G == l.pool.G && m.numBlocks == l.numBlocks && |m.pool.frames| == |l.pool.frames|
  {
    hide Replace;
  }

  /** Block b of donor frame f moves when it is in a table and some frame has room. */
  ghost function MoveOut(l: Ledger, donors: seq<nat>, f: nat, b: nat): (m: Ledger)
    requires l.pool.Framed?
    ensures m.pool.Framed? && m.pool.G == l.pool.G && m.numBlocks == l.numBlocks && |m.pool.frames| == |l.pool.frames|
  {
    var t := Place(l, donors, f);
    if b !in Refs(l.tables) || t < 0 then l else MoveTo(l, b, LowestFree(l, t))
  }

  /** The blocks bs of donor frame f, one after another. */
  ghost function MoveAll(l: Ledger, donors: seq<nat>, f: nat, bs: seq<nat>): (m: Ledger)
    requires l.pool.Framed?
    ensures m.pool.Framed? && m.pool.G == l.pool.G && m.numBlocks == l.numBlocks && |m.pool.frames| == |l.pool.frames|
  {
    if bs == [] then l else MoveOut(MoveAll(l, donors, f, bs[..|bs| - 1]), donors, f, bs[|bs| - 1])
  }

  /** One donor frame. */
  ghost function EmptyOne(l: Ledger, donors: seq<nat>, f: nat): (m: Ledger)
    requires l.pool.Framed?
    ensures m.pool.Framed? && m.pool.G == l.pool.G && m.numBlocks == l.numBlocks && |m.pool.frames| == |l.pool.frames|
  {
    if f >= |l.pool.frames| then l else MoveAll(l, donors, f, UsedIn(l.pool.G, l.pool.frames[f], f, l.pool.G))
  }

  /** The donor frames ds, one after another. */
  ghost function EmptyAll(l: Ledger, donors: seq<nat>, ds: seq<nat>): (m: Ledger)
    requires l.pool.Framed?
    ensures m.pool.Framed? && m.pool.G == l.pool.G && m.numBlocks == l.numBlocks && |m.pool.frames| == |l.pool.frames|
  {
    if ds == [] then l else EmptyOne(EmptyAll(l, donors, ds[..|ds| - 1]), donors, ds[|ds| - 1])
  }

  /** compact. */
  ghost function Compacted(l: Ledger, below: real): Ledger
    requires l.pool.Framed?
  {
    var donors := DonorFrames(l.pool.G, l.pool.frames, below);
    EmptyAll(l, donors, donors)
  }

  /** release, with the compaction that follows it when enabled. */
  ghost function ReleaseWith(l: Ledger, id: int, below: real): Ledger
    requires id in l.tables
  {
    var m := Release(l, id);
    if below > 0.0 && m.pool.Framed? then Compacted(m, below) else m
  }

  // ---- what it keeps -----------------------------------------------------

  /** Every block a caller holds is referred to by that caller alone. */
  ghost predicate Private(l: Ledger, held: multiset<nat>) {
    forall b | b in held :: held[b] == 1 && b !in Refs(l.tables)
  }

  ghost predicate Sound(l: Ledger, held: multiset<nat>) {
    Exact(l, held) && Private(l, held)
  }

  lemma LowestIsFree(l: Ledger, held: multiset<nat>, t: nat)
    requires Exact(l, held) && l.pool.Framed? && t < |l.pool.frames| && l.pool.frames[t] != {}
    ensures LowestFree(l, t) in Free(l.pool) && LowestFree(l, t) !in l.refcount
  {
    var o := MinOf(l.pool.frames[t]);
    FreeMember(l.pool.G, l.pool.frames, l.pool.cur, l.numBlocks, t, o);
    assert l.refcount.Keys !! Free(l.pool);
  }

  lemma InTableLive(l: Ledger, held: multiset<nat>, b: nat)
    requires Exact(l, held) && b in Refs(l.tables)
    ensures b in l.refcount
  {
    assert CountOf(l.refcount, b) == (Refs(l.tables) + held)[b];
  }

  lemma MoveOutSound(l: Ledger, held: multiset<nat>, donors: seq<nat>, f: nat, b: nat)
    requires Sound(l, held) && l.pool.Framed?
    ensures Sound(MoveOut(l, donors, f, b), held)
  {
    hide Exact, Free, Refs, Move;
    var t := Place(l, donors, f);
    if b in Refs(l.tables) && t >= 0 {
      InTableLive(l, held, b);
      LowestIsFree(l, held, t);
      MoveExact(l, held, b, LowestFree(l, t));
      PrivateMove(l, held, b, LowestFree(l, t));
    }
  }

  lemma {:induction false} MoveAllSound(l: Ledger, held: multiset<nat>, donors: seq<nat>, f: nat, bs: seq<nat>)
    requires Sound(l, held) && l.pool.Framed?
    ensures Sound(MoveAll(l, donors, f, bs), held)
  {
    hide Sound, MoveOut;
    if bs != [] {
      MoveAllSound(l, held, donors, f, bs[..|bs| - 1]);
      MoveOutSound(MoveAll(l, donors, f, bs[..|bs| - 1]), held, donors, f, bs[|bs| - 1]);
    }
  }

  lemma {:induction false} EmptyAllSound(l: Ledger, held: multiset<nat>, donors: seq<nat>, ds: seq<nat>)
    requires Sound(l, held) && l.pool.Framed?
    ensures Sound(EmptyAll(l, donors, ds), held)
  {
    hide Sound, MoveAll, UsedIn;
    if ds != [] {
      var p, f := ds[..|ds| - 1], ds[|ds| - 1];
      EmptyAllSound(l, held, donors, p);
      var m := EmptyAll(l, donors, p);
      if f < |m.pool.frames| { MoveAllSound(m, held, donors, f, UsedIn(m.pool.G, m.pool.frames[f], f, m.pool.G)); }
    }
  }

  /** Compaction keeps every count exact and every held block private. */
  lemma CompactedSound(l: Ledger, held: multiset<nat>, below: real)
    requires Sound(l, held) && l.pool.Framed?
    ensures Sound(Compacted(l, below), held)
  {
    hide Sound, EmptyAll;
    var donors := DonorFrames(l.pool.G, l.pool.frames, below);
    EmptyAllSound(l, held, donors, donors);
  }
}
