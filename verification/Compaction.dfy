// Migrating blocks between frames: one move keeps the books exact, and any run of moves
// amounts to one injective renaming of the live blocks.
module Compaction {
  import opened Counting
  import opened Pool
  import opened Bookkeeping

  // ---- one move ----------------------------------------------------------

  function ReplaceIn(t: seq<nat>, b: nat, nb: nat): seq<nat> {
    seq(|t|, i requires 0 <= i < |t| => if t[i] == b then nb else t[i])
  }

  function Replace(tables: map<int, seq<nat>>, b: nat, nb: nat): map<int, seq<nat>> {
    map k | k in tables :: ReplaceIn(tables[k], b, nb)
  }

  /** The free offset of nb is consumed, that of b given back. */
  function SwapFree(p: Pool, b: nat, nb: nat): Pool {
    match p
    case Stack(_) => p
    case Framed(G, frames, cur) =>
      if nb / G < |frames| then Give(Framed(G, frames[nb / G := frames[nb / G] - {nb % G}], cur), b) else p
  }

  /** Block b becomes nb everywhere. */
  function Move(l: Ledger, b: nat, nb: nat): Ledger {
    l.(tables := Replace(l.tables, b, nb),
       refcount := (l.refcount - {b})[nb := Rc(l, b)],
       pool := SwapFree(l.pool, b, nb))
  }

  /** Occurrences of x after b has been replaced by nb. */
  function Swapped(m: multiset<nat>, b: nat, nb: nat, x: nat): nat {
    if x == nb then m[nb] + m[b] else if x == b then 0 else m[x]
  }

  lemma {:induction false} ReplaceInCount(t: seq<nat>, b: nat, nb: nat, x: nat)
    requires b != nb
    ensures multiset(ReplaceIn(t, b, nb))[x] == Swapped(multiset(t), b, nb, x)
  {
    if t != [] {
      var n := |t| - 1;
      var r := ReplaceIn(t, b, nb);
      ReplaceInCount(t[..n], b, nb, x);
      Snoc(t);
      assert r == ReplaceIn(t[..n], b, nb) + [r[n]];
    }
  }

  lemma {:induction false} ReplaceCount(tables: map<int, seq<nat>>, b: nat, nb: nat, x: nat)
    requires b != nb
    ensures Refs(Replace(tables, b, nb))[x] == Swapped(Refs(tables), b, nb, x)
    decreases |tables|
  {
    var r := Replace(tables, b, nb);
    if k: int :| k in tables {
      RefsPick(tables, k);
      RefsPick(r, k);
      assert r - {k} == Replace(tables - {k}, b, nb);
      ReplaceCount(tables - {k}, b, nb, x);
      ReplaceInCount(tables[k], b, nb, x);
    } else {
      assert forall k: int :: k !in r;
    }
  }

  lemma SwapFreeMeaning(p: Pool, n: nat, b: nat, nb: nat)
    requires p.Framed? && PoolOk(p, n) && nb in Free(p) && b !in Free(p) && b < n
    ensures PoolOk(SwapFree(p, b, nb), n) && Free(SwapFree(p, b, nb)) == Free(p) - {nb} + {b}
  {
    FreeBelow(p, n);
    BlockParts(p.G, n, |p.frames|, nb);
    FreeMember(p.G, p.frames, p.cur, n, nb / p.G, nb % p.G);
    FrameUpdate(p.G, p.frames, p.cur, p.cur, n, nb / p.G, p.frames[nb / p.G] - {nb % p.G});
    FramedRemoves(p.G, p.frames, p.cur, p.cur, n, nb / p.G, nb % p.G);
    GiveFree(Framed(p.G, p.frames[nb / p.G := p.frames[nb / p.G] - {nb % p.G}], p.cur), n, b);
  }

  /** A block held by no caller may move to a free id: the books stay exact. */
  lemma MoveExact(l: Ledger, held: multiset<nat>, b: nat, nb: nat)
    requires Exact(l, held) && l.pool.Framed? && b in l.refcount && b !in held && nb in Free(l.pool)
    ensures Exact(Move(l, b, nb), held)
    ensures Free(Move(l, b, nb).pool) == Free(l.pool) - {nb} + {b}
    ensures Move(l, b, nb).refcount.Keys == l.refcount.Keys - {b} + {nb}
  {
    var m := Move(l, b, nb);
    assert b in l.refcount.Keys && nb !in l.refcount.Keys;
    SwapFreeMeaning(l.pool, l.numBlocks, b, nb);
    assert m.refcount.Keys == l.refcount.Keys - {b} + {nb};
    CountedMove(l, held, b, nb);
  }

  lemma CountedMove(l: Ledger, held: multiset<nat>, b: nat, nb: nat)
    requires Counted(l.refcount, Refs(l.tables) + held) && b in l.refcount && nb !in l.refcount && b !in held
    ensures Counted(Move(l, b, nb).refcount, Refs(Move(l, b, nb).tables) + held)
  {
    var m := Move(l, b, nb);
    assert CountOf(l.refcount, nb) == (Refs(l.tables) + held)[nb];
    assert CountOf(l.refcount, b) == (Refs(l.tables) + held)[b];
    forall x: nat
      ensures CountOf(m.refcount, x) == (Refs(m.tables) + held)[x]
    {
      ReplaceCount(l.tables, b, nb, x);
      assert CountOf(l.refcount, x) == (Refs(l.tables) + held)[x];
    }
  }

  // ---- runs of moves -----------------------------------------------------

  type Renaming = map<nat, nat>

  ghost predicate Injective(ren: Renaming) {
    forall x, y | x in ren && y in ren && ren[x] == ren[y] :: x == y
  }

  /** m is l with its live blocks renamed by ren: same tables, counts and counters. */
  ghost predicate Renames(l: Ledger, m: Ledger, ren: Renaming) {
    && RenamesCounts(l.refcount, m.refcount, ren)
    && m.tables.Keys == l.tables.Keys
    && (forall k | k in l.tables :: RenamesTable(l.tables[k], m.tables[k], ren))
    && m == l.(tables := m.tables, refcount := m.refcount, pool := m.pool)
  }

  ghost predicate RenamesTable(t: seq<nat>, u: seq<nat>, ren: Renaming) {
    |u| == |t| && forall i | 0 <= i < |t| :: t[i] in ren && u[i] == ren[t[i]]
  }

  function Identity(l: Ledger): Renaming {
    map b | b in l.refcount :: b
  }

  lemma RenamesSelf(l: Ledger, held: multiset<nat>)
    requires Exact(l, held)
    ensures Renames(l, l, Identity(l))
  {
    forall k, i | k in l.tables && 0 <= i < |l.tables[k]|
      ensures l.tables[k][i] in l.refcount
    {
      TableLive(l, held, k, l.tables[k][i]);
    }
    forall y | y in l.refcount
      ensures exists x | x in Identity(l) :: Identity(l)[x] == y
    {
      assert y in Identity(l) && Identity(l)[y] == y;
    }
  }

  function Then(ren: Renaming, b: nat, nb: nat): Renaming {
    map x | x in ren :: if ren[x] == b then nb else ren[x]
  }

  /** rc' is rc with its keys renamed by ren. */
  ghost predicate RenamesCounts(rc: map<nat, nat>, rc': map<nat, nat>, ren: Renaming) {
    && ren.Keys == rc.Keys && Injective(ren)
    && (forall x | x in ren :: ren[x] in rc' && rc'[ren[x]] == rc[x])
    && (forall y | y in rc' :: exists x | x in ren :: ren[x] == y)
  }

  lemma CountsMove(rc0: map<nat, nat>, rc: map<nat, nat>, ren: Renaming, b: nat, nb: nat)
    requires RenamesCounts(rc0, rc, ren) && b in rc && nb !in rc
    ensures RenamesCounts(rc0, (rc - {b})[nb := rc[b]], Then(ren, b, nb))
  {
    var rc', r := (rc - {b})[nb := rc[b]], Then(ren, b, nb);
    forall y | y in rc'
      ensures exists x | x in r :: r[x] == y
    {
      var z := if y == nb then b else y;
      assert z in rc;
      var x :| x in ren && ren[x] == z;
      assert r[x] == y;
    }
    assert forall x | x in r :: ren[x] in rc;
  }

  /** A move extends the renaming. */
  lemma RenamesMove(l0: Ledger, l: Ledger, ren: Renaming, b: nat, nb: nat)
    requires Renames(l0, l, ren) && b in l.refcount && nb !in l.refcount
    ensures Renames(l0, Move(l, b, nb), Then(ren, b, nb))
  {
    CountsMove(l0.refcount, l.refcount, ren, b, nb);
    var m := Move(l, b, nb);
    forall k | k in l0.tables
      ensures RenamesTable(l0.tables[k], m.tables[k], Then(ren, b, nb))
    {
      assert RenamesTable(l0.tables[k], l.tables[k], ren);
    }
  }

  /** Two table entries share a block after the renaming exactly when they did before. */
  lemma AliasingPreserved(l: Ledger, m: Ledger, ren: Renaming, k: int, i: nat, k': int, i': nat)
    requires Renames(l, m, ren) && k in l.tables && k' in l.tables
    requires i < |l.tables[k]| && i' < |l.tables[k']|
    ensures i < |m.tables[k]| && i' < |m.tables[k']|
    ensures m.tables[k][i] == m.tables[k'][i'] <==> l.tables[k][i] == l.tables[k'][i']
  {
    assert RenamesTable(l.tables[k], m.tables[k], ren);
    assert RenamesTable(l.tables[k'], m.tables[k'], ren);
  }

  // ---- who owns a block --------------------------------------------------

  /** A position in a block table. */
  datatype Pos = Pos(key: int, index: nat)

  type Owners = map<nat, seq<Pos>>

  predicate At(tables: map<int, seq<nat>>, p: Pos, b: nat) {
    p.key in tables && p.index < |tables[p.key]| && tables[p.key][p.index] == b
  }

  /** own lists exactly the positions of b, and has no entry when there are none. */
  ghost predicate OwnsExactly(own: Owners, tables: map<int, seq<nat>>, b: nat) {
    && (b in own ==> own[b] != [])
    && forall p: Pos :: At(tables, p, b) <==> b in own && p in own[b]
  }

  /** own lists the positions in tables of done, and the first i of table k. */
  ghost predicate OwnsUpto(own: Owners, tables: map<int, seq<nat>>, done: set<int>, k: int, i: nat) {
    && (forall b | b in own :: own[b] != [])
    && forall b: nat, p: Pos :: (b in own && p in own[b]) <==>
         At(tables, p, b) && (p.key in done || (p.key == k && p.index < i))
  }

  function AddOwner(own: Owners, b: nat, p: Pos): Owners {
    own[b := (if b in own then own[b] else []) + [p]]
  }

  /** _owners. */
  method OwnersOf(tables: map<int, seq<nat>>) returns (own: Owners)
    ensures forall b: nat :: OwnsExactly(own, tables, b)
  {
    own := map[];
    var keys := tables.Keys;
    ghost var done: set<int> := {};
    while |keys| > 0
      invariant done + keys == tables.Keys && done !! keys
      invariant forall k :: OwnsUpto(own, tables, done, k, 0)
      decreases keys
    {
      var k := AnyOf(keys);
      var tab := tables[k];
      for i := 0 to |tab|
        invariant OwnsUpto(own, tables, done, k, i)
      {
        own := AddOwner(own, tab[i], Pos(k, i));
      }
      assert forall k' :: OwnsUpto(own, tables, done + {k}, k', 0);
      keys, done := keys - {k}, done + {k};
    }
    forall b: nat
      ensures OwnsExactly(own, tables, b)
    {
      assert OwnsUpto(own, tables, done, 0, 0);
    }
  }

  /** tables[p.key][p.index] = nb. */
  function SetAt(tables: map<int, seq<nat>>, p: Pos, nb: nat): map<int, seq<nat>>
    requires p.key in tables && p.index < |tables[p.key]|
  {
    var t: seq<nat> := tables[p.key][p.index := nb];
    tables[p.key := t]
  }

  /** Tables with the listed positions already rewritten to nb. */
  ghost predicate Rewritten(old': map<int, seq<nat>>, tables: map<int, seq<nat>>, ps: seq<Pos>, nb: nat) {
    && tables.Keys == old'.Keys
    && (forall k | k in old' :: |tables[k]| == |old'[k]|)
    && forall k, i | k in old' && 0 <= i < |old'[k]| :: tables[k][i] == if Pos(k, i) in ps then nb else old'[k][i]
  }

  lemma RewrittenAll(old': map<int, seq<nat>>, tables: map<int, seq<nat>>, ps: seq<Pos>, b: nat, nb: nat)
    requires Rewritten(old', tables, ps, nb) && forall p: Pos :: At(old', p, b) <==> p in ps
    ensures tables == Replace(old', b, nb)
  {
    forall k | k in old'
      ensures tables[k] == ReplaceIn(old'[k], b, nb)
    {
      forall i | 0 <= i < |old'[k]|
        ensures tables[k][i] == ReplaceIn(old'[k], b, nb)[i]
      {
        assert At(old', Pos(k, i), b) <==> Pos(k, i) in ps;
      }
    }
  }

  /** The loop that rewrites every occurrence of b to nb in place. */
  method Rewrite(tables: map<int, seq<nat>>, where: seq<Pos>, b: nat, nb: nat) returns (r: map<int, seq<nat>>)
    requires forall p: Pos :: At(tables, p, b) <==> p in where
    ensures r == Replace(tables, b, nb)
  {
    r := tables;
    for j := 0 to |where|
      invariant Rewritten(tables, r, where[..j], nb)
    {
      var p := where[j];
      assert p in where;
      assert At(tables, p, b);
      r := SetAt(r, p, nb);
      assert where[..j + 1] == where[..j] + [p];
    }
    assert where[..|where|] == where;
    RewrittenAll(tables, r, where, b, nb);
  }

  /** Moving b leaves the positions of every other block alone. */
  lemma OwnsAfterMove(own: Owners, tables: map<int, seq<nat>>, b: nat, nb: nat, x: nat, ps: seq<Pos>)
    requires OwnsExactly(own, tables, x) && x != b && x != nb
    ensures OwnsExactly(own[nb := ps], Replace(tables, b, nb), x)
  {
    forall p: Pos
      ensures At(Replace(tables, b, nb), p, x) <==> At(tables, p, x)
    {
    }
  }

  // ---- a compaction in progress ------------------------------------------

  function FrameOf(G: pos, b: nat): int { b / G }

  function Moved(ren: Renaming): set<nat> {
    set x | x in ren && ren[x] != x
  }

  /** l is l0 renamed by ren; only blocks of donor frames have moved, each once and out of
      the donors, never one a caller holds; own knows the blocks still in donor frames. */
  ghost predicate Compacting(l0: Ledger, l: Ledger, ren: Renaming, G: pos, donors: seq<nat>, own: Owners,
                             moved: nat, held: multiset<nat>)
  {
    && Renames(l0, l, ren)
    && moved == |Moved(ren)|
    && (forall x | x in Moved(ren) :: FrameOf(G, x) in donors && FrameOf(G, ren[x]) !in donors && x !in held)
    && forall b | b in l.refcount && FrameOf(G, b) in donors :: OwnsExactly(own, l.tables, b)
  }

  lemma MovedGrows(rc: set<nat>, ren: Renaming, G: pos, donors: seq<nat>, b: nat, nb: nat)
    requires Injective(ren) && (exists x | x in ren :: ren[x] == b)
    requires (forall x | x in ren :: ren[x] in rc) && nb !in rc
    requires forall x | x in Moved(ren) :: FrameOf(G, ren[x]) !in donors
    requires FrameOf(G, b) in donors && b in rc
    ensures b in ren && Moved(Then(ren, b, nb)) == Moved(ren) + {b} && b !in Moved(ren)
    ensures Then(ren, b, nb) == ren[b := nb]
  {
    var x :| x in ren && ren[x] == b;
    assert x !in Moved(ren);
    assert x == b;
    var r := Then(ren, b, nb);
    forall y | y in ren
      ensures r[y] == ren[b := nb][y]
    {
      assert ren[y] == b ==> y == b;
    }
  }

  lemma CompactingMove(l0: Ledger, l: Ledger, ren: Renaming, G: pos, donors: seq<nat>, own: Owners,
                       moved: nat, held: multiset<nat>, b: nat, nb: nat)
    requires Compacting(l0, l, ren, G, donors, own, moved, held)
    requires b in l.refcount && FrameOf(G, b) in donors && b !in held && b in own
    requires nb !in l.refcount && FrameOf(G, nb) !in donors
    ensures Compacting(l0, Move(l, b, nb), Then(ren, b, nb), G, donors, own[nb := own[b]], moved + 1, held)
  {
    hide Renames, OwnsExactly, Replace;
    RenamesMove(l0, l, ren, b, nb);
    MovedFacts(l0, l, ren, G, donors, b, nb);
    var m := Move(l, b, nb);
    forall x | x in m.refcount && FrameOf(G, x) in donors
      ensures OwnsExactly(own[nb := own[b]], m.tables, x)
    {
      OwnsAfterMove(own, l.tables, b, nb, x, own[b]);
    }
  }

  lemma MovedFacts(l0: Ledger, l: Ledger, ren: Renaming, G: pos, donors: seq<nat>, b: nat, nb: nat)
    requires Renames(l0, l, ren) && b in l.refcount && nb !in l.refcount
    requires forall x | x in Moved(ren) :: FrameOf(G, ren[x]) !in donors
    requires FrameOf(G, b) in donors && FrameOf(G, nb) !in donors
    ensures |Moved(Then(ren, b, nb))| == |Moved(ren)| + 1
    ensures Moved(Then(ren, b, nb)) == Moved(ren) + {b}
    ensures forall x | x in Moved(Then(ren, b, nb)) :: FrameOf(G, Then(ren, b, nb)[x]) !in donors
  {
    MovedGrows(l.refcount.Keys, ren, G, donors, b, nb);
  }

  /** Caller-held blocks stay out of tables. */
  lemma PrivateMove(l: Ledger, held: multiset<nat>, b: nat, nb: nat)
    requires Exact(l, held) && nb !in l.refcount && b != nb && forall x | x in held :: x !in Refs(l.tables)
    ensures forall x | x in held :: x !in Refs(Move(l, b, nb).tables)
  {
    forall x | x in held
      ensures x !in Refs(Move(l, b, nb).tables)
    {
      ReplaceCount(l.tables, b, nb, x);
      assert CountOf(l.refcount, x) == (Refs(l.tables) + held)[x];
    }
  }

  /** An owned block is not one a caller holds. */
  lemma OwnedPrivate(own: Owners, tables: map<int, seq<nat>>, b: nat, held: multiset<nat>)
    requires OwnsExactly(own, tables, b) && b in own && forall x | x in held :: x !in Refs(tables)
    ensures b !in held
  {
    var p := own[b][0];
    assert p in own[b];
    assert At(tables, p, b);
    RefsMember(tables, p.key, b);
  }
}
