// What the simulator can see of an allocator, whatever the policy: block tables, scratch
// held outside them, and for the contiguous policy the unconsumed reservations.
module AllocatorView {
  import opened Counting
  import opened Bookkeeping

  type Tables = map<int, seq<nat>>

  datatype Store = Store(n: nat, spanned: bool, tables: Tables, held: multiset<nat>,
                         slack: map<int, nat>, scratch: Tables)

  /** References to x from tables and callers. */
  ghost function Uses(s: Store, x: nat): nat {
    (Refs(s.tables) + s.held)[x]
  }

  ghost function Live(s: Store): set<nat> {
    set x | x in Refs(s.tables) + s.held
  }

  /** num_free. */
  ghost function FreeCount(s: Store): int {
    s.n - |Live(s)|
  }

  /** Blocks just allocated: distinct, and unused before. */
  ghost predicate Unused(s: Store, bs: seq<nat>) {
    Distinct(bs) && forall b | b in bs :: Uses(s, b) == 0
  }

  ghost predicate AllDistinct(tables: Tables) {
    forall k | k in tables :: Distinct(tables[k])
  }

  // ---- effects of the operations -----------------------------------------

  /** admit. */
  ghost predicate Admits(s: Store, s': Store, id: int, bs: seq<nat>, nTotal: nat) {
    && Unused(s, bs) && |bs| <= nTotal
    && s' == s.(tables := s.tables[id := bs],
                slack := if s.spanned then s.slack[id := nTotal - |bs|] else s.slack,
                scratch := if s.spanned then s.scratch[id := []] else s.scratch)
  }

  /** admit_shared of a policy that shares. */
  ghost predicate Shares(s: Store, s': Store, id: int, shared: seq<nat>, bs: seq<nat>) {
    && Unused(s, bs) && (forall b | b in shared :: b in Refs(s.tables))
    && s' == s.(tables := s.tables[id := shared + bs])
  }

  /** append_block. */
  ghost predicate Appends(s: Store, s': Store, id: int, b: nat) {
    && Unused(s, [b]) && id in s.tables && (s.spanned ==> id in s.slack && s.slack[id] > 0)
    && s' == s.(tables := s.tables[id := s.tables[id] + [b]],
                slack := if s.spanned then s.slack[id := s.slack[id] - 1] else s.slack)
  }

  /** alloc_scratch. */
  ghost predicate Holds(s: Store, s': Store, bs: seq<nat>) {
    Unused(s, bs) && s' == s.(held := s.held + multiset(bs))
  }

  /** unref_blocks of scratch. */
  ghost predicate Drops(s: Store, s': Store, bs: seq<nat>) {
    multiset(bs) <= s.held && s' == s.(held := s.held - multiset(bs))
  }

  /** take_scratch of the contiguous policy. */
  ghost predicate Reserves(s: Store, s': Store, id: int, bs: seq<nat>) {
    && Unused(s, bs) && id in s.slack && id in s.scratch && |bs| <= s.slack[id]
    && s' == s.(held := s.held + multiset(bs), slack := s.slack[id := s.slack[id] - |bs|],
                scratch := s.scratch[id := bs + s.scratch[id]])
  }

  /** spec_round_adopt: kept blocks move into the table, the other held branches go. */
  ghost predicate Adopts(s: Store, s': Store, id: int, dropTail: bool, kept: seq<nat>, branches: multiset<nat>) {
    && id in s.tables && (dropTail ==> s.tables[id] != []) && multiset(kept) <= branches <= s.held
    && var t := s.tables[id];
       s' == s.(tables := s.tables[id := (if dropTail then t[..|t| - 1] else t) + kept], held := s.held - branches)
  }

  /** s with sequence id gone. */
  function Without(s: Store, id: int): Store {
    s.(tables := s.tables - {id}, slack := s.slack - {id}, scratch := s.scratch - {id},
       held := if id in s.scratch then s.held - multiset(s.scratch[id]) else s.held)
  }

  /** No block is both held and in a table. */
  ghost predicate HeldApart(s: Store) {
    forall x | x in s.held :: x !in Refs(s.tables)
  }

  /** Every held block has no other reference. */
  ghost predicate HeldAlone(s: Store) {
    forall x | x in s.held :: Uses(s, x) == 1
  }

  lemma AloneApart(s: Store)
    requires HeldAlone(s)
    ensures HeldApart(s)
  {
    forall x | x in s.held
      ensures x !in Refs(s.tables)
    {
      assert Uses(s, x) == 1;
    }
  }

  /** s' is s with table blocks renamed by an injection, references and all. */
  ghost predicate Image(s: Store, s': Store, ren: map<nat, nat>) {
    && s' == s.(tables := s'.tables) && s'.tables.Keys == s.tables.Keys
    && (forall k | k in s.tables :: SameShape(s.tables[k], s'.tables[k], ren))
    && (forall x, y | x in ren && y in ren && ren[x] == ren[y] :: x == y)
    && (forall x | x in ren :: Uses(s', ren[x]) == Uses(s, x))
    && FreeCount(s') == FreeCount(s)
  }

  ghost predicate SameShape(t: seq<nat>, u: seq<nat>, ren: map<nat, nat>) {
    |u| == |t| && forall i | 0 <= i < |t| :: t[i] in ren && u[i] == ren[t[i]]
  }

  /** release, possibly followed by compaction. */
  ghost predicate Retires(s: Store, s': Store, id: int, ren: map<nat, nat>, compacts: bool) {
    if compacts then Image(Without(s, id), s', ren) else s' == Without(s, id)
  }

  // ---- counting ----------------------------------------------------------

  lemma LiveIs(s: Store, x: nat)
    ensures x in Live(s) <==> Uses(s, x) > 0
  {
  }

  /** Unused blocks that come into use leave that many fewer free. */
  lemma LiveGrows(s: Store, s': Store, bs: seq<nat>)
    requires Unused(s, bs) && s'.n == s.n
    requires forall x: nat :: Uses(s', x) > 0 <==> Uses(s, x) > 0 || x in bs
    ensures FreeCount(s') == FreeCount(s) - |bs|
  {
    DistinctSize(bs);
    forall x: nat
      ensures x in Live(s') <==> x in Live(s) || x in bs
    {
      LiveIs(s, x);
      LiveIs(s', x);
    }
    assert Live(s') == Live(s) + Elems(bs);
    forall x | x in bs
      ensures x !in Live(s)
    {
      LiveIs(s, x);
    }
  }

  lemma LiveShrinks(s: Store, s': Store)
    requires s'.n == s.n && forall x: nat | Uses(s', x) > 0 :: Uses(s, x) > 0
    ensures FreeCount(s') >= FreeCount(s)
  {
    forall x | x in Live(s')
      ensures x in Live(s)
    {
      LiveIs(s, x);
      LiveIs(s', x);
    }
    SubsetSize(Live(s'), Live(s));
  }

  /** Occurrences of x in a list without repeats. */
  lemma {:induction false} DistinctCount(t: seq<nat>, x: nat)
    requires Distinct(t)
    ensures multiset(t)[x] == if x in t then 1 else 0
  {
    if t != [] {
      var p := t[..|t| - 1];
      Snoc(t);
      DistinctCount(p, x);
      assert t == p + [t[|t| - 1]];
    }
  }

  lemma AdmitUses(s: Store, s': Store, id: int, bs: seq<nat>, nTotal: nat, x: nat)
    requires Admits(s, s', id, bs, nTotal) && id !in s.tables
    ensures Uses(s', x) == Uses(s, x) + if x in bs then 1 else 0
  {
    RefsNew(s.tables, id, bs);
    DistinctCount(bs, x);
  }

  lemma AppendUses(s: Store, s': Store, id: int, b: nat, x: nat)
    requires Appends(s, s', id, b)
    ensures Uses(s', x) == Uses(s, x) + if x == b then 1 else 0
  {
    RefsExtend(s.tables, id, [b]);
    assert multiset([b])[x] == if x == b then 1 else 0;
  }

  lemma ShareUses(s: Store, s': Store, id: int, shared: seq<nat>, bs: seq<nat>, x: nat)
    requires Shares(s, s', id, shared, bs) && id !in s.tables
    ensures Uses(s', x) == Uses(s, x) + multiset(shared)[x] + if x in bs then 1 else 0
  {
    RefsNew(s.tables, id, shared + bs);
    assert multiset(shared + bs) == multiset(shared) + multiset(bs);
    DistinctCount(bs, x);
  }

  lemma AdmitFree(s: Store, s': Store, id: int, bs: seq<nat>, nTotal: nat)
    requires Admits(s, s', id, bs, nTotal) && id !in s.tables
    ensures FreeCount(s') == FreeCount(s) - |bs|
  {
    forall x: nat
      ensures Uses(s', x) > 0 <==> Uses(s, x) > 0 || x in bs
    {
      AdmitUses(s, s', id, bs, nTotal, x);
    }
    LiveGrows(s, s', bs);
  }

  lemma AppendFree(s: Store, s': Store, id: int, b: nat)
    requires Appends(s, s', id, b)
    ensures FreeCount(s') == FreeCount(s) - 1
  {
    forall x: nat
      ensures Uses(s', x) > 0 <==> Uses(s, x) > 0 || x in [b]
    {
      AppendUses(s, s', id, b, x);
    }
    LiveGrows(s, s', [b]);
  }

  lemma ShareFree(s: Store, s': Store, id: int, shared: seq<nat>, bs: seq<nat>)
    requires Shares(s, s', id, shared, bs) && id !in s.tables
    ensures FreeCount(s') == FreeCount(s) - |bs|
  {
    forall x: nat
      ensures Uses(s', x) > 0 <==> Uses(s, x) > 0 || x in bs
    {
      ShareUses(s, s', id, shared, bs, x);
      if x in multiset(shared) { assert x in shared; }
    }
    LiveGrows(s, s', bs);
  }

  lemma WithoutUses(s: Store, id: int, x: nat)
    requires id in s.tables
    ensures Uses(Without(s, id), x) <= Uses(s, x)
    ensures id !in s.scratch ==> Uses(Without(s, id), x) == Uses(s, x) - multiset(s.tables[id])[x]
  {
    RefsPick(s.tables, id);
  }

  lemma WithoutFree(s: Store, id: int)
    requires id in s.tables
    ensures FreeCount(Without(s, id)) >= FreeCount(s)
  {
    forall x: nat | Uses(Without(s, id), x) > 0
      ensures Uses(s, x) > 0
    {
      WithoutUses(s, id, x);
    }
    LiveShrinks(s, Without(s, id));
  }

  /** A table leaves: the blocks from index k on, which no one else refers to, become free,
      and the others, still referred to, do not. */
  lemma WithoutFreeExact(s: Store, id: int, k: nat)
    requires id in s.tables && id !in s.scratch && k <= |s.tables[id]| && Distinct(s.tables[id])
    requires forall i | k <= i < |s.tables[id]| :: Uses(s, s.tables[id][i]) == 1
    requires forall i | 0 <= i < k :: Uses(Without(s, id), s.tables[id][i]) > 0
    ensures FreeCount(Without(s, id)) == FreeCount(s) + |s.tables[id]| - k
  {
    hide Live;
    var t, m := s.tables[id], Without(s, id);
    var own := t[k..];
    forall x: nat
      ensures Uses(s, x) == Uses(m, x) + Bit(x in t)
    {
      hide Uses;
      WithoutUses(s, id, x);
      DistinctCount(t, x);
    }
    forall x: nat
      ensures Uses(s, x) > 0 <==> Uses(m, x) > 0 || x in own
    {
      if x in t {
        var i :| 0 <= i < |t| && t[i] == x;
        assert i >= k ==> own[i - k] == x;
      }
    }
    forall x | x in own
      ensures Uses(m, x) == 0
    {
      var i :| 0 <= i < |own| && own[i] == x;
      assert t[k + i] == x && Uses(s, t[k + i]) == 1;
    }
    LiveGrows(m, s, own);
  }

  // ---- private blocks ----------------------------------------------------

  /** Two tables hold x: it has at least two references. */
  lemma UsedTwice(s: Store, k: int, k': int, x: nat)
    requires k in s.tables && k' in s.tables && k != k' && x in s.tables[k] && x in s.tables[k']
    ensures Uses(s, x) >= 2
  {
    RefsPick(s.tables, k);
    RefsPick(s.tables - {k}, k');
    assert multiset(s.tables[k])[x] > 0 && multiset(s.tables[k'])[x] > 0;
  }

  lemma UsedOnce(s: Store, k: int, x: nat)
    requires k in s.tables && x in s.tables[k]
    ensures Uses(s, x) >= 1
  {
    RefsMember(s.tables, k, x);
  }

  /** Where a table's private tail stays private when another table goes. */
  lemma PrivateWithout(s: Store, id: int, k: int, x: nat)
    requires id in s.tables && k in s.tables && k != id && x in s.tables[k] && Uses(s, x) == 1
    ensures Uses(Without(s, id), x) == 1
  {
    if x in s.tables[id] { UsedTwice(s, id, k, x); }
    assert multiset(s.tables[id])[x] == 0;
    WithoutUses(s, id, x);
    assert k in Without(s, id).tables;
    UsedOnce(Without(s, id), k, x);
  }

  // ---- what one sequence's operation leaves to the others ----------------

  /** Table k is untouched, and its private blocks stay private. */
  ghost predicate KeptAt(s: Store, s': Store, k: int) {
    && k in s.tables && k in s'.tables && s'.tables[k] == s.tables[k]
    && (k in s.slack ==> k in s'.slack && s'.slack[k] == s.slack[k])
    && (k in s.scratch ==> k in s'.scratch && s'.scratch[k] == s.scratch[k])
    && forall x | x in s.tables[k] && Uses(s, x) == 1 :: Uses(s', x) == 1
  }

  /** Only sequence id is affected. */
  ghost predicate Kept(s: Store, s': Store, id: int) {
    forall k | k in s.tables && k != id :: KeptAt(s, s', k)
  }

  lemma UnusedNotIn(s: Store, bs: seq<nat>, k: int, x: nat)
    requires Unused(s, bs) && k in s.tables && x in s.tables[k]
    ensures x !in bs
  {
    UsedOnce(s, k, x);
  }

  lemma AdmitKept(s: Store, s': Store, id: int, bs: seq<nat>, nTotal: nat)
    requires Admits(s, s', id, bs, nTotal) && id !in s.tables && AllDistinct(s.tables)
    ensures Kept(s, s', id) && AllDistinct(s'.tables)
    ensures forall x | x in bs :: Uses(s', x) == 1
  {
    forall k, x | k in s.tables && x in s.tables[k] && Uses(s, x) == 1
      ensures Uses(s', x) == 1
    {
      UnusedNotIn(s, bs, k, x);
      AdmitUses(s, s', id, bs, nTotal, x);
    }
    forall x | x in bs
      ensures Uses(s', x) == 1
    {
      AdmitUses(s, s', id, bs, nTotal, x);
    }
  }

  lemma AppendKept(s: Store, s': Store, id: int, b: nat)
    requires Appends(s, s', id, b) && AllDistinct(s.tables)
    ensures Kept(s, s', id) && AllDistinct(s'.tables)
    ensures Uses(s', b) == 1 && forall x | x in s.tables[id] && Uses(s, x) == 1 :: Uses(s', x) == 1
  {
    forall k, x | k in s.tables && x in s.tables[k]
      ensures x != b && Uses(s', x) == Uses(s, x)
    {
      UnusedNotIn(s, [b], k, x);
      assert b in [b];
      AppendUses(s, s', id, b, x);
    }
    AppendUses(s, s', id, b, b);
    assert b in [b];
  }

  /** The shared blocks are those of table c, so no other table has them private. */
  lemma ShareKept(s: Store, s': Store, id: int, c: int, bs: seq<nat>)
    requires c in s.tables && Shares(s, s', id, s.tables[c], bs) && id !in s.tables && AllDistinct(s.tables)
    ensures forall k | k in s.tables && k != c :: KeptAt(s, s', k)
    ensures AllDistinct(s'.tables) && s'.tables[c] == s.tables[c]
    ensures forall x | x in bs :: Uses(s', x) == 1
  {
    var shared := s.tables[c];
    forall k, x | k in s.tables && k != c && x in s.tables[k] && Uses(s, x) == 1
      ensures Uses(s', x) == 1
    {
      UnusedNotIn(s, bs, k, x);
      if x in shared { UsedTwice(s, k, c, x); }
      ShareUses(s, s', id, shared, bs, x);
    }
    forall x | x in bs
      ensures Uses(s', x) == 1 && x !in shared
    {
      if x in shared { UsedOnce(s, c, x); }
      ShareUses(s, s', id, shared, bs, x);
    }
    DistinctConcat(shared, bs);
  }

  lemma DistinctConcat(a: seq<nat>, b: seq<nat>)
    requires Distinct(a) && Distinct(b) && forall x | x in b :: x !in a
    ensures Distinct(a + b)
  {
    forall i, j | 0 <= i < j < |a + b|
      ensures (a + b)[i] != (a + b)[j]
    {
      if i < |a| <= j { assert (a + b)[j] == b[j - |a|] && b[j - |a|] in b; }
    }
  }

  lemma WithoutKept(s: Store, id: int)
    requires id in s.tables && AllDistinct(s.tables)
    ensures Kept(s, Without(s, id), id) && AllDistinct(Without(s, id).tables)
  {
    forall k, x | k in s.tables && k != id && x in s.tables[k] && Uses(s, x) == 1
      ensures Uses(Without(s, id), x) == 1
    {
      PrivateWithout(s, id, k, x);
    }
  }

  /** Changing what callers hold leaves private table blocks private. */
  lemma HeldKept(s: Store, s': Store, k: int, x: nat)
    requires s'.tables == s.tables && k in s.tables && x in s.tables[k] && Uses(s, x) == 1
    requires s'.held[x] <= s.held[x]
    ensures Uses(s', x) == 1
  {
    RefsMember(s.tables, k, x);
  }

  lemma HoldsKept(s: Store, s': Store, bs: seq<nat>, k: int, x: nat)
    requires Holds(s, s', bs) && k in s.tables && x in s.tables[k]
    ensures Uses(s', x) == Uses(s, x)
  {
    UnusedNotIn(s, bs, k, x);
  }

  // ---- held blocks -------------------------------------------------------

  lemma AppendAlone(s: Store, s': Store, id: int, b: nat)
    requires Appends(s, s', id, b) && HeldAlone(s)
    ensures HeldAlone(s')
  {
    hide Uses;
    forall x | x in s'.held
      ensures Uses(s', x) == 1
    {
      assert Uses(s, x) == 1 && b in [b];
      AppendUses(s, s', id, b, x);
    }
  }

  lemma HoldAlone(s: Store, s': Store, bs: seq<nat>)
    requires Holds(s, s', bs) && HeldAlone(s)
    ensures HeldAlone(s')
  {
    forall x | x in s'.held
      ensures Uses(s', x) == 1
    {
      DistinctCount(bs, x);
      if x in bs { assert Uses(s, x) == 0; } else { assert Uses(s, x) == 1; }
    }
  }

  /** Held blocks keep their one reference when a table goes, compaction or not. */
  lemma RetireAlone(s: Store, s': Store, id: int, ren: map<nat, nat>, compacts: bool)
    requires Retires(s, s', id, ren, compacts) && id in s.tables && id !in s.scratch && HeldAlone(s)
    requires compacts ==> HeldApart(s')
    ensures HeldAlone(s')
  {
    RefsPick(s.tables, id);
    forall x | x in s'.held
      ensures Uses(s', x) == 1
    {
      assert Uses(s, x) == 1;
      assert Refs(s.tables)[x] == 0;
    }
  }

  /** A list in which everything occurs once has no repeats. */
  lemma {:induction false} OnceDistinct(t: seq<nat>)
    requires forall x | x in t :: multiset(t)[x] == 1
    ensures Distinct(t)
  {
    if t != [] {
      var p, b := t[..|t| - 1], t[|t| - 1];
      assert t == p + [b];
      assert multiset(t) == multiset(p) + multiset{b};
      forall x | x in p
        ensures multiset(p)[x] == 1 && x != b
      {
        assert x in t && multiset(p)[x] >= 1;
      }
      OnceDistinct(p);
      assert forall i | 0 <= i < |p| :: t[i] == p[i] && p[i] in p;
    }
  }

  /** Giving back everything held frees exactly the held blocks. */
  lemma BareFree(s: Store, all: seq<nat>)
    requires HeldAlone(s) && s.held == multiset(all)
    ensures FreeCount(s.(held := multiset{})) == FreeCount(s) + |all|
  {
    hide Live;
    var m := s.(held := multiset{});
    forall x | x in all
      ensures multiset(all)[x] == 1 && Uses(m, x) == 0
    {
      assert x in s.held && Uses(s, x) == 1;
    }
    OnceDistinct(all);
    forall x: nat
      ensures Uses(s, x) > 0 <==> Uses(m, x) > 0 || x in all
    {
      assert x in all <==> x in multiset(all);
    }
    LiveGrows(m, s, all);
  }

  // ---- a whole speculation round -----------------------------------------

  /** The net effect of a splice: private tail out, kept blocks in. */
  ghost predicate Splices(s: Store, s': Store, id: int, dropTail: bool, kept: seq<nat>) {
    && Unused(s, kept) && id in s.tables && (dropTail ==> s.tables[id] != [])
    && var t := s.tables[id];
       && (dropTail ==> Uses(s, t[|t| - 1]) == 1)
       && s' == s.(tables := s.tables[id := (if dropTail then t[..|t| - 1] else t) + kept])
  }

  lemma SpliceUses(s: Store, s': Store, id: int, dropTail: bool, kept: seq<nat>, x: nat)
    requires Splices(s, s', id, dropTail, kept)
    ensures var t := s.tables[id];
      Uses(s', x) == Uses(s, x) - Bit(dropTail && x == t[|t| - 1]) + Bit(x in kept)
  {
    var t := s.tables[id];
    var p := if dropTail then t[..|t| - 1] else t;
    RefsAdd(s.tables, id, p + kept);
    RefsPick(s.tables, id);
    assert multiset(p + kept) == multiset(p) + multiset(kept);
    if dropTail { Snoc(t); }
    DistinctCount(kept, x);
  }

  /** A splice uses up exactly the table's growth. */
  lemma SpliceFree(s: Store, s': Store, id: int, dropTail: bool, kept: seq<nat>)
    requires Splices(s, s', id, dropTail, kept)
    ensures FreeCount(s') == FreeCount(s) + Bit(dropTail) - |kept|
  {
    var t := s.tables[id];
    if dropTail {
      var b := t[|t| - 1];
      var m := s.(tables := s.tables[id := t[..|t| - 1]]);
      assert t[..|t| - 1] + [] == t[..|t| - 1];
      assert Splices(s, m, id, true, []);
      TailFree(s, m, id);
      forall x: nat
        ensures Uses(s', x) > 0 <==> Uses(m, x) > 0 || x in kept
      {
        SpliceUses(s, s', id, true, kept, x);
        SpliceUses(s, m, id, true, [], x);
      }
      assert Unused(m, kept) by {
        forall x | x in kept
          ensures Uses(m, x) == 0
        {
          SpliceUses(s, m, id, true, [], x);
        }
      }
      LiveGrows(m, s', kept);
    } else {
      forall x: nat
        ensures Uses(s', x) > 0 <==> Uses(s, x) > 0 || x in kept
      {
        SpliceUses(s, s', id, false, kept, x);
      }
      LiveGrows(s, s', kept);
    }
  }

  lemma TailFree(s: Store, m: Store, id: int)
    requires Splices(s, m, id, true, [])
    ensures FreeCount(m) == FreeCount(s) + 1
  {
    var t := s.tables[id];
    var b := t[|t| - 1];
    forall x: nat
      ensures Uses(m, x) == Uses(s, x) - Bit(x == b)
    {
      SpliceUses(s, m, id, true, [], x);
    }
    forall x: nat
      ensures Uses(s, x) > 0 <==> Uses(m, x) > 0 || x in [b]
    {
    }
    assert Unused(m, [b]) by {
      assert Uses(m, b) == 0;
    }
    LiveGrows(m, s, [b]);
  }

  lemma SpliceDistinct(t: seq<nat>, n: nat, kept: seq<nat>)
    requires n <= |t| && Distinct(t) && Distinct(kept) && forall x | x in kept :: x !in t
    ensures Distinct(t[..n] + kept)
  {
    DistinctConcat(t[..n], kept);
  }

  lemma SpliceKept(s: Store, s': Store, id: int, dropTail: bool, kept: seq<nat>)
    requires Splices(s, s', id, dropTail, kept) && AllDistinct(s.tables)
    ensures Kept(s, s', id) && AllDistinct(s'.tables)
    ensures forall x | x in kept :: Uses(s', x) == 1
    ensures var t := s.tables[id];
      forall i | 0 <= i < |t| - Bit(dropTail) && Uses(s, t[i]) == 1 :: Uses(s', t[i]) == 1
  {
    var t := s.tables[id];
    forall k, x | k in s.tables && k != id && x in s.tables[k] && Uses(s, x) == 1
      ensures Uses(s', x) == 1
    {
      UnusedNotIn(s, kept, k, x);
      if dropTail && x == t[|t| - 1] { UsedTwice(s, k, id, x); }
      SpliceUses(s, s', id, dropTail, kept, x);
    }
    forall x | x in kept
      ensures Uses(s', x) == 1 && x !in t
    {
      SpliceUses(s, s', id, dropTail, kept, x);
      if x in t { UnusedNotIn(s, kept, id, x); }
    }
    SpliceDistinct(t, if dropTail then |t| - 1 else |t|, kept);
    forall i | 0 <= i < |t| - Bit(dropTail) && Uses(s, t[i]) == 1
      ensures Uses(s', t[i]) == 1
    {
      assert t[i] in t;
      UnusedNotIn(s, kept, id, t[i]);
      SpliceUses(s, s', id, dropTail, kept, t[i]);
    }
  }
}
