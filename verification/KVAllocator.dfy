// The allocator object: reference-counted tables over a LIFO stack (PagedFirstFit) or
// over frames with plans, affinity and a lazy heap of empty frames (PimAware).
module KVAllocator {
  import opened Counting
  import opened Results
  import opened Pool
  import opened Bookkeeping
  import opened FramePlan
  import opened Affinity
  import opened Compaction
  import opened CompactionRule
  import opened CompactionOrder

  datatype Policy = PagedFirstFit | PimAware(bestfit: bool, segregateScratch: bool, compactBelow: real)

  class Allocator {
    const numBlocks: nat
    const policy: Policy
    const G: pos

    var tables: map<int, seq<nat>>
    var refcount: map<nat, nat>
    var allocatedTotal: nat
    var freedTotal: nat
    var cowCopies: nat

    // PagedFirstFit
    var freeBlocks: seq<nat>

    // PimAware: free offsets per frame, and a heap of empty frames that may hold stale
    // entries and duplicates
    var frameFree: Frames
    var emptyFrames: multiset<nat>
    var plans: map<Key, seq<nat>>
    var affinity: map<Key, nat>
    var nfree: nat
    var blocksCopied: nat
    var compactions: nat

    // references handed to callers outside any table
    ghost var held: multiset<nat>

    function Pim(): PimState
      reads this`frameFree, this`plans, this`affinity
    {
      PimState(frameFree, plans, affinity)
    }

    function PoolNow(): Pool
      reads this`freeBlocks, this`frameFree, this`plans, this`affinity
    {
      if policy.PagedFirstFit? then Stack(freeBlocks) else Framed(G, frameFree, CurOf(Pim()))
    }

    /** The state as the bookkeeping functions see it. */
    function View(): Ledger
      reads this`tables, this`refcount, this`allocatedTotal, this`freedTotal, this`cowCopies
      reads this`freeBlocks, this`frameFree, this`plans, this`affinity
    {
      Ledger(numBlocks, tables, refcount, allocatedTotal, freedTotal, cowCopies, PoolNow())
    }

    /** Every wholly empty frame except possibly f has an entry in the lazy heap. */
    ghost predicate IndexedBut(f: int)
      reads this`frameFree, this`emptyFrames
    {
      && (forall e | 0 <= e < |frameFree| && e != f :: |frameFree[e]| == G ==> e in emptyFrames)
      && (forall e | e in emptyFrames :: e < |frameFree|)
      && (forall e | 0 <= e < |frameFree| :: |frameFree[e]| <= G)
    }

    ghost predicate Indexed()
      reads this`frameFree, this`emptyFrames, this`nfree
    {
      IndexedBut(-1) && nfree == SumFree(frameFree)
    }

    ghost predicate Valid()
      reads this
    {
      && Exact(View(), held)
      && (policy.PimAware? ==> Indexed() && Steady(Pim()))
    }

    /** PagedFirstFit: every block on the stack in ascending order. */
    constructor Paged(n: nat)
      ensures Valid() && held == multiset{} && numBlocks == n && policy == PagedFirstFit
      ensures View() == Ledger(n, map[], map[], 0, 0, 0, Stack(Upto(n)))
    {
      numBlocks, policy, G := n, PagedFirstFit, 1;
      tables, refcount, allocatedTotal, freedTotal, cowCopies := map[], map[], 0, 0, 0;
      freeBlocks := Upto(n);
      frameFree, emptyFrames, plans, affinity, nfree := [], multiset{}, map[], map[], 0;
      blocksCopied, compactions, held := 0, 0, multiset{};
      new;
      FreshStack(n);
    }

    /** PimAware: k wholly empty frames of g blocks, all in the heap. */
    constructor Frames(n: nat, k: nat, g: pos, p: Policy)
      requires p.PimAware? && n == k * g
      ensures Valid() && held == multiset{} && numBlocks == n && policy == p && G == g
      ensures View() == Ledger(n, map[], map[], 0, 0, 0, Framed(g, WholeFrames(g, k), map[]))
      ensures emptyFrames == multiset(Upto(k)) && plans == map[] && affinity == map[]
    {
      hide Exact, SumFree, Below, Upto;
      numBlocks, policy, G := n, p, g;
      tables, refcount, allocatedTotal, freedTotal, cowCopies := map[], map[], 0, 0, 0;
      freeBlocks := [];
      frameFree, emptyFrames, plans, affinity, nfree := WholeFrames(g, k), multiset(Upto(k)), map[], map[], n;
      blocksCopied, compactions, held := 0, 0, multiset{};
      new;
      hide WholeFrames, Steady, CurOf;
      FreshPim(Pim());
      FreshFrames(n, k, g);
      FreshIndex(k, g);
    }

    // ---- PimAware: choosing a frame --------------------------------------

    /** Pop heap entries until one is still wholly empty. */
    method PopEmpty() returns (r: Option<nat>)
      requires IndexedBut(-1) && frameFree != []
      modifies this`emptyFrames
      ensures r.Some? ==> |frameFree[Best(frameFree)]| == G && r.value == Best(frameFree) && IndexedBut(r.value)
      ensures r.None? ==> IndexedBut(-1) && forall e | 0 <= e < |frameFree| :: |frameFree[e]| < G
    {
      while emptyFrames != multiset{}
        invariant IndexedBut(-1)
        decreases |emptyFrames|
      {
        var f := MinEntry(emptyFrames);
        emptyFrames := emptyFrames - multiset{f};
        if |frameFree[f]| == G {
          return Some(f);
        }
      }
      return None;
    }

    /** The fallback scan for the frame with the most free slots. */
    method MostFree() returns (best: nat)
      requires SomeRoom(frameFree)
      ensures best == Best(frameFree)
    {
      var b, bestFree := -1, 0;
      for f := 0 to |frameFree|
        invariant -1 <= b < f
        invariant b >= 0 ==> bestFree == |frameFree[b]| > 0
        invariant b < 0 ==> bestFree == 0
        invariant forall e | 0 <= e < f :: |frameFree[e]| <= bestFree
        invariant forall e | 0 <= e < b :: |frameFree[e]| < bestFree
      {
        var n := |frameFree[f]|;
        if n > bestFree {
          b, bestFree := f, n;
        }
      }
      var e :| 0 <= e < |frameFree| && frameFree[e] != {};
      assert |frameFree[e]| > 0;
      best := b;
    }

    ghost predicate KeyInRange(key: Key)
      reads this`frameFree, this`plans, this`affinity
    {
      && (forall i | 0 <= i < |PlanOf(Pim(), key)| :: PlanOf(Pim(), key)[i] < |frameFree|)
      && (key in affinity ==> affinity[key] < |frameFree|)
    }

    /** _pick_frame. */
    method PickFrame(key: Key) returns (f: nat)
      requires SomeRoom(frameFree) && IndexedBut(-1) && KeyInRange(key)
      modifies this`plans, this`affinity, this`emptyFrames
      ensures (Pim(), f) == PickStep(old(Pim()), key)
      ensures IndexedBut(f)
    {
      hide Best, SomeRoom, Allocator.IndexedBut;
      IndexedAny();
      if key in plans && plans[key] != [] {
        assert plans[key] == PlanOf(Pim(), key);
        var planned := SkipExhausted(plans[key]);
        if planned != [] {
          plans := plans[key := planned];
          f := planned[0];
          return;
        }
        plans := plans - {key};
      }
      if key in affinity && frameFree[affinity[key]] != {} {
        f := affinity[key];
        assert affinity == affinity[key := f];
        return;
      }
      f := BestFrame();
      affinity := affinity[key := f];
    }

    lemma IndexedAny()
      requires IndexedBut(-1)
      ensures forall f: nat :: IndexedBut(f)
    {
    }

    /** A plan without the exhausted frames at its front. */
    method SkipExhausted(plan: seq<nat>) returns (planned: seq<nat>)
      requires forall i | 0 <= i < |plan| :: plan[i] < |frameFree|
      ensures planned == Advance(frameFree, plan)
    {
      planned := plan;
      while planned != [] && frameFree[planned[0]] == {}
        invariant forall i | 0 <= i < |planned| :: planned[i] < |frameFree|
        invariant Advance(frameFree, planned) == Advance(frameFree, plan)
      {
        planned := planned[1..];
      }
    }

    /** The lowest empty frame by way of the heap, else the most-free frame. */
    method BestFrame() returns (f: nat)
      requires SomeRoom(frameFree) && IndexedBut(-1)
      modifies this`emptyFrames
      ensures f == Best(frameFree) && IndexedBut(f)
    {
      var e := PopEmpty();
      if e.Some? {
        f := e.value;
      } else {
        f := MostFree();
      }
    }

    // ---- one block -------------------------------------------------------

    /** The pool the rule sees: the concrete one in a steady state, or the one a planned
        admission of m more blocks for key stands for. */
    ghost predicate Synced(p: Pool, key: Key, m: int, started: bool, planned: bool)
      reads this`freeBlocks, this`frameFree, this`plans, this`affinity, this`emptyFrames, this`nfree
    {
      && (policy.PimAware? ==> Indexed())
      && if planned
         then
           && policy.PimAware? && p.Framed? && p == Framed(G, frameFree, p.cur)
           && m >= 0 && Admitting(Pim(), p.cur, key, m, started)
         else p == PoolNow() && (policy.PimAware? ==> Steady(Pim()))
    }

    /** _alloc_one for PimAware. */
    method AllocOffset(key: Key) returns (b: nat)
      requires policy.PimAware? && SomeRoom(frameFree) && Indexed() && KeyInRange(key)
      modifies this`frameFree, this`emptyFrames, this`plans, this`affinity, this`nfree
      ensures Indexed()
      ensures Pim() == TakeStep(old(Pim()), key).0
      ensures b == BlockId(G, TakeStep(old(Pim()), key).1, TakeStep(old(Pim()), key).2)
    {
      var f := PickFrame(key);
      var off := MinOf(frameFree[f]);
      SumFreeUpdate(frameFree, f, frameFree[f] - {off});
      frameFree := frameFree[f := frameFree[f] - {off}];
      nfree := nfree - 1;
      b := BlockId(G, f, off);
    }

    /** _alloc_one: the block is the one the rule hands out. */
    method AllocOne(key: Key, ghost p: Pool, ghost m: int, ghost started: bool, ghost planned: bool) returns (b: nat)
      requires Synced(p, key, m, started, planned) && (planned ==> m > 0) && !Empty(p)
      modifies this`freeBlocks, this`frameFree, this`emptyFrames, this`plans, this`affinity, this`nfree
      ensures b == Take(p, key).1
      ensures Synced(Take(p, key).0, key, m - 1, true, planned)
    {
      if policy.PagedFirstFit? {
        b := freeBlocks[|freeBlocks| - 1];
        freeBlocks := freeBlocks[..|freeBlocks| - 1];
      } else {
        if planned {
          AdmittingStep(Pim(), G, p.cur, key, m, started);
        } else {
          SteadyStep(Pim(), G, key);
        }
        b := AllocOffset(key);
      }
    }

    /** Bookkeeping state l is this object's, up to what a planned admission defers. */
    ghost predicate Serving(l: Ledger, key: Key, m: int, started: bool, planned: bool)
      reads this
    {
      && l == Ledger(numBlocks, tables, refcount, allocatedTotal, freedTotal, cowCopies, l.pool)
      && Synced(l.pool, key, m, started, planned)
    }

    /** _alloc: one block with one reference. */
    method Alloc(key: Key, ghost l: Ledger, ghost m: int, ghost started: bool, ghost planned: bool) returns (b: nat)
      requires Serving(l, key, m, started, planned) && (planned ==> m > 0) && !Empty(l.pool)
      modifies this`refcount, this`allocatedTotal
      modifies this`freeBlocks, this`frameFree, this`emptyFrames, this`plans, this`affinity, this`nfree
      ensures b == Bookkeeping.Alloc(l, key).1
      ensures Serving(Bookkeeping.Alloc(l, key).0, key, m - 1, true, planned)
    {
      b := AllocOne(key, l.pool, m, started, planned);
      refcount := refcount[b := 1];
      allocatedTotal := allocatedTotal + 1;
    }

    /** _free_one. */
    method FreeOne(b: nat)
      requires PoolOk(PoolNow(), numBlocks) && b < numBlocks && b !in Free(PoolNow())
      requires policy.PimAware? ==> Indexed() && Steady(Pim())
      modifies this`freeBlocks, this`frameFree, this`emptyFrames, this`nfree
      ensures PoolNow() == Give(old(PoolNow()), b)
      ensures policy.PimAware? ==> Indexed() && Steady(Pim())
    {
      hide Steady, CurOf, Free, Allocator.Indexed;
      if policy.PagedFirstFit? {
        freeBlocks := freeBlocks + [b];
      } else {
        FreeOffset(b);
      }
    }

    /** _free_one for PimAware: a frame that comes back whole is pushed on the heap. */
    method FreeOffset(b: nat)
      requires policy.PimAware? && Indexed() && Steady(Pim())
      requires FramesOk(G, frameFree, numBlocks) && b < numBlocks && b !in Free(Framed(G, frameFree, CurOf(Pim())))
      modifies this`frameFree, this`emptyFrames, this`nfree
      ensures Indexed() && Steady(Pim()) && PoolNow() == Give(old(PoolNow()), b)
    {
      hide Steady, CurOf, Free, FramesOk, SumFree;
      ghost var p := Pim();
      FreedFrame(p, G, numBlocks, b);
      var f, off := b / G, b % G;
      frameFree := frameFree[f := frameFree[f] + {off}];
      FramesOnly(p, frameFree);
      nfree := nfree + 1;
      if |frameFree[f]| == G {
        emptyFrames := emptyFrames + multiset{f};
      }
    }

    /** _unref: drop one reference, freeing the block at the last one. */
    method UnrefBlock(b: nat)
      requires b in refcount && refcount[b] > 0
      requires refcount[b] == 1 ==> PoolOk(PoolNow(), numBlocks) && b < numBlocks && b !in Free(PoolNow())
      requires policy.PimAware? ==> Indexed() && Steady(Pim())
      modifies this`refcount, this`freedTotal
      modifies this`freeBlocks, this`frameFree, this`emptyFrames, this`nfree
      ensures View() == Bookkeeping.Unref(old(View()), b)
      ensures policy.PimAware? ==> Indexed() && Steady(Pim())
    {
      var rc := refcount[b] - 1;
      if rc == 0 {
        refcount := refcount - {b};
        FreeOne(b);
        freedTotal := freedTotal + 1;
      } else {
        refcount := refcount[b := rc];
      }
    }

    /** _unref of a reference the caller holds. */
    method Unref(b: nat)
      requires Valid() && b in held
      modifies this`refcount, this`freedTotal, this`held
      modifies this`freeBlocks, this`frameFree, this`emptyFrames, this`nfree
      ensures View() == Bookkeeping.Unref(old(View()), b) && held == old(held) - multiset{b} && Valid()
    {
      hide Allocator.Indexed, Steady, CurOf;
      UnrefExact(View(), held, b);
      FreeBelow(PoolNow(), numBlocks);
      UnrefBlock(b);
      held := held - multiset{b};
    }

    /** num_free, the counter each policy keeps. */
    function NumFree(): nat
      reads this`freeBlocks, this`nfree
    {
      if policy.PagedFirstFit? then |freeBlocks| else nfree
    }

    /** The counter is the number of free blocks. */
    lemma FreeCount()
      requires Valid()
      ensures NumFree() == |Free(View().pool)|
    {
      NumFreeSize(View());
    }

    // ---- many blocks -----------------------------------------------------

    /** The comprehension of n calls to _alloc. */
    method AllocMany(key: Key, n: nat, ghost l: Ledger, ghost planned: bool, ghost h: multiset<nat>)
      returns (bs: seq<nat>)
      requires Serving(l, key, n, false, planned) && Exact(l, h) && n <= |Free(l.pool)|
      modifies this`refcount, this`allocatedTotal
      modifies this`freeBlocks, this`frameFree, this`emptyFrames, this`plans, this`affinity, this`nfree
      ensures bs == AllocN(l, key, n).1
      ensures Serving(AllocN(l, key, n).0, key, 0, n > 0, planned)
    {
      hide Exact, Allocator.Serving, Free;
      bs := [];
      ghost var m, left: int, started := l, n, false;
      for i := 0 to n
        invariant (m, bs) == AllocN(l, key, i)
        invariant left == n - i && (started <==> i > 0)
        invariant Serving(m, key, left, started, planned)
      {
        RoomAt(l, h, key, n, i);
        var b := Alloc(key, m, left, started, planned);
        m, left, started := Bookkeeping.Alloc(m, key).0, left - 1, true;
        bs := bs + [b];
      }
    }

    /** unref_blocks. */
    method UnrefBlocks(bs: seq<nat>)
      requires Valid() && multiset(bs) <= held
      modifies this`refcount, this`freedTotal, this`held
      modifies this`freeBlocks, this`frameFree, this`emptyFrames, this`nfree
      ensures View() == UnrefAll(old(View()), bs) && held == old(held) - multiset(bs) && Valid()
    {
      hide Exact, Allocator.Indexed, Steady, CurOf, Bookkeeping.Unref;
      ghost var l, h := View(), held;
      for i := 0 to |bs|
        invariant View() == UnrefAll(l, bs[..i]) && held == h - multiset(bs[..i]) && Valid()
      {
        assert bs[..i + 1][..i] == bs[..i];
        HeldNext(h, bs, i);
        Unref(bs[i]);
      }
      assert bs[..|bs|] == bs;
    }

    // ---- admission -------------------------------------------------------

    /** id has no table, affinity or plan. */
    ghost predicate Fresh(id: int)
      reads this`tables, this`frameFree, this`plans, this`affinity
    {
      id !in tables && (policy.PimAware? ==> Seq(id) !in CurOf(Pim()))
    }

    /** _plan_frames: a best-fit plan exactly when the pool can hold n blocks. */
    method PlanFrames(key: Key, n: nat) returns (ghost planned: bool)
      requires policy.PimAware? ==> Indexed() && Steady(Pim()) && key !in CurOf(Pim())
      modifies this`plans
      ensures n <= NumFree() ==> Synced(old(PoolNow()), key, n, false, planned)
      ensures planned <==> policy.PimAware? && policy.bestfit && 0 < n <= NumFree()
      ensures plans == if planned && key in plans then old(plans)[key := plans[key]] else old(plans)
      ensures planned ==> key in plans && PlanFor(frameFree, plans[key], n)
    {
      planned := false;
      if policy.PagedFirstFit? || !policy.bestfit || n == 0 {
        return;
      }
      var chosen, cap := ChoosePlan(frameFree, G, n);
      if cap >= n {
        AdmittingStart(Pim(), key, chosen, n);
        plans := plans[key := chosen];
        planned := true;
      }
    }

    /** The blocks of an admission, placed by the rule whatever the plan mode. */
    method PlaceBlocks(id: int, n: nat, ghost l: Ledger, ghost planned: bool, ghost h: multiset<nat>)
      returns (bs: seq<nat>)
      requires Serving(l, Seq(id), n, false, planned) && (planned ==> n > 0) && Exact(l, h) && n <= |Free(l.pool)|
      modifies this`refcount, this`allocatedTotal
      modifies this`freeBlocks, this`frameFree, this`emptyFrames, this`plans, this`affinity, this`nfree
      ensures bs == AllocN(l, Seq(id), n).1
      ensures View() == AllocN(l, Seq(id), n).0
      ensures policy.PimAware? ==> Indexed() && Steady(Pim())
    {
      bs := AllocMany(Seq(id), n, l, planned, h);
      if planned {
        AdmittingEnd(Pim(), AllocN(l, Seq(id), n).0.pool.cur, Seq(id));
      }
    }

    /** admit: None is AdmissionFailure. */
    method Admit(id: int, n: nat) returns (r: Option<seq<nat>>)
      requires Valid() && Fresh(id)
      modifies this
      ensures Valid() && held == old(held)
      ensures r.None? <==> n > old(NumFree())
      ensures r.None? ==> View() == old(View())
      ensures r.Some? ==> (View(), r.value) == Bookkeeping.Admit(old(View()), id, n)
    {
      hide Exact, Allocator.Indexed, Steady, CurOf, AllocN;
      ghost var l := View();
      FreeCount();
      ghost var planned := PlanFrames(Seq(id), n);
      if NumFree() < n {
        return None;
      }
      AdmitExact(l, held, id, n);
      var blocks := PlaceBlocks(id, n, l, planned, held);
      tables := tables[id := blocks];
      r := Some(blocks);
    }

    /** One more reference to each block of bs. */
    method RefBlocks(bs: seq<nat>, ghost l: Ledger)
      requires l.refcount == refcount && forall i | 0 <= i < |bs| :: bs[i] in refcount
      modifies this`refcount
      ensures refcount == RefAll(l, bs).refcount
    {
      for i := 0 to |bs|
        invariant refcount == RefAll(l, bs[..i]).refcount && refcount.Keys == old(refcount.Keys)
      {
        assert bs[..i + 1][..i] == bs[..i];
        assert bs[i] in refcount.Keys;
        refcount := refcount[bs[i] := refcount[bs[i]] + 1];
        assert refcount.Keys == old(refcount.Keys);
      }
      assert bs[..|bs|] == bs;
    }

    /** admit_shared: the shared blocks gain a reference, n new ones are placed. */
    method AdmitShared(id: int, shared: seq<nat>, n: nat) returns (r: Option<seq<nat>>)
      requires Valid() && Fresh(id) && forall i | 0 <= i < |shared| :: shared[i] in refcount
      modifies this
      ensures Valid() && held == old(held)
      ensures r.None? <==> n > old(NumFree())
      ensures r.None? ==> View() == old(View())
      ensures r.Some? ==> (View(), r.value) == Bookkeeping.AdmitShared(old(View()), id, shared, n)
    {
      hide Exact, Allocator.Indexed, Steady, CurOf, AllocN;
      ghost var l := View();
      FreeCount();
      ghost var planned := PlanFrames(Seq(id), n);
      if NumFree() < n {
        return None;
      }
      AdmitSharedExact(l, held, id, shared, n);
      r := ShareAndPlace(id, shared, n, l, planned);
    }

    /** The effect of admit_shared once there is room. */
    method ShareAndPlace(id: int, shared: seq<nat>, n: nat, ghost l: Ledger, ghost planned: bool)
      returns (r: Option<seq<nat>>)
      requires Serving(l, Seq(id), n, false, planned) && (planned ==> n > 0) && Exact(l, held) && n <= |Free(l.pool)|
      requires forall i | 0 <= i < |shared| :: shared[i] in refcount
      modifies this`refcount, this`allocatedTotal, this`tables
      modifies this`freeBlocks, this`frameFree, this`emptyFrames, this`plans, this`affinity, this`nfree
      ensures r.Some? && (View(), r.value) == Bookkeeping.AdmitShared(l, id, shared, n)
      ensures policy.PimAware? ==> Indexed() && Steady(Pim())
    {
      hide Exact, Allocator.Indexed, Steady, CurOf, AllocN, Free, RefAll;
      RefAllExact(l, held, shared);
      RefBlocks(shared, l);
      ghost var m := RefAll(l, shared);
      var blocks := PlaceBlocks(id, n, m, planned, held + multiset(shared));
      tables := tables[id := shared + blocks];
      r := Some(shared + blocks);
    }

    // ---- growth, forking, speculation ------------------------------------

    /** append_block. */
    method AppendBlock(id: int) returns (r: Option<nat>)
      requires Valid() && id in tables
      modifies this
      ensures Valid() && held == old(held)
      ensures r.None? <==> old(NumFree()) < 1
      ensures r.None? ==> View() == old(View())
      ensures r.Some? ==> (View(), r.value) == Append(old(View()), id)
    {
      hide Exact, Allocator.Indexed, Steady, CurOf, Bookkeeping.Alloc, Empty;
      ghost var l := View();
      FreeCount();
      EmptyMeaning(l.pool);
      if NumFree() < 1 {
        return None;
      }
      AppendExact(l, held, id);
      var b := Alloc(Seq(id), l, 0, false, false);
      tables := tables[id := tables[id] + [b]];
      r := Some(b);
    }

    /** fork: the child shares the parent's whole table. */
    method Fork(parent: int, child: int)
      requires Valid() && parent in tables && child !in tables
      modifies this
      ensures Valid() && held == old(held) && View() == Bookkeeping.Fork(old(View()), parent, child)
    {
      hide Exact, Allocator.Indexed, Steady, CurOf, RefAll;
      ghost var l := View();
      ForkExact(l, held, parent, child);
      var t := tables[parent];
      forall i | 0 <= i < |t|
        ensures t[i] in refcount
      {
        TableLive(l, held, parent, t[i]);
      }
      RefAllExact(l, held, t);
      RefBlocks(t, l);
      tables := tables[child := t];
    }

    /** The affinity domain draft branches draw from. */
    function ScratchKey(id: int): Key {
      if policy.PimAware? && policy.segregateScratch then Scratch else Seq(id)
    }

    /** alloc_scratch: blocks the caller holds outside any table. */
    method AllocScratch(id: int, n: nat) returns (r: Option<seq<nat>>)
      requires Valid()
      modifies this
      ensures Valid()
      ensures r.None? <==> n > old(NumFree())
      ensures r.None? ==> View() == old(View()) && held == old(held)
      ensures r.Some? ==> (View(), r.value) == AllocN(old(View()), ScratchKey(id), n)
      ensures r.Some? ==> held == old(held) + multiset(r.value)
    {
      hide Exact, Allocator.Indexed, Steady, CurOf, AllocN;
      ghost var l := View();
      FreeCount();
      if NumFree() < n {
        return None;
      }
      AllocNExact(l, held, ScratchKey(id), n);
      var bs := AllocMany(ScratchKey(id), n, l, false, held);
      held := held + multiset(bs);
      r := Some(bs);
    }

    /** Pop and drop the table's last block. */
    method DropTail(id: int)
      requires Valid() && id in tables && tables[id] != []
      modifies this
      ensures Valid() && held == old(held) && View() == Bookkeeping.DropTail(old(View()), id)
      ensures tables == old(tables)[id := old(tables[id])[..|old(tables[id])| - 1]]
    {
      hide Exact, Bookkeeping.Unref, Allocator.Indexed, Steady, CurOf;
      ghost var l, h := View(), held;
      DropTailExact(l, h, id);
      var t := tables[id];
      var b := t[|t| - 1];
      TailOut(l, h, id);
      tables := tables[id := t[..|t| - 1]];
      held := held + multiset{b};
      ghost var u := View();
      assert u == l.(tables := l.tables[id := t[..|t| - 1]]);
      Unref(b);
      PlusMinus(h, multiset{b});
      ghost var m := View();
      cowCopies := cowCopies + 1;
      assert View() == m.(cow := m.cow + 1);
    }

    /** Free every branch but the chosen one. */
    method UnrefOthers(branches: seq<seq<nat>>, w: nat)
      requires Valid() && multiset(FlatOthers(branches, w)) <= held
      modifies this
      ensures Valid() && View() == Bookkeeping.UnrefOthers(old(View()), branches, w)
      ensures held == old(held) - multiset(FlatOthers(branches, w))
    {
      hide Exact, Allocator.Indexed, Steady, CurOf, UnrefAll, Bookkeeping.UnrefOthers, FlatOthers;
      ghost var l, h := View(), held;
      NoBranches(l, w);
      for i := 0 to |branches|
        invariant Valid() && View() == Bookkeeping.UnrefOthers(l, branches[..i], w)
        invariant held == h - multiset(FlatOthers(branches[..i], w))
      {
        UnrefOthersNext(l, branches, i, w);
        if i != w {
          OthersNext(h, branches, w, i);
          UnrefBlocks(branches[i]);
        }
      }
      assert branches[..|branches|] == branches;
    }

    /** spec_round_adopt: commit branch w, free everything else. */
    method SpecRoundAdopt(id: int, replaceTail: bool, w: nat, keep: nat, branches: seq<seq<nat>>)
      requires Valid() && id in tables && (replaceTail ==> tables[id] != [])
      requires w < |branches| && keep <= |branches[w]| && multiset(Flat(branches)) <= held
      modifies this
      ensures Valid() && held == old(held) - multiset(Flat(branches))
      ensures View() == Adopt(old(View()), id, replaceTail, w, keep, branches)
    {
      hide Exact, Allocator.Indexed, Steady, CurOf, UnrefAll, Bookkeeping.DropTail;
      hide Bookkeeping.UnrefOthers, Flat, FlatOthers;
      var chosen := branches[w];
      ghost var l, h := View(), held;
      BranchParts(h, branches, w, keep);
      if replaceTail {
        DropTail(id);
      }
      ghost var m := View();
      assert m == if replaceTail then Bookkeeping.DropTail(l, id) else l;
      ExtendExact(m, held, id, chosen[..keep]);
      tables := tables[id := tables[id] + chosen[..keep]];
      held := held - multiset(chosen[..keep]);
      assert View() == Extend(m, id, chosen[..keep]);
      UnrefBlocks(chosen[keep..]);
      UnrefOthers(branches, w);
    }

    // ---- release ---------------------------------------------------------

    /** The base class's release: drop the table's references. */
    method ReleaseTable(id: int)
      requires Valid() && id in tables
      modifies this
      ensures Valid() && held == old(held)
      ensures View() == UnrefAll(old(View()).(tables := old(tables) - {id}), old(tables[id]))
      ensures tables == old(tables) - {id}
    {
      hide Exact, Allocator.Indexed, Steady, CurOf, UnrefAll;
      ghost var l, h := View(), held;
      var t := tables[id];
      RefsPick(tables, id);
      assert Refs(tables) == Refs(tables - {id}) + multiset(t);
      OutOfTables(l, h, multiset(t), tables - {id});
      tables := tables - {id};
      held := held + multiset(t);
      PlusMinus(h, multiset(t));
      UnrefAllExact(View(), held, t);
      UnrefBlocks(t);
    }

    /** Forget the sequence's affinity and plan. */
    method ForgetKey(id: int)
      requires Valid()
      modifies this`affinity, this`plans
      ensures Valid() && View() == old(View()).(pool := Forget(old(PoolNow()), Seq(id)))
    {
      hide Exact, Allocator.Indexed, Steady, CurOf;
      if policy.PimAware? {
        ForgetCur(Pim(), Seq(id));
        ForgetExact(View(), held, Seq(id));
        affinity := affinity - {Seq(id)};
        plans := plans - {Seq(id)};
        assert PoolNow() == Forget(old(PoolNow()), Seq(id));
      }
    }

    // ---- compaction ------------------------------------------------------

    /** No caller-held block is in a table. */
    ghost predicate HeldPrivate()
      reads this`tables, this`held
    {
      forall b | b in held :: b !in Refs(tables)
    }

    /** Frame f is partly used, and below the compaction threshold. */
    predicate Sparse(f: int)
      requires policy.PimAware?
      reads this`frameFree
    {
      0 <= f < |frameFree| && SparseFrame(G, frameFree[f], policy.compactBelow)
    }

    /** The frames to be emptied. */
    method Donors() returns (donors: seq<nat>)
      requires policy.PimAware?
      ensures forall f: nat :: f in donors <==> Sparse(f)
      ensures donors == DonorFrames(G, frameFree, policy.compactBelow)
    {
      hide SparseFrame;
      donors := [];
      for f := 0 to |frameFree|
        invariant forall d: nat :: d in donors <==> d < f && Sparse(d)
        invariant donors == DonorFrames(G, frameFree[..f], policy.compactBelow)
      {
        assert frameFree[..f + 1][..f] == frameFree[..f];
        if Sparse(f) {
          donors := donors + [f];
        }
      }
      assert frameFree[..|frameFree|] == frameFree;
    }

    /** The used block ids of frame f, ascending. */
    method Occupied(f: nat) returns (bs: seq<nat>)
      requires f < |frameFree|
      ensures Ascending(bs)
      ensures forall b: nat :: b in bs <==> exists o: nat :: o < G && o !in frameFree[f] && b == BlockId(G, f, o)
      ensures bs == UsedIn(G, frameFree[f], f, G)
    {
      bs := [];
      for o := 0 to G
        invariant Ascending(bs) && forall i | 0 <= i < |bs| :: bs[i] < BlockId(G, f, o)
        invariant bs == UsedIn(G, frameFree[f], f, o)
        invariant forall b: nat :: b in bs <==>
                    exists o': nat :: o' < o && o' !in frameFree[f] && b == BlockId(G, f, o')
      {
        if o !in frameFree[f] {
          bs := bs + [BlockId(G, f, o)];
        }
      }
    }

    /** The fullest frame with room outside the donors, lowest index on ties. */
    method FindTarget(f: nat, donors: seq<nat>) returns (best: int)
      requires Indexed()
      ensures best >= 0 ==> best < |frameFree| && best !in donors && frameFree[best] != {}
      ensures best >= 0 ==> forall g | 0 <= g < |frameFree| && g !in donors && g != f && frameFree[g] != {} ::
                |frameFree[best]| < |frameFree[g]| || (|frameFree[best]| == |frameFree[g]| && best <= g)
      ensures best < 0 ==> forall g | 0 <= g < |frameFree| && g !in donors && g != f :: frameFree[g] == {}
      ensures best == Target(frameFree, donors, f, |frameFree|)
    {
      var bestUsed := -1;
      best := -1;
      for g := 0 to |frameFree|
        invariant -1 <= best < g && best == Target(frameFree, donors, f, g)
        invariant best < 0 ==> bestUsed == -1
        invariant best >= 0 ==> best !in donors && frameFree[best] != {} && bestUsed == G - |frameFree[best]|
        invariant forall e | 0 <= e < g && e !in donors && e != f && frameFree[e] != {} ::
          best >= 0 && (|frameFree[best]| < |frameFree[e]| || (|frameFree[best]| == |frameFree[e]| && best <= e))
      {
        if !(g == f || g in donors || frameFree[g] == {}) {
          var used := G - |frameFree[g]|;
          if used > bestUsed {
            best, bestUsed := g, used;
          }
        }
      }
    }

    /** Consume offset off of frame best and give back b's offset, keeping the heap. */
    method SwapOffsets(b: nat, best: nat, off: nat)
      requires policy.PimAware? && Indexed() && Steady(Pim())
      requires FramesOk(G, frameFree, numBlocks) && b < numBlocks && b !in Free(PoolNow())
      requires best < |frameFree| && off in frameFree[best] && best != b / G
      modifies this`frameFree, this`emptyFrames
      ensures Indexed() && Steady(Pim()) && |frameFree| == old(|frameFree|)
      ensures PoolNow() == SwapFree(old(PoolNow()), b, BlockId(G, best, off))
    {
      hide Steady, CurOf, SumFree, Free, FramesOk;
      ghost var p := Pim();
      SwapFrames(p, G, numBlocks, b, best, off);
      var f, o := b / G, b % G;
      frameFree := frameFree[best := frameFree[best] - {off}];
      frameFree := frameFree[f := frameFree[f] + {o}];
      FramesOnly(p, frameFree);
      if |frameFree[f]| == G {
        emptyFrames := emptyFrames + multiset{f};
      }
    }

    /** Block b is called nb from now on, in every table and in the reference counts. */
    method Rename(b: nat, nb: nat, where: seq<Pos>)
      requires b in refcount && forall p: Pos :: At(tables, p, b) <==> p in where
      modifies this`refcount, this`tables
      ensures tables == Replace(old(tables), b, nb) && refcount == (old(refcount) - {b})[nb := old(refcount)[b]]
    {
      var rc := refcount[b];
      tables := Rewrite(tables, where, b, nb);
      refcount := (refcount - {b})[nb := rc];
    }

    /** Migrate b into frame best: the object's state becomes the moved one. */
    method MoveBlock(b: nat, best: nat, where: seq<Pos>) returns (nb: nat)
      requires Valid() && policy.PimAware? && b in refcount && b !in held
      requires best < |frameFree| && frameFree[best] != {} && best != b / G
      requires forall p: Pos :: At(tables, p, b) <==> p in where
      modifies this`refcount, this`tables, this`frameFree, this`emptyFrames
      ensures nb in Free(old(PoolNow())) && nb / G == best && nb == BlockId(G, best, MinOf(old(frameFree[best])))
      ensures Valid() && View() == Move(old(View()), b, nb) && |frameFree| == old(|frameFree|)
    {
      hide Exact, Steady, CurOf, Allocator.Indexed, SwapFree, Replace, Free, FramesOk, At, PoolOk;
      ghost var l := View();
      var off := MinOf(frameFree[best]);
      nb := BlockId(G, best, off);
      MoveReady(b, best, off);
      Rename(b, nb, where);
      SwapOffsets(b, best, off);
      assert View() == Move(l, b, nb);
    }

    lemma MoveReady(b: nat, best: nat, off: nat)
      requires Valid() && policy.PimAware? && b in refcount && b !in held
      requires best < |frameFree| && off in frameFree[best] && best != b / G
      ensures FramesOk(G, frameFree, numBlocks) && b < numBlocks && b !in Free(PoolNow())
      ensures var nb := BlockId(G, best, off);
        nb in Free(PoolNow()) && nb / G == best && Exact(Move(View(), b, nb), held)
    {
      hide Exact, Steady, CurOf, Allocator.Indexed, SwapFree, Replace, Free;
      LiveParts(View(), held, b);
      SwapFrames(Pim(), G, numBlocks, b, best, off);
      MoveExact(View(), held, b, BlockId(G, best, off));
    }

    /** What a compaction keeps at every step. */
    ghost predicate MidCompaction(l0: Ledger, ren: Renaming, donors: seq<nat>, own: Owners, moved: nat)
      reads this
    {
      && Valid() && policy.PimAware? && HeldPrivate()
      && Compacting(l0, View(), ren, G, donors, own, moved, held)
    }

    /** No frame outside the donors has room. */
    ghost predicate Full(donors: seq<nat>)
      reads this`frameFree
    {
      forall g: nat | g < |frameFree| && g !in donors :: frameFree[g] == {}
    }

    /** Block b has been dealt with: gone, in no table, or nowhere to go. */
    ghost predicate Settled(donors: seq<nat>, own: Owners, b: nat)
      reads this`refcount, this`frameFree
    {
      b in refcount && b in own ==> Full(donors)
    }

    /** The state after block b of donor frame f has moved, if it can. */
    ghost function OneOut(donors: seq<nat>, f: nat, b: nat): Ledger
      reads this
    {
      if policy.PimAware? then MoveOut(View(), donors, f, b) else View()
    }

    /** Move one block out of donor frame f if it is owned and some frame has room. */
    method TryMove(b: nat, f: nat, donors: seq<nat>, own0: Owners, moved0: nat, ghost l0: Ledger, ghost ren0: Renaming)
      returns (own: Owners, moved: nat, ghost ren: Renaming)
      requires MidCompaction(l0, ren0, donors, own0, moved0)
      requires b in refcount && FrameOf(G, b) == f && f in donors
      modifies this`refcount, this`tables, this`frameFree, this`emptyFrames
      ensures MidCompaction(l0, ren, donors, own, moved) && |frameFree| == old(|frameFree|)
      ensures forall x | x in old(refcount) && x != b :: x in refcount
      ensures Settled(donors, own, b)
      ensures forall x: nat | FrameOf(G, x) in donors && old(Settled(donors, own0, x)) :: Settled(donors, own, x)
      ensures View() == old(OneOut(donors, f, b))
    {
      hide Exact, Allocator.Indexed, Steady, CurOf, Free, Move, Renames, OwnsExactly, Then;
      hide Compacting, MoveOut, BlockId;
      own, moved, ren := own0, moved0, ren0;
      DonorOwned(l0, View(), ren, G, donors, own, moved, held, b);
      OwnedInTable(own, tables, b);
      MoveOutIs(View(), donors, f, b);
      if b !in own {
        return;
      }
      var best := FindTarget(f, donors);
      if best < 0 {
        return;
      }
      own, moved, ren := Relocate(b, f, best, donors, own, moved, l0, ren);
    }

    /** Owned block b of donor frame f moves to frame best. */
    method Relocate(b: nat, f: nat, best: nat, donors: seq<nat>, own0: Owners, moved0: nat, ghost l0: Ledger,
                    ghost ren0: Renaming)
      returns (own: Owners, moved: nat, ghost ren: Renaming)
      requires MidCompaction(l0, ren0, donors, own0, moved0)
      requires b in refcount && FrameOf(G, b) == f && f in donors && b in own0
      requires best < |frameFree| && frameFree[best] != {} && best !in donors
      modifies this`refcount, this`tables, this`frameFree, this`emptyFrames
      ensures MidCompaction(l0, ren, donors, own, moved) && |frameFree| == old(|frameFree|)
      ensures forall x | x in old(refcount) && x != b :: x in refcount
      ensures Settled(donors, own, b)
      ensures forall x: nat | FrameOf(G, x) in donors && old(Settled(donors, own0, x)) :: Settled(donors, own, x)
      ensures View() == Move(old(View()), b, BlockId(G, best, MinOf(old(frameFree[best]))))
    {
      hide Exact, Allocator.Indexed, Steady, CurOf, Free, Move, Renames, OwnsExactly, Then;
      hide Compacting, BlockId, MinOf, Refs;
      own, moved, ren := own0, moved0, ren0;
      ghost var l := View();
      DonorOwned(l0, l, ren, G, donors, own, moved, held, b);
      OwnedPrivate(own, tables, b, held);
      var nb := MoveBlock(b, best, own[b]);
      FreeNotLive(l, held, nb);
      PrivateMove(l, held, b, nb);
      CompactingMove(l0, l, ren, G, donors, own, moved, held, b, nb);
      MoveKeys(l, b, nb);
      ren := Then(ren, b, nb);
      own := own[nb := own[b]];
      moved := moved + 1;
    }

    /** Migrate the blocks of donor frame f. */
    method CompactFrame(f: nat, donors: seq<nat>, own0: Owners, moved0: nat, ghost l0: Ledger, ghost ren0: Renaming)
      returns (own: Owners, moved: nat, ghost ren: Renaming)
      requires MidCompaction(l0, ren0, donors, own0, moved0)
      requires f < |frameFree| && f in donors
      modifies this`refcount, this`tables, this`frameFree, this`emptyFrames
      ensures MidCompaction(l0, ren, donors, own, moved) && |frameFree| == old(|frameFree|)
      ensures forall b: nat | FrameOf(G, b) in donors && old(Settled(donors, own0, b)) :: Settled(donors, own, b)
      ensures forall b: nat | FrameOf(G, b) == f :: Settled(donors, own, b)
      ensures View() == EmptyOne(old(View()), donors, f)
    {
      hide Exact, Allocator.Indexed, Steady, CurOf, Free, Compacting, Full, Allocator.HeldPrivate;
      hide BlockId, MoveAll, UsedIn;
      var occupied := Occupied(f);
      MoveNone(View(), donors, f, occupied);
      assert View().pool.Framed? && View().pool.G == G && View().pool.frames == frameFree;
      OccupiedLive(View(), held, f, occupied);
      own, moved, ren := own0, moved0, ren0;
      for i := 0 to |occupied|
        invariant MidCompaction(l0, ren, donors, own, moved) && |frameFree| == old(|frameFree|)
        invariant forall j | 0 <= j < |occupied| :: FrameOf(G, occupied[j]) == f
        invariant forall j | i <= j < |occupied| :: occupied[j] in refcount
        invariant forall b: nat | FrameOf(G, b) in donors && old(Settled(donors, own0, b)) :: Settled(donors, own, b)
        invariant forall j | 0 <= j < i :: Settled(donors, own, occupied[j])
        invariant View() == MoveAll(old(View()), donors, f, occupied[..i])
      {
        MoveNext(old(View()), donors, f, occupied, i);
        own, moved, ren := TryMove(occupied[i], f, donors, own, moved, l0, ren);
      }
      assert occupied[..|occupied|] == occupied;
    }

    /** compact: migrate table-owned blocks out of sparse frames, until no other frame has
        room. The result is one injective renaming of the live blocks. */
    method Compact() returns (moved: nat, ghost ren: Renaming)
      requires Valid() && HeldPrivate() && policy.PimAware?
      modifies this`refcount, this`tables, this`frameFree, this`emptyFrames, this`blocksCopied, this`compactions
      ensures Valid() && HeldPrivate()
      ensures Renames(old(View()), View(), ren) && moved == |Moved(ren)|
      ensures forall x | x in Moved(ren) :: old(Sparse(x / G)) && !old(Sparse(ren[x] / G)) && x !in held
      ensures forall b | b in refcount && old(Sparse(b / G)) && b in Refs(tables) ::
                forall g | 0 <= g < |frameFree| && !old(Sparse(g)) :: frameFree[g] == {}
      ensures blocksCopied == old(blocksCopied) + moved && compactions == old(compactions) + Bit(moved > 0)
      ensures View() == Compacted(old(View()), policy.compactBelow)
      ensures CompactsTo(old(View()), View(), ren, policy.compactBelow)
      ensures forall x | x in Moved(ren) ::
                var used := LiveIn(old(View()), x / G); 0 < used && (used as real) < policy.compactBelow * (G as real)
    {
      hide Exact, Allocator.Indexed, Steady, CurOf, Renames, OwnsExactly, Allocator.Settled;
      hide Allocator.HeldPrivate, EmptyAll, CompactionOrder.Kept, CompactsTo, LiveIn, Compacted;
      KeptNow();
      CompactedIs(View(), policy.compactBelow);
      var donors := Donors();
      var own := OwnersOf(tables);
      ghost var l0 := View();
      moved, ren := CompactFrames(donors, own);
      if moved > 0 {
        compactions := compactions + 1;
        blocksCopied := blocksCopied + moved;
      }
      TellOrder(l0, ren);
    }

    lemma KeptNow()
      requires Valid() && HeldPrivate() && policy.PimAware?
      ensures CompactionOrder.Kept(View(), held) && View().pool.Framed? && View().pool.G == G
      ensures View().pool.frames == frameFree
    {
      hide Exact, Allocator.Indexed, Steady, CurOf, Refs;
    }

    /** The renaming follows the order of compaction. */
    lemma TellOrder(l0: Ledger, ren: Renaming)
      requires policy.PimAware? && l0.pool.Framed? && l0.pool.G == G && CompactionOrder.Kept(l0, held)
      requires Renames(l0, View(), ren) && View() == Compacted(l0, policy.compactBelow)
      requires forall x | x in Moved(ren) :: x !in held
      ensures CompactsTo(l0, View(), ren, policy.compactBelow)
      ensures forall x | x in Moved(ren) ::
                var used := LiveIn(l0, x / G); 0 < used && (used as real) < policy.compactBelow * (G as real)
    {
      hide CompactionOrder.Kept, Renames, Compacted, TakenBefore, Moved, LiveIn, Refs, MovedInOrder, Free;
      var r := CompactedOrder(l0, held, policy.compactBelow);
      KeptExact(l0, held);
      SameRenaming(l0, View(), held, ren, r);
    }

    /** The loop over the donor frames. */
    method CompactFrames(donors: seq<nat>, own0: Owners) returns (moved: nat, ghost ren: Renaming)
      requires Valid() && HeldPrivate() && policy.PimAware?
      requires (forall f | f in donors :: f < |frameFree|) && forall b: nat :: OwnsExactly(own0, tables, b)
      modifies this`refcount, this`tables, this`frameFree, this`emptyFrames
      ensures Valid() && HeldPrivate() && |frameFree| == old(|frameFree|)
      ensures Renames(old(View()), View(), ren) && moved == |Moved(ren)|
      ensures forall x | x in Moved(ren) :: FrameOf(G, x) in donors && FrameOf(G, ren[x]) !in donors && x !in held
      ensures forall b | b in refcount && FrameOf(G, b) in donors && b in Refs(tables) :: Full(donors)
      ensures View() == EmptyAll(old(View()), donors, donors)
    {
      hide Exact, Allocator.Indexed, Steady, CurOf, Renames, OwnsExactly, Allocator.Settled;
      hide Allocator.MidCompaction, Allocator.Full, Allocator.Valid, Allocator.HeldPrivate;
      hide EmptyAll, EmptyOne, Refs, FrameOf;
      EmptyNone(View(), donors);
      ghost var l0 := View();
      var own := own0;
      moved, ren := 0, Identity(l0);
      StartCompaction(donors, own0);
      for d := 0 to |donors|
        invariant |frameFree| == old(|frameFree|) && MidCompaction(l0, ren, donors, own, moved)
        invariant View() == EmptyAll(l0, donors, donors[..d])
        invariant forall b: nat, e | 0 <= e < d && FrameOf(G, b) == donors[e] :: Settled(donors, own, b)
      {
        assert donors[d] in donors;
        EmptyNext(l0, donors, d);
        own, moved, ren := CompactFrame(donors[d], donors, own, moved, l0, ren);
      }
      assert donors[..|donors|] == donors;
      AllSettled(l0, ren, donors, own, moved);
      DoneCompaction(l0, ren, donors, own, moved);
    }

    lemma StartCompaction(donors: seq<nat>, own: Owners)
      requires Valid() && HeldPrivate() && policy.PimAware? && forall b: nat :: OwnsExactly(own, tables, b)
      ensures MidCompaction(View(), Identity(View()), donors, own, 0)
    {
      hide Exact, Allocator.Indexed, Steady, CurOf, Renames, OwnsExactly;
      RenamesSelf(View(), held);
      assert Moved(Identity(View())) == {};
    }

    lemma DoneCompaction(l0: Ledger, ren: Renaming, donors: seq<nat>, own: Owners, moved: nat)
      requires MidCompaction(l0, ren, donors, own, moved)
      ensures Valid() && HeldPrivate() && Renames(l0, View(), ren) && moved == |Moved(ren)|
      ensures forall x | x in Moved(ren) :: FrameOf(G, x) in donors && FrameOf(G, ren[x]) !in donors && x !in held
    {
      hide Exact, Allocator.Indexed, Steady, CurOf, Renames, OwnsExactly;
    }

    /** When every donor has been dealt with, a block left behind in a table had nowhere to go. */
    lemma AllSettled(l0: Ledger, ren: Renaming, donors: seq<nat>, own: Owners, moved: nat)
      requires MidCompaction(l0, ren, donors, own, moved)
      requires forall b: nat, e | 0 <= e < |donors| && FrameOf(G, b) == donors[e] :: Settled(donors, own, b)
      ensures forall b | b in refcount && FrameOf(G, b) in donors && b in Refs(tables) :: Full(donors)
    {
      forall b | b in refcount && FrameOf(G, b) in donors && b in Refs(tables)
        ensures Full(donors)
      {
        var e :| 0 <= e < |donors| && FrameOf(G, b) == donors[e];
        assert Settled(donors, own, b);
        var k := RefsOwner(tables, b);
        var i :| 0 <= i < |tables[k]| && tables[k][i] == b;
        assert At(tables, Pos(k, i), b);
        DonorOwned(l0, View(), ren, G, donors, own, moved, held, b);
      }
    }

    // ---- release, as each policy overrides it ----------------------------

    predicate Compacts() {
      policy.PimAware? && policy.compactBelow > 0.0
    }

    /** The compaction threshold, 0 when there is no compaction. */
    function Below(): real {
      if Compacts() then policy.compactBelow else 0.0
    }

    /** release: drop the table, forget the sequence, and compact when enabled. */
    method Release(id: int) returns (ghost ren: Renaming)
      requires Valid() && id in tables && (Compacts() ==> HeldPrivate())
      modifies this
      ensures Valid() && held == old(held) && (Compacts() ==> HeldPrivate())
      ensures !Compacts() ==> View() == Bookkeeping.Release(old(View()), id)
      ensures Compacts() ==> Renames(Bookkeeping.Release(old(View()), id), View(), ren)
      ensures Current(View().pool) == Current(Bookkeeping.Release(old(View()), id).pool)
      ensures View() == ReleaseWith(old(View()), id, Below())
    {
      hide Exact, Allocator.Indexed, Steady, CurOf, Renames, Refs, UnrefAll, Compacted;
      ren := map[];
      PrivateRelease(tables, held, id);
      ReleaseTable(id);
      ForgetKey(id);
      assert View() == Bookkeeping.Release(old(View()), id);
      if Compacts() {
        ghost var p := Pim();
        var _, r := Compact();
        SameCur(p, Pim());
        ren := r;
      }
    }
  }

  /** PimAware's constructor: None is the ValueError for a pool that is not whole frames. */
  method NewPimAware(n: nat, g: pos, p: Policy) returns (r: Option<Allocator>)
    requires p.PimAware?
    ensures r.None? <==> n % g != 0
    ensures r.Some? ==> fresh(r.value) && r.value.Valid() && r.value.held == multiset{}
    ensures r.Some? ==> r.value.numBlocks == n && r.value.G == g && r.value.policy == p
    ensures r.Some? ==> 0 <= n / g
    ensures r.Some? ==> r.value.View() == Ledger(n, map[], map[], 0, 0, 0, Framed(g, WholeFrames(g, n / g), map[]))
    ensures r.Some? ==> r.value.emptyFrames == multiset(Upto(n / g))
    ensures r.Some? ==> r.value.plans == map[] && r.value.affinity == map[]
  {
    if n % g != 0 {
      return None;
    }
    DivNat(n, g);
    var k := n / g;
    assert k * g == n;
    var a := new Allocator.Frames(n, k, g, p);
    assert a.numBlocks == n;
    r := Some(a);
  }

  /** 0, 1, ..., n - 1. */
  function Upto(n: nat): seq<nat> {
    seq(n, i requires 0 <= i < n => i)
  }

  /** A fresh stack pool hands out descending ids. */
  lemma FreshDescends(n: nat, key: Key, k: nat)
    requires k <= n
    ensures |TakeMany(Stack(Upto(n)), key, k).1| == k
    ensures forall i | 0 <= i < k :: TakeMany(Stack(Upto(n)), key, k).1[i] == n - 1 - i
  {
    hide TakeMany;
    StackDescends(Upto(n), key, k);
  }

  function WholeFrames(g: pos, k: nat): Frames {
    seq(k, i requires 0 <= i < k => Below(g))
  }

  lemma UptoMember(n: nat)
    ensures forall f: nat :: f in Upto(n) <==> f < n
    ensures forall f: nat :: f in multiset(Upto(n)) <==> f < n
  {
    forall f: nat | f < n
      ensures f in Upto(n)
    {
      assert Upto(n)[f] == f;
    }
    var u := Upto(n);
    assert forall f: nat :: f in multiset(u) <==> f in u;
  }

  lemma FreshStack(n: nat)
    ensures Exact(Ledger(n, map[], map[], 0, 0, 0, Stack(Upto(n))), multiset{})
  {
    UptoMember(n);
  }

  lemma FreshPim(p: PimState)
    requires p.plans == map[] && p.affinity == map[]
    ensures CurOf(p) == map[] && Steady(p)
  {
  }

  /** Every frame of a new pool is wholly empty, and in the heap. */
  lemma FreshIndex(k: nat, g: pos)
    ensures var frames := WholeFrames(g, k);
      && |frames| == k && (forall e | 0 <= e < k :: |frames[e]| == g && e in multiset(Upto(k)))
      && forall e | e in multiset(Upto(k)) :: e < k
  {
    hide Below, Upto;
    UptoMember(k);
    BelowSize(g);
  }

  lemma FreshFrames(n: nat, k: nat, g: pos)
    requires n == k * g
    ensures Exact(Ledger(n, map[], map[], 0, 0, 0, Framed(g, WholeFrames(g, k), map[])), multiset{})
    ensures SumFree(WholeFrames(g, k)) == n
  {
    var frames := WholeFrames(g, k);
    BelowSize(g);
    WholeSum(k, g);
    FramedBelow(g, frames, map[], n);
    forall b: nat | b < n
      ensures b in Free(Framed(g, frames, map[]))
    {
      BlockParts(g, n, k, b);
      FreeMember(g, frames, map[], n, b / g, b % g);
    }
  }

  lemma {:induction false} WholeSum(k: nat, g: pos)
    ensures SumFree(WholeFrames(g, k)) == k * g
  {
    if k > 0 {
      WholeSum(k - 1, g);
      assert WholeFrames(g, k)[..k - 1] == WholeFrames(g, k - 1);
      BelowSize(g);
      MulDistributes(k - 1, 1, g);
    }
  }

  lemma FreeNotLive(l: Ledger, held: multiset<nat>, nb: nat)
    requires Exact(l, held) && nb in Free(l.pool)
    ensures nb !in l.refcount
  {
  }

  lemma SameCur(p: PimState, q: PimState)
    requires p.plans == q.plans && p.affinity == q.affinity
    ensures CurOf(p) == CurOf(q)
  {
  }

  lemma PrivateRelease(tables: map<int, seq<nat>>, held: multiset<nat>, id: int)
    requires id in tables
    ensures (forall b | b in held :: b !in Refs(tables)) ==> forall b | b in held :: b !in Refs(tables - {id})
  {
    RefsPick(tables, id);
  }

  /** Only owned blocks are in a table. */
  lemma OwnedInTable(own: Owners, tables: map<int, seq<nat>>, b: nat)
    requires OwnsExactly(own, tables, b)
    ensures b in own <==> b in Refs(tables)
  {
    if b in own {
      var p := own[b][0];
      assert p in own[b];
      assert At(tables, p, b);
      RefsMember(tables, p.key, b);
    }
    if b in Refs(tables) {
      var k := RefsOwner(tables, b);
      var i :| 0 <= i < |tables[k]| && tables[k][i] == b;
      assert At(tables, Pos(k, i), b);
    }
  }

  lemma MoveOutIs(l: Ledger, donors: seq<nat>, f: nat, b: nat)
    requires l.pool.Framed?
    ensures var t := Target(l.pool.frames, donors, f, |l.pool.frames|);
      MoveOut(l, donors, f, b) ==
        if b !in Refs(l.tables) || t < 0 then l else Move(l, b, BlockId(l.pool.G, t, MinOf(l.pool.frames[t])))
  {
    hide Move, BlockId, MinOf, Target;
  }

  lemma MoveNone(l: Ledger, donors: seq<nat>, f: nat, bs: seq<nat>)
    requires l.pool.Framed?
    ensures MoveAll(l, donors, f, bs[..0]) == l
  {
  }

  lemma MoveNext(l: Ledger, donors: seq<nat>, f: nat, bs: seq<nat>, i: nat)
    requires l.pool.Framed? && i < |bs|
    ensures MoveAll(l, donors, f, bs[..i + 1]) == MoveOut(MoveAll(l, donors, f, bs[..i]), donors, f, bs[i])
  {
    hide MoveOut;
    assert bs[..i + 1][..i] == bs[..i];
  }

  lemma CompactedIs(l: Ledger, below: real)
    requires l.pool.Framed?
    ensures var donors := DonorFrames(l.pool.G, l.pool.frames, below);
      Compacted(l, below) == EmptyAll(l, donors, donors)
  {
    hide EmptyAll, DonorFrames;
  }

  lemma EmptyNone(l: Ledger, donors: seq<nat>)
    requires l.pool.Framed?
    ensures EmptyAll(l, donors, donors[..0]) == l
  {
  }

  lemma EmptyNext(l: Ledger, donors: seq<nat>, d: nat)
    requires l.pool.Framed? && d < |donors|
    ensures EmptyAll(l, donors, donors[..d + 1]) == EmptyOne(EmptyAll(l, donors, donors[..d]), donors, donors[d])
  {
    hide EmptyOne;
    assert donors[..d + 1][..d] == donors[..d];
  }

  lemma MoveKeys(l: Ledger, b: nat, nb: nat)
    ensures Move(l, b, nb).refcount.Keys == l.refcount.Keys - {b} + {nb}
  {
  }

  /** What the owner table says about a live block of a donor frame. */
  lemma DonorOwned(l0: Ledger, l: Ledger, ren: Renaming, G: pos, donors: seq<nat>, own: Owners,
                   moved: nat, held: multiset<nat>, b: nat)
    requires Compacting(l0, l, ren, G, donors, own, moved, held) && b in l.refcount && FrameOf(G, b) in donors
    ensures OwnsExactly(own, l.tables, b)
  {
  }

  /** The used offsets of a frame are its live blocks. */
  lemma OccupiedLive(l: Ledger, held: multiset<nat>, f: nat, occupied: seq<nat>)
    requires Exact(l, held) && l.pool.Framed? && f < |l.pool.frames|
    requires forall b: nat :: b in occupied <==>
               exists o: nat :: o < l.pool.G && o !in l.pool.frames[f] && b == BlockId(l.pool.G, f, o)
    ensures forall j | 0 <= j < |occupied| :: occupied[j] in l.refcount && occupied[j] / l.pool.G == f
    ensures forall b: nat | b in l.refcount && b / l.pool.G == f :: b in occupied
  {
    var p := l.pool;
    forall j | 0 <= j < |occupied|
      ensures occupied[j] in l.refcount && occupied[j] / p.G == f
    {
      assert occupied[j] in occupied;
      var o: nat :| o < p.G && o !in p.frames[f] && occupied[j] == BlockId(p.G, f, o);
      FreeMember(p.G, p.frames, p.cur, l.numBlocks, f, o);
      DivUnique(occupied[j], p.G, f, o);
      assert occupied[j] !in Free(p);
    }
    forall b: nat | b in l.refcount && b / p.G == f
      ensures b in occupied
    {
      assert b in l.refcount.Keys;
      BlockParts(p.G, l.numBlocks, |p.frames|, b);
      FreeMember(p.G, p.frames, p.cur, l.numBlocks, f, b % p.G);
    }
  }

  lemma LiveParts(l: Ledger, held: multiset<nat>, b: nat)
    requires Exact(l, held) && b in l.refcount
    ensures PoolOk(l.pool, l.numBlocks) && b < l.numBlocks && b !in Free(l.pool)
  {
    assert b in l.refcount.Keys;
  }

  /** Moving live block b to the free offset off of frame best. */
  lemma SwapFrames(p: PimState, G: pos, n: nat, b: nat, best: nat, off: nat)
    requires FramesOk(G, p.frames, n) && b < n && b !in Free(Framed(G, p.frames, CurOf(p)))
    requires best < |p.frames| && off in p.frames[best] && best != b / G
    ensures 0 <= b / G < |p.frames| && 0 <= b % G
    ensures BlockId(G, best, off) / G == best && BlockId(G, best, off) % G == off
    ensures BlockId(G, best, off) in Free(Framed(G, p.frames, CurOf(p)))
    ensures |p.frames[b / G] + {b % G}| <= G && |p.frames[best] - {off}| < G
    ensures var frames := p.frames[best := p.frames[best] - {off}][b / G := p.frames[b / G] + {b % G}];
      && SumFree(frames) == SumFree(p.frames)
      && Framed(G, frames, CurOf(p)) == SwapFree(Framed(G, p.frames, CurOf(p)), b, BlockId(G, best, off))
  {
    FreedFrame(p, G, n, b);
    DivUnique(BlockId(G, best, off), G, best, off);
    FreeMember(G, p.frames, CurOf(p), n, best, off);
    FrameSize(G, p.frames, n, best);
    SumFreeUpdate(p.frames, best, p.frames[best] - {off});
    SumFreeUpdate(p.frames[best := p.frames[best] - {off}], b / G, p.frames[b / G] + {b % G});
    SumFreeUpdate(p.frames, b / G, p.frames[b / G] + {b % G});
  }

  lemma FrameSize(G: pos, frames: Frames, n: nat, f: nat)
    requires FramesOk(G, frames, n) && f < |frames|
    ensures |frames[f]| <= G
  {
    BelowSize(G);
    SubsetSize(frames[f], Below(G));
  }

  lemma ForgetCur(p: PimState, key: Key)
    requires Steady(p)
    ensures var q := p.(plans := p.plans - {key}, affinity := p.affinity - {key});
      Steady(q) && CurOf(q) == CurOf(p) - {key}
  {
  }

  lemma TailOut(l: Ledger, held: multiset<nat>, id: int)
    requires Exact(l, held) && id in l.tables && l.tables[id] != []
    ensures var t := l.tables[id];
      Exact(l.(tables := l.tables[id := t[..|t| - 1]]), held + multiset{t[|t| - 1]})
  {
    var t := l.tables[id];
    var p, b := t[..|t| - 1], t[|t| - 1];
    Snoc(t);
    RefsExtend(l.tables[id := p], id, [b]);
    assert l.tables[id := p][id := p + [b]] == l.tables;
    assert multiset([b]) == multiset{b};
    OutOfTables(l, held, multiset{b}, l.tables[id := p]);
  }

  lemma NoBranches(l: Ledger, w: nat)
    ensures Bookkeeping.UnrefOthers(l, [], w) == l && FlatOthers([], w) == []
  {
  }

  lemma OthersNext(h: multiset<nat>, branches: seq<seq<nat>>, w: nat, i: nat)
    requires multiset(FlatOthers(branches, w)) <= h && i < |branches| && i != w
    ensures multiset(branches[i]) <= h - multiset(FlatOthers(branches[..i], w))
    ensures h - multiset(FlatOthers(branches[..i], w)) - multiset(branches[i])
        == h - multiset(FlatOthers(branches[..i + 1], w))
  {
    hide FlatOthers;
    assert branches[..i + 1][..i] == branches[..i];
    OthersLast(branches[..i + 1], w);
    OthersPrefix(branches, w, i + 1);
  }

  lemma {:induction false} OthersPrefix(branches: seq<seq<nat>>, w: nat, i: nat)
    requires i <= |branches|
    ensures multiset(FlatOthers(branches[..i], w)) <= multiset(FlatOthers(branches, w))
  {
    var n := |branches| - 1;
    if i <= n {
      OthersPrefix(branches[..n], w, i);
      assert branches[..n][..i] == branches[..i];
      OthersLast(branches, w);
    } else {
      assert branches[..i] == branches;
    }
  }

  lemma OthersLast(branches: seq<seq<nat>>, w: nat)
    requires branches != []
    ensures var n := |branches| - 1;
      multiset(FlatOthers(branches, w))
        == multiset(FlatOthers(branches[..n], w)) + multiset(if n == w then [] else branches[n])
  {
  }

  lemma RoomAt(l: Ledger, h: multiset<nat>, key: Key, n: nat, i: nat)
    requires Exact(l, h) && i < n <= |Free(l.pool)|
    ensures !Empty(AllocN(l, key, i).0.pool)
  {
    AllocNExact(l, h, key, i);
    TookRoom(l, AllocN(l, key, i).0, AllocN(l, key, i).1);
  }

  lemma HeldNext(h: multiset<nat>, bs: seq<nat>, i: nat)
    requires multiset(bs) <= h && i < |bs|
    ensures bs[i] in h - multiset(bs[..i])
    ensures h - multiset(bs[..i]) - multiset{bs[i]} == h - multiset(bs[..i + 1])
  {
    assert bs == bs[..i] + [bs[i]] + bs[i + 1..];
    assert bs[..i + 1] == bs[..i] + [bs[i]];
    assert multiset(bs) == multiset(bs[..i]) + multiset{bs[i]} + multiset(bs[i + 1..]);
    assert bs[i] in multiset{bs[i]};
  }

  /** Freeing b adds one offset to its frame. */
  lemma FreedFrame(p: PimState, G: pos, n: nat, b: nat)
    requires FramesOk(G, p.frames, n) && b < n && b !in Free(Framed(G, p.frames, CurOf(p)))
    ensures 0 <= b / G < |p.frames| && 0 <= b % G
    ensures |p.frames[b / G] + {b % G}| <= G
    ensures SumFree(p.frames[b / G := p.frames[b / G] + {b % G}]) == SumFree(p.frames) + 1
  {
    var f, off := b / G, b % G;
    BlockParts(G, n, |p.frames|, b);
    FreeMember(G, p.frames, CurOf(p), n, f, off);
    BelowSize(G);
    SubsetSize(p.frames[f] + {off}, Below(G));
    SumFreeUpdate(p.frames, f, p.frames[f] + {off});
  }
}
