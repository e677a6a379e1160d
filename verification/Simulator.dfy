// The serving loop: admission, decoding, speculation and preemption over an allocator.
module Simulator {
  import opened Counting
  import opened Results
  import opened Bookkeeping
  import opened AllocatorView
  import opened Backend
  import opened SimState
  import opened SimSteps
  import opened SimGrowth
  import opened SimTally
  import opened SimRounds
  import opened Schedule
  import opened SimLists
  import opened SimCounts
  import opened SimHistory
  import opened Fairness
  import Contiguous
  import Extents

  class Simulation {
    const cfg: Config
    const alloc: Backend

    // running sequences in the order they were admitted, and preempted ones
    var active: seq<SeqState>
    var waiting: seq<SeqState>
    var cache: Cache
    var fragFailures: nat
    var specStalls: nat
    var copiedTokens: nat
    var preemptions: nat
    var selfPreemptions: nat

    ghost predicate Ok()
      reads this`active, this`cache, alloc.Repr()
    {
      && alloc.Valid() && cfg.spanned == alloc.Spanned? && cfg.compacts == alloc.Compacts()
      && (cfg.spanned ==> cfg.oracle)
      && Good(cfg, active, cache, alloc.Now())
    }

    /** Between rounds only the contiguous policy's scratch is held. */
    ghost predicate NothingHeld()
      reads alloc.Repr()
    {
      !cfg.spanned ==> alloc.Now().held == multiset{}
    }

    ghost predicate HasRoom()
      reads this`active, alloc.Repr()
    {
      Room(cfg, active, alloc.Now())
    }

    /** What the scheduler's decisions depend on over a shared pool. */
    ghost function Counts(): Sched
      reads this`active, this`waiting, this`cache, alloc.Repr()
    {
      Sched(FreeCount(alloc.Now()), active, waiting, cache.Keys)
    }

    /** A run starts on an allocator with nothing allocated. */
    constructor (c: Config, a: Backend)
      requires a.Valid() && a.Now().tables == map[] && a.Now().held == multiset{}
      requires c.spanned == a.Spanned? && c.compacts == a.Compacts() && (c.spanned ==> c.oracle)
      ensures cfg == c && alloc == a && Ok() && NothingHeld() && HasRoom()
      ensures active == [] && waiting == [] && cache == map[]
    {
      cfg, alloc := c, a;
      active, waiting, cache := [], [], map[];
      fragFailures, specStalls, copiedTokens, preemptions, selfPreemptions := 0, 0, 0, 0, 0;
      new;
      hide FreeCount, Backend.Valid, Backend.Now, Uses;
      alloc.FreeNat();
      StartGood(cfg, alloc.Now());
    }

    // ---- admission -------------------------------------------------------

    /** committed(). */
    method CommittedNow() returns (c: int)
      requires Ok()
      ensures c == Committed(active, alloc.Now().tables)
      ensures cfg.oracle ==> c >= 0
    {
      hide SeqOk;
      c := 0;
      for k := 0 to |active|
        invariant c == Committed(active[..k], alloc.Now().tables)
      {
        assert active[..k + 1][..k] == active[..k];
        SeqHasTable(cfg, cache, alloc.Now(), active[k]);
        var t := alloc.Table(active[k].rid);
        c := c + active[k].totalBlocks - |t| - |active[k].scratch|;
      }
      assert active[..|active|] == active;
      if cfg.oracle { CommittedNat(cfg, active, cache, alloc.Now()); }
    }

    /** Pin prefix p's n full blocks. */
    method Pin(p: nat, n: nat)
      requires Ok() && HasRoom() && NothingHeld() && !cfg.spanned && !cfg.compacts && p !in cache
      requires p in cfg.prefixLens && n == Floor(cfg.prefixLens[p], cfg.bt)
      requires n <= FreeCount(alloc.Now()) && (cfg.oracle ==> n <= Spare(active, alloc.Now()))
      modifies this`cache, alloc.Repr()
      ensures Ok() && HasRoom() && NothingHeld() && p in cache
      ensures Counts() == old(Counts()).(free := old(Counts()).free - n, pinned := old(Counts()).pinned + {p})
    {
      hide SeqOk, FreeCount, Uses, Good, Backend.Valid, Backend.Now, Admits;
      ghost var s := alloc.Now();
      GoodParts(cfg, active, cache, s);
      RidsNat(cfg, active, cache, s);
      PinNew(active, cache, s.tables, p);
      var bs := alloc.Admit(CacheId(p), n, n);
      PinGood(cfg, active, cache, s, alloc.Now(), p, bs.value);
      cache := cache[p := bs.value];
      assert cache.Keys == old(cache.Keys) + {p};
    }

    /** The prefix part of try_admit: pin the full prefix blocks unless they are. */
    method PinPrefix(st: SeqState, promptBlocks: nat, total: nat) returns (ok: bool)
      requires Ok() && HasRoom() && NothingHeld() && Known(cfg, st) && SharedCount(cfg, st) > 0
      requires promptBlocks == Ceil(st.length, cfg.bt) && total == TotalWithScratch(cfg, st)
      modifies this`cache, alloc.Repr()
      ensures Ok() && HasRoom() && NothingHeld()
      ensures ok ==> st.prefix.value in cache
      ensures ok <==> PinHeld(cfg, old(Counts()), st) || PinTest(cfg, old(Counts()), st)
      ensures Counts() == if ok && !PinHeld(cfg, old(Counts()), st) then Pinning(cfg, old(Counts()), st)
                          else old(Counts())
    {
      hide SeqOk, FreeCount, Uses, Good, Backend.Valid, Backend.Now, Spare;
      var p := st.prefix.value;
      if p in cache {
        return true;
      }
      var n := Floor(st.prefixLen, cfg.bt);
      FloorBelow(st.prefixLen, st.length, cfg.bt);
      GoodParts(cfg, active, cache, alloc.Now());
      PromisesMeaning(cfg, active, cache, alloc.Now());
      SpareIs(active, alloc.Now());
      var nf := alloc.NumFree();
      var c := CommittedNow();
      if cfg.oracle {
        ok := nf - c >= n + total;
      } else {
        ok := nf - promptBlocks >= cfg.watermark;
      }
      if ok {
        Pin(p, n);
      }
    }

    /** The admission test for a sequence that shares k blocks. */
    method Gate(promptBlocks: nat, total: nat, k: nat) returns (ok: bool)
      requires Ok() && k <= promptBlocks
      ensures ok <==> if cfg.oracle then Spare(active, alloc.Now()) >= total - k
                      else FreeCount(alloc.Now()) - (promptBlocks - k) >= cfg.watermark
      ensures ok && cfg.oracle && promptBlocks <= total ==> promptBlocks - k <= FreeCount(alloc.Now())
    {
      var nf := alloc.NumFree();
      if cfg.oracle {
        var c := CommittedNow();
        ok := nf - c >= total - k;
      } else {
        ok := nf - (promptBlocks - k) >= cfg.watermark;
      }
    }

    /** Only st has joined, with the promise try_admit records. */
    ghost predicate Joined(before: seq<SeqState>, st: SeqState)
      reads this`active
    {
      && |active| == |before| + 1
      && active == before + [Admitted(st, TotalWithScratch(cfg, st), active[|before|].scratch)]
    }

    /** try_admit past the gate, on a pinned prefix. */
    method AdmitOnPrefix(st: SeqState)
      requires Ok() && HasRoom() && NothingHeld() && Known(cfg, st) && !HasRid(active, st.rid) && st.scratch == []
      requires SharedCount(cfg, st) > 0 && st.prefix.value in cache
      requires Ceil(st.length, cfg.bt) - SharedCount(cfg, st) <= FreeCount(alloc.Now())
      requires cfg.oracle ==> Spare(active, alloc.Now()) >= TotalWithScratch(cfg, st) - SharedCount(cfg, st)
      modifies this`active, alloc.Repr()
      ensures Ok() && HasRoom() && NothingHeld() && Joined(old(active), st)
      ensures Counts() == Entering(cfg, old(Counts()), st)
    {
      hide SeqOk, FreeCount, Uses, Good, Backend.Valid, Backend.Now, Shares;
      GoodParts(cfg, active, cache, alloc.Now());
      var shared := cache[st.prefix.value];
      var total := TotalWithScratch(cfg, st);
      FloorBelow(st.prefixLen, st.length, cfg.bt);
      ghost var s := alloc.Now();
      PrefixLive(cfg, cache, s, st.prefix.value);
      var r := alloc.AdmitShared(st.rid, shared, Ceil(st.length, cfg.bt) - |shared|);
      ShareGood(cfg, active, cache, s, alloc.Now(), st, r.value[|shared|..]);
      active := active + [Admitted(st, total, [])];
    }

    /** try_admit past the gate, in a shared pool. */
    method AdmitPrivate(st: SeqState)
      requires Ok() && HasRoom() && NothingHeld() && Known(cfg, st) && !HasRid(active, st.rid) && st.scratch == []
      requires SharedCount(cfg, st) == 0 && !cfg.spanned
      requires Ceil(st.length, cfg.bt) <= FreeCount(alloc.Now())
      requires cfg.oracle ==> Spare(active, alloc.Now()) >= TotalWithScratch(cfg, st)
      modifies this`active, alloc.Repr()
      ensures Ok() && HasRoom() && NothingHeld() && Joined(old(active), st)
      ensures Counts() == Entering(cfg, old(Counts()), st)
    {
      hide SeqOk, FreeCount, Uses, Good, Backend.Valid, Backend.Now, Admits;
      var total := TotalWithScratch(cfg, st);
      CeilMono(st.length, st.totalLen, cfg.bt);
      ghost var s := alloc.Now();
      GoodParts(cfg, active, cache, s);
      var r := alloc.Admit(st.rid, Ceil(st.length, cfg.bt), total);
      AdmitGood(cfg, active, cache, s, alloc.Now(), st, r.value);
      active := active + [Admitted(st, total, [])];
    }

    /** The scratch region of a newly admitted sequence, when it needs one. */
    method TakeRegion(id: int, n: nat) returns (scratch: seq<nat>)
      requires alloc.Valid() && alloc.Spanned? && id in alloc.Now().tables
      requires id in alloc.Now().slack && alloc.Now().slack[id] >= n
      modifies alloc.Repr()
      ensures alloc.Valid() && |scratch| == n
      ensures if scratch == [] then alloc.Now() == old(alloc.Now())
              else Reserves(old(alloc.Now()), alloc.Now(), id, scratch)
    {
      scratch := [];
      if n > 0 {
        var taken := alloc.TakeScratch(id, n);
        scratch := taken.value;
      }
    }

    /** try_admit past the gate, under the contiguous policy: it fails when no run of free
        blocks is long enough. */
    method AdmitSpan(st: SeqState) returns (ok: bool)
      requires Ok() && Known(cfg, st) && !HasRid(active, st.rid) && cfg.spanned
      modifies this`active, this`fragFailures, alloc.Repr()
      ensures Ok() && HasRoom() && NothingHeld()
      ensures if ok then Joined(old(active), st) else active == old(active)
      ensures ok <==> old(alloc.Places(TotalWithScratch(cfg, st)))
      ensures fragFailures == old(fragFailures) + Bit(!ok)
    {
      hide SeqOk, FreeCount, Uses, Good, Reserves, Backend.Places, TotalWithScratch, Known, Admits;
      hide Backend.Valid, Backend.Now;
      var total := TotalWithScratch(cfg, st);
      TotalPositive(cfg, st);
      ghost var s := alloc.Now();
      GoodParts(cfg, active, cache, s);
      var r := alloc.Admit(st.rid, Ceil(st.length, cfg.bt), total);
      if r.None? {
        fragFailures := fragFailures + 1;
        return false;
      }
      ghost var m := alloc.Now();
      SlackLeft(cfg, s, m, st, r.value);
      var scratch := TakeRegion(st.rid, ScratchPerSeq(cfg));
      SpanGood(cfg, active, cache, s, m, alloc.Now(), st, r.value, scratch);
      active := active + [Admitted(st, total, scratch)];
      ok := true;
    }

    /** try_admit: on success st runs, with its table and its promise in place. Over a shared
        pool it succeeds exactly when the tests on counts pass; the contiguous policy also
        needs a run of free blocks for the whole footprint. */
    method TryAdmit(st: SeqState) returns (ok: bool)
      requires Ok() && HasRoom() && NothingHeld() && Known(cfg, st) && !HasRid(active, st.rid) && st.scratch == []
      modifies this`active, this`cache, this`fragFailures, alloc.Repr()
      ensures Ok() && HasRoom() && NothingHeld()
      ensures if ok then Joined(old(active), st) else active == old(active)
      ensures !cfg.spanned ==> fragFailures == old(fragFailures)
      ensures !cfg.spanned ==> (Counts(), ok) == AfterTry(cfg, old(Counts()), st)
      ensures cfg.spanned ==> (ok <==> var n := TotalWithScratch(cfg, st);
                                       old(Spare(active, alloc.Now())) >= n && old(alloc.Places(n)))
    {
      hide SeqOk, FreeCount, Uses, Good, Room, Backend.Valid, Backend.Now, Backend.Places, Spare, Joined;
      var total := TotalWithScratch(cfg, st);
      var promptBlocks := Ceil(st.length, cfg.bt);
      CeilMono(st.length, st.totalLen, cfg.bt);
      var k := SharedCount(cfg, st);
      if k > 0 {
        FloorBelow(st.prefixLen, st.length, cfg.bt);
        var pinned := PinPrefix(st, promptBlocks, total);
        if !pinned {
          return false;
        }
      }
      GoodParts(cfg, active, cache, alloc.Now());
      ok := Gate(promptBlocks, total, k);
      GateMeaning(cfg, active, cache, alloc.Now(), Counts(), st);
      if !ok {
        return;
      }
      if k > 0 {
        AdmitOnPrefix(st);
      } else if cfg.spanned {
        ok := AdmitSpan(st);
      } else {
        AdmitPrivate(st);
      }
    }

    // ---- preemption ------------------------------------------------------

    /** Position of a running sequence, -1 when it does not run. */
    method Find(rid: int) returns (j: int)
      ensures j >= 0 <==> HasRid(active, rid)
      ensures j >= 0 ==> j < |active| && active[j].rid == rid
      ensures if j >= 0 then j == Place(active, rid) else Place(active, rid) == |active|
    {
      j := 0;
      while j < |active|
        invariant 0 <= j <= |active| && forall i | 0 <= i < j :: active[i].rid != rid
      {
        if active[j].rid == rid {
          return;
        }
        j := j + 1;
      }
      j := -1;
    }

    /** Scratch branches in flight have no other reference. */
    ghost predicate Apart()
      reads alloc.Repr()
    {
      !cfg.spanned ==> HeldAlone(alloc.Now())
    }

    /** preempt: all blocks freed, tokens kept, first in line to return. */
    method Preempt(j: nat)
      requires Ok() && j < |active| && !cfg.oracle && Apart()
      modifies this`active, this`waiting, this`preemptions, alloc.Repr()
      ensures Ok() && Apart() && alloc.Now().held == old(alloc.Now().held)
      ensures active == Rest(old(active), j) && waiting == [Requeued(old(active)[j])] + old(waiting)
      ensures Counts() == AfterPreempt(cfg, old(Counts()), j) && preemptions == old(preemptions) + 1
    {
      hide SeqOk, FreeCount, Uses, Good, Backend.Valid, Backend.Now, Image, HeldAlone, HeldApart;
      var st := active[j];
      ghost var s := alloc.Now();
      GoodParts(cfg, active, cache, s);
      SeqHasTable(cfg, cache, s, st);
      NoScratch(cfg, cache, s, st);
      alloc.Shape();
      AloneApart(s);
      ghost var ren := alloc.Retire(st.rid, st.scratch);
      RetireGood(cfg, active, j, cache, s, alloc.Now(), ren);
      RetireHeld(s, alloc.Now(), st.rid, ren, cfg.compacts);
      RetireAlone(s, alloc.Now(), st.rid, ren, cfg.compacts);
      active := active[..j] + active[j + 1..];
      preemptions := preemptions + 1;
      waiting := [Requeued(st)] + waiting;
    }

    /** Preempt the latest other sequence, or rid itself when no one else runs. */
    method PreemptFor(rid: int) returns (itself: bool)
      requires Ok() && !cfg.oracle && HasRid(active, rid) && Apart() && Patient(active)
      modifies this`active, this`waiting, this`preemptions, this`selfPreemptions, alloc.Repr()
      ensures Ok() && Apart() && Patient(active) && alloc.Now().held == old(alloc.Now().held)
      ensures Descends(old(active), old(waiting), active, waiting) && |active| < |old(active)|
      ensures itself <==> !HasRid(active, rid)
      ensures Victim(old(active), rid) < |old(active)| && (itself <==> old(active)[Victim(old(active), rid)].rid == rid)
      ensures Counts() == AfterPreempt(cfg, old(Counts()), Victim(old(active), rid))
      ensures |waiting| == old(|waiting|) + 1 && preemptions == old(preemptions) + 1
      ensures selfPreemptions == old(selfPreemptions) + Bit(itself)
    {
      hide SeqOk, FreeCount, Uses, Good, Backend.Valid, Backend.Now, Descends, Rids, Work, AfterPreempt, HeldAlone;
      ghost var a, w := active, waiting;
      var k := LastOther(rid);
      itself := k < 0;
      if itself {
        selfPreemptions := selfPreemptions + 1;
        k := Find(rid);
        GoodParts(cfg, active, cache, alloc.Now());
        Alone(cfg, a, cache, rid, k);
      } else {
        OtherStays(a, k, rid);
      }
      Preempt(k);
      DescendsPreempt(a, w, k);
      PatientKept(a, active);
    }

    /** ensure_free: preempt the latest others until n blocks are free, or rid itself when no
        one else runs. Under oracle admission there is nothing to do. */
    method EnsureFree(rid: int, n: nat) returns (ok: bool)
      requires Ok() && HasRid(active, rid) && Apart() && Patient(active)
      modifies this`active, this`waiting, this`preemptions, this`selfPreemptions, alloc.Repr()
      ensures Ok() && Apart() && Patient(active) && alloc.Now().held == old(alloc.Now().held)
      ensures cfg.oracle ==> ok && active == old(active) && waiting == old(waiting) && alloc.Now() == old(alloc.Now())
      ensures ok && !cfg.oracle ==> FreeCount(alloc.Now()) >= n
      ensures Descends(old(active), old(waiting), active, waiting)
      ensures ok <==> HasRid(active, rid)
      ensures !ok ==> Work(active) + Work(waiting) < Work(old(active)) + Work(old(waiting))
      ensures (Counts(), ok) == AfterRoom(cfg, old(Counts()), rid, n)
      ensures !cfg.oracle ==> MadeRoom(cfg, old(Counts()), Counts(), ok, rid, n)
      ensures preemptions == old(preemptions) + |waiting| - old(|waiting|)
      ensures selfPreemptions == old(selfPreemptions) + Bit(!ok)
    {
      hide SeqOk, FreeCount, Uses, Good, Backend.Valid, Backend.Now, Descends, Rids, Work;
      hide AfterPreempt, HeldAlone, Victim, HasRid, MadeRoom;
      DescendsSelf(active, waiting);
      GoodParts(cfg, active, cache, alloc.Now());
      if !cfg.oracle { RoomMeaning(cfg, Counts(), rid, n); }
      if cfg.oracle {
        return true;
      }
      var nf := alloc.NumFree();
      while nf < n
        invariant Ok() && HasRid(active, rid) && Apart() && Patient(active)
        invariant alloc.Now().held == old(alloc.Now().held) && nf == FreeCount(alloc.Now())
        invariant Descends(old(active), old(waiting), active, waiting)
        invariant AfterRoom(cfg, old(Counts()), rid, n) == AfterRoom(cfg, Counts(), rid, n)
        invariant preemptions == old(preemptions) + |waiting| - old(|waiting|)
        invariant selfPreemptions == old(selfPreemptions)
        decreases |active|
      {
        ghost var a, w := active, waiting;
        var itself := PreemptFor(rid);
        DescendsTrans(old(active), old(waiting), a, w, active, waiting);
        if itself {
          DescendsSmaller(old(active), old(waiting), a, w, active, waiting);
          return false;
        }
        nf := alloc.NumFree();
      }
      ok := true;
    }

    /** The most recently admitted other sequence, -1 when there is none. */
    method LastOther(rid: int) returns (k: int)
      ensures k >= 0 ==> k < |active| && active[k].rid != rid
      ensures k < 0 ==> forall i | 0 <= i < |active| :: active[i].rid == rid
      ensures k == Schedule.LastOther(active, rid)
    {
      k := |active| - 1;
      while k >= 0
        invariant -1 <= k < |active| && forall i | k < i < |active| :: active[i].rid == rid
      {
        if active[k].rid != rid {
          return;
        }
        k := k - 1;
      }
    }

    // ---- one sequence's round --------------------------------------------

    /** One append_block for a sequence whose table must grow by one to reach length next: it
        fails exactly when a shared pool has no free block. */
    method AppendOne(rid: int, ghost mid: seq<SeqState>, ghost j: nat, ghost next: nat) returns (failed: bool)
      requires alloc.Valid() && cfg.spanned == alloc.Spanned? && (cfg.spanned ==> cfg.oracle) && Apart()
      requires Good(cfg, mid, cache, alloc.Now()) && j < |mid| && mid[j].rid == rid
      requires mid[j].length <= next <= mid[j].totalLen && Ceil(mid[j].length, cfg.bt) + 1 == Ceil(next, cfg.bt)
      modifies alloc.Repr()
      ensures failed <==> !cfg.spanned && old(FreeCount(alloc.Now())) < 1
      ensures !failed ==> alloc.Valid() && Good(cfg, Longer(mid, j, next), cache, alloc.Now()) && Apart()
      ensures !failed ==> Spare(Longer(mid, j, next), alloc.Now()) == Spare(mid, old(alloc.Now()))
      ensures !failed ==> alloc.Now().held == old(alloc.Now().held)
      ensures !failed ==> FreeCount(alloc.Now()) == old(FreeCount(alloc.Now())) - 1
    {
      hide SeqOk, FreeCount, Uses, Good, Backend.Valid, Backend.Now, Unused, HeldAlone;
      ghost var s := alloc.Now();
      GoodParts(cfg, mid, cache, s);
      SeqHasTable(cfg, cache, s, mid[j]);
      if cfg.spanned { OwedCovers(cfg, cache, s, mid[j], next); }
      var r := alloc.AppendBlock(rid);
      if r.None? {
        return true;
      }
      AppendGood(cfg, mid, j, cache, s, alloc.Now(), r.value, next);
      AppendFree(s, alloc.Now(), rid, r.value);
      if !cfg.spanned { AppendAlone(s, alloc.Now(), rid, r.value); }
      failed := false;
    }

    /** Append the blocks the next adv tokens of sequence j need, and commit the tokens. It
        fails exactly when a shared pool has fewer free blocks than that. */
    method Advance(j: nat, adv: nat) returns (failed: bool)
      requires Ok() && Apart() && j < |active| && active[j].length + adv <= active[j].totalLen
      modifies this`active, alloc.Repr()
      ensures var n := Growth(cfg, old(active)[j].length, old(active)[j].length + adv);
        && (failed <==> !cfg.spanned && old(FreeCount(alloc.Now())) < n)
        && (!failed ==> FreeCount(alloc.Now()) == old(FreeCount(alloc.Now())) - n)
      ensures !failed ==> Ok() && Apart() && active == Longer(old(active), j, old(active)[j].length + adv)
      ensures !failed ==> Spare(active, alloc.Now()) == old(Spare(active, alloc.Now()))
      ensures !failed ==> alloc.Now().held == old(alloc.Now().held)
    {
      hide SeqOk, FreeCount, Uses, Good, Backend.Valid, Backend.Now, HeldAlone, Spare;
      var st := active[j];
      var len := st.length + adv;
      CeilMono(st.length, len, cfg.bt);
      var grow := Ceil(len, cfg.bt) - Ceil(st.length, cfg.bt);
      alloc.FreeNat();
      if grow == 0 {
        LengthGood(cfg, active, j, cache, alloc.Now(), len);
        active := active[j := st.(length := len)];
        return false;
      }
      ghost var mid := active;
      for i := 0 to grow
        invariant active == old(active) && alloc.Valid() && Apart() && alloc.Now().held == old(alloc.Now().held)
        invariant mid == Longer(active, j, Midway(st.length, len, cfg.bt, i))
        invariant Good(cfg, mid, cache, alloc.Now()) && Spare(mid, alloc.Now()) == old(Spare(active, alloc.Now()))
        invariant FreeCount(alloc.Now()) == old(FreeCount(alloc.Now())) - i >= 0
      {
        MidwayMeaning(st.length, len, cfg.bt, i);
        MidwayMeaning(st.length, len, cfg.bt, i + 1);
        failed := AppendOne(st.rid, mid, j, Midway(st.length, len, cfg.bt, i + 1));
        if failed {
          return;
        }
        alloc.FreeNat();
        mid := Longer(mid, j, Midway(st.length, len, cfg.bt, i + 1));
      }
      failed := false;
      active := active[j := st.(length := len)];
    }

    /** Commit adv more tokens to sequence j, which take n more blocks: make room first, and
        give up this step when j itself had to be preempted. It fails exactly when oracle
        admission, which makes no room, finds a shared pool with fewer than n free blocks. */
    method Commit(j: nat, adv: pos, n: nat) returns (failed: bool, moved: bool)
      requires Ok() && Apart() && Patient(active) && j < |active|
      requires active[j].length + adv <= active[j].totalLen
      requires n == Growth(cfg, active[j].length, active[j].length + adv)
      modifies this`active, this`waiting, this`preemptions, this`selfPreemptions, alloc.Repr()
      ensures failed <==> cfg.oracle && !cfg.spanned && old(FreeCount(alloc.Now())) < n
      ensures !failed ==> Ok() && Apart() && alloc.Now().held == old(alloc.Now().held)
      ensures !failed ==> Stepped(old(active)[j].rid, old(active), old(waiting), active, waiting)
      ensures !failed && cfg.oracle ==> waiting == old(waiting)
      ensures !failed && cfg.oracle ==> active == Longer(old(active), j, old(active)[j].length + adv)
      ensures !failed && cfg.oracle ==> Spare(active, alloc.Now()) == old(Spare(active, alloc.Now()))
      ensures !cfg.spanned ==> AfterCommit(cfg, old(Counts()), j, adv) == if failed then None else Some(Counts())
    {
      hide SeqOk, FreeCount, Uses, Good, Backend.Valid, Backend.Now, Descends, Stepped, Rids, Work;
      hide Spare, HeldAlone, AfterRoom, AfterCommit;
      ghost var a, w, q := active, waiting, Counts();
      var st := active[j];
      var k := j;
      GoodParts(cfg, active, cache, alloc.Now());
      DescendsSelf(active, waiting);
      alloc.FreeNat();
      NoRoomNeeded(cfg, q, st.rid);
      if n > 0 {
        var ok := EnsureFree(st.rid, n);
        if !ok {
          CommitMeaning(cfg, q, j, adv, n, Counts(), false, 0);
          SelfPreempted(st.rid, a, w, active, waiting);
          return false, false;
        }
        k := Find(st.rid);
        SameState(a, w, active, waiting, j, k);
      }
      GoodParts(cfg, active, cache, alloc.Now());
      PlaceIs(active, k);
      CommitMeaning(cfg, q, j, adv, n, Counts(), true, k);
      ghost var a1, w1 := active, waiting;
      moved := true;
      failed := Advance(k, adv);
      if !failed {
        SteppedLonger(a, w, a1, w1, k, st.length + adv);
      }
    }

    /** Room for sequence j to reach length len, as oracle admission guarantees it. */
    lemma OracleRoom(j: nat, len: nat)
      requires Ok() && HasRoom() && j < |active| && len <= active[j].totalLen && cfg.oracle && !cfg.spanned
      ensures FreeCount(alloc.Now()) >= Growth(cfg, active[j].length, len)
    {
      RoomToGrow(cfg, active, j, cache, alloc.Now(), len);
    }

    /** One ordinary decode step: exactly one token, and a block at a block boundary, or the
        sequence preempts itself. It never fails. */
    method DecodeOne(j: nat) returns (failed: bool)
      requires Ok() && HasRoom() && NothingHeld() && Patient(active)
      requires j < |active| && active[j].length < active[j].totalLen
      modifies this`active, this`waiting, this`preemptions, this`selfPreemptions, alloc.Repr()
      ensures !failed && Ok() && HasRoom() && NothingHeld()
      ensures Stepped(old(active)[j].rid, old(active), old(waiting), active, waiting)
      ensures cfg.oracle ==> waiting == old(waiting) && active == Longer(old(active), j, old(active)[j].length + 1)
      ensures !cfg.spanned ==> AfterCommit(cfg, old(Counts()), j, 1) == Some(Counts())
    {
      hide SeqOk, FreeCount, Uses, Good, Backend.Valid, Backend.Now, Stepped, Spare, AfterCommit;
      var st := active[j];
      GoodParts(cfg, active, cache, alloc.Now());
      SeqHasTable(cfg, cache, alloc.Now(), st);
      CeilStep(st.length, cfg.bt);
      var need := st.length + 1 > |alloc.Table(st.rid)| * cfg.bt;
      if cfg.oracle && !cfg.spanned { OracleRoom(j, st.length + 1); }
      var moved;
      failed, moved := Commit(j, 1, if need then 1 else 0);
    }

    // ---- speculation -----------------------------------------------------

    /** The draft branches of one round: width lists of n blocks each, held by the caller. */
    method HoldBranches(id: int, n: nat, width: nat) returns (branches: seq<seq<nat>>)
      requires Ok() && NothingHeld() && !cfg.spanned && id in alloc.Now().tables && width * n <= FreeCount(alloc.Now())
      modifies alloc.Repr()
      ensures Ok() && Branched(old(alloc.Now()), alloc.Now(), branches, width, n) && Apart()
      ensures FreeCount(alloc.Now()) == old(FreeCount(alloc.Now())) - width * n
    {
      hide SeqOk, FreeCount, Uses, Good, Backend.Valid, Backend.Now, Unused, Flat, HeldAlone;
      ghost var s0 := alloc.Now();
      branches := [];
      BranchedNone(s0, n);
      assert HeldAlone(s0) by { NoneAlone(s0); }
      for i := 0 to width
        invariant Ok() && Branched(s0, alloc.Now(), branches, i, n) && Apart()
        invariant FreeCount(alloc.Now()) == FreeCount(s0) - i * n
      {
        MulMono(i + 1, width, n);
        MulDistributes(i, 1, n);
        ghost var s := alloc.Now();
        var br := alloc.AllocScratch(id, n);
        HeldGood(cfg, active, cache, s, alloc.Now(), br.value);
        HoldFree(s, alloc.Now(), br.value);
        HoldAlone(s, alloc.Now(), br.value);
        BranchedNext(s0, s, alloc.Now(), branches, i, n, br.value);
        branches := branches + [br.value];
      }
    }

    /** Give one branch back. */
    method UnrefBranch(br: seq<nat>)
      requires Ok() && !cfg.spanned && multiset(br) <= alloc.Now().held
      modifies alloc.Repr()
      ensures Ok() && alloc.Now() == old(alloc.Now()).(held := old(alloc.Now().held) - multiset(br))
    {
      hide SeqOk, FreeCount, Uses, Good, Backend.Valid, Backend.Now;
      ghost var s := alloc.Now();
      alloc.UnrefBlocks(br);
      HeldGood(cfg, active, cache, s, alloc.Now(), br);
    }

    /** Give every branch back: exactly their blocks become free. */
    method UnrefBranches(branches: seq<seq<nat>>)
      requires Ok() && !cfg.spanned && alloc.Now().held == multiset(Flat(branches)) && Apart()
      modifies alloc.Repr()
      ensures Ok() && NothingHeld() && Spare(active, alloc.Now()) == old(Spare(active, alloc.Now())) + |Flat(branches)|
      ensures FreeCount(alloc.Now()) == old(FreeCount(alloc.Now())) + |Flat(branches)|
    {
      hide SeqOk, FreeCount, Uses, Good, Backend.Valid, Backend.Now, Flat, HeldAlone;
      ghost var s, all := alloc.Now(), multiset(Flat(branches));
      NoneFlat(branches);
      for i := 0 to |branches|
        invariant Ok() && alloc.Now() == s.(held := all - multiset(Flat(branches[..i])))
      {
        FlatNext(branches, i);
        UnrefBranch(branches[i]);
      }
      assert branches[..|branches|] == branches;
      assert all - all == multiset{};
      BareFree(s, Flat(branches));
    }

    /** splice: the winning branch's tail becomes the table's. */
    method SpliceIn(j: nat, adv: pos, w: nat, branches: seq<seq<nat>>, n: nat, ghost s0: Store)
      requires Ok() && !cfg.spanned && j < |active| && active[j].length + adv <= active[j].totalLen
      requires Good(cfg, active, cache, s0) && s0.held == multiset{}
      requires Branched(s0, alloc.Now(), branches, |branches|, n) && w < |branches|
      requires Ceil(active[j].length % cfg.bt + adv, cfg.bt) <= n
      modifies this`active, alloc.Repr()
      ensures Ok() && NothingHeld() && active == Longer(old(active), j, old(active)[j].length + adv)
      ensures Spare(active, alloc.Now()) == Spare(old(active), s0)
      ensures FreeCount(alloc.Now()) == FreeCount(s0) - Growth(cfg, old(active)[j].length, old(active)[j].length + adv)
    {
      hide SeqOk, FreeCount, Uses, Good, Backend.Valid, Backend.Now, Unused, Flat;
      var st := active[j];
      var r := st.length % cfg.bt;
      var keep := Ceil(r + adv, cfg.bt);
      GoodParts(cfg, active, cache, s0);
      SeqHasTable(cfg, cache, s0, st);
      if r != 0 { TailPrivate(cfg, cache, s0, st); }
      ghost var m := alloc.Now();
      alloc.SpecRoundAdopt(st.rid, r != 0, w, keep, branches);
      RoundSplices(s0, m, alloc.Now(), st.rid, r != 0, branches[w], keep, multiset(Flat(branches)));
      SpliceGood(cfg, active, j, cache, s0, alloc.Now(), adv, branches[w][..keep]);
      active := active[j := st.(length := st.length + adv)];
    }

    /** copyback: tokens go to the sequence's own tail, all branches are freed. It fails
        exactly when oracle admission finds fewer free blocks beside the branches than the
        tail needs. */
    method CopyBack(j: nat, adv: pos, branches: seq<seq<nat>>, n: nat, ghost s0: Store) returns (failed: bool)
      requires Ok() && !cfg.spanned && Apart() && Patient(active)
      requires j < |active| && active[j].length + adv <= active[j].totalLen
      requires s0.held == multiset{} && Branched(s0, alloc.Now(), branches, |branches|, n)
      requires cfg.oracle ==> Spare(active, alloc.Now()) + |branches| * n >= 0
      modifies this`active, this`waiting, this`preemptions, this`selfPreemptions, this`copiedTokens, alloc.Repr()
      ensures failed <==>
                && cfg.oracle
                && old(FreeCount(alloc.Now())) < Growth(cfg, old(active)[j].length, old(active)[j].length + adv)
      ensures !failed ==> Ok() && HasRoom() && NothingHeld()
      ensures !failed ==> Stepped(old(active)[j].rid, old(active), old(waiting), active, waiting)
      ensures !failed && cfg.oracle ==> waiting == old(waiting)
      ensures !failed && cfg.oracle ==> active == Longer(old(active), j, old(active)[j].length + adv)
      ensures AfterCommit(cfg, old(Counts()), j, adv)
           == if failed then None else Some(Counts().(free := Counts().free - |branches| * n))
    {
      hide SeqOk, FreeCount, Uses, Good, Backend.Valid, Backend.Now, Stepped, Spare, Flat, AfterCommit, HeldAlone;
      var len := active[j].length;
      CeilMono(len, len + adv, cfg.bt);
      BranchesHeld(s0, alloc.Now(), branches, n);
      FlatSize(branches, n);
      var moved;
      failed, moved := Commit(j, adv, Ceil(len + adv, cfg.bt) - Ceil(len, cfg.bt));
      if failed {
        return;
      }
      UnrefBranches(branches);
      if moved {
        copiedTokens := copiedTokens + adv;
      }
    }

    /** Too few free blocks for the branches of sequence j's round. */
    ghost predicate Tight(j: nat)
      requires j < |active| && cfg.spec.Some?
      reads this`active, alloc.Repr()
    {
      FreeCount(alloc.Now()) < BranchBlocks(cfg, cfg.spec.value, active[j])
    }

    /** Blocks for the branches of sequence j's round, but not for its tail beside them. */
    ghost predicate CopyShort(j: nat, k: nat)
      requires j < |active| && cfg.spec.Some?
      reads this`active, alloc.Repr()
    {
      var st := active[j];
      && cfg.oracle && !cfg.spanned && cfg.spec.value.copyback && !Tight(j)
      && FreeCount(alloc.Now()) - BranchBlocks(cfg, cfg.spec.value, st)
         < Growth(cfg, st.length, st.length + Accepted(st, k))
    }

    /** One speculation round of sequence j: k drafts accepted, branch w the longest. It commits
        one token when the pool is too tight for branches, else the accepted ones, and fails
        exactly when copy-back under oracle admission leaves too few blocks for the tail. */
    method SpecRound(j: nat, k: nat, w: nat) returns (failed: bool)
      requires Ok() && HasRoom() && NothingHeld() && Patient(active)
      requires j < |active| && active[j].length < active[j].totalLen
      requires cfg.spec.Some? && k <= cfg.spec.value.depth && w < cfg.spec.value.width
      modifies this`active, this`waiting, this`preemptions, this`selfPreemptions
      modifies this`specStalls, this`copiedTokens, alloc.Repr()
      ensures failed <==> old(CopyShort(j, k))
      ensures !failed ==> Ok() && HasRoom() && NothingHeld()
      ensures !failed ==> Stepped(old(active)[j].rid, old(active), old(waiting), active, waiting)
      ensures !failed && cfg.oracle ==> waiting == old(waiting)
      ensures !failed && cfg.oracle ==>
        var st := old(active)[j];
        var adv := if !cfg.spanned && old(Tight(j)) then 1 else Min(k + 1, st.totalLen - st.length);
        active == Longer(old(active), j, old(active)[j].length + adv)
      ensures !cfg.spanned ==> AfterRound(cfg, old(Counts()), j, k) == if failed then None else Some(Counts())
    {
      hide SeqOk, FreeCount, Uses, Good, Backend.Valid, Backend.Now, Stepped, Spare, Branched;
      hide Descends, AfterCommit, HeldAlone;
      var p, st := cfg.spec.value, active[j];
      var adv := Min(k + 1, st.totalLen - st.length);
      if cfg.spanned {
        CeilMono(st.length, st.length + adv, cfg.bt);
        var moved;
        failed, moved := Commit(j, adv, Ceil(st.length + adv, cfg.bt) - Ceil(st.length, cfg.bt));
        copiedTokens := copiedTokens + adv;
        return;
      }
      var r := st.length % cfg.bt;
      var n := Ceil(r + p.depth + 1, cfg.bt);
      var nf := alloc.NumFree();
      var all := p.width * n;
      if nf < all {
        specStalls := specStalls + 1;
        failed := DecodeOne(j);
        return;
      }
      failed := BranchRound(p, j, adv, w, n, all);
    }

    /** A round with room for its branches, all blocks in lists of n. */
    method BranchRound(p: SpecParams, j: nat, adv: pos, w: nat, n: nat, all: nat) returns (failed: bool)
      requires Ok() && HasRoom() && NothingHeld() && Patient(active) && !cfg.spanned
      requires j < |active| && active[j].length + adv <= active[j].totalLen
      requires cfg.spec == Some(p) && adv <= p.depth + 1 && w < p.width
      requires n == BranchSize(cfg, p, active[j]) && all == p.width * n && all <= FreeCount(alloc.Now())
      modifies this`active, this`waiting, this`preemptions, this`selfPreemptions, this`copiedTokens, alloc.Repr()
      ensures failed <==> cfg.oracle && p.copyback && old(FreeCount(alloc.Now())) - all
                            < Growth(cfg, old(active)[j].length, old(active)[j].length + adv)
      ensures !failed ==> Ok() && HasRoom() && NothingHeld()
      ensures !failed ==> Stepped(old(active)[j].rid, old(active), old(waiting), active, waiting)
      ensures !failed && cfg.oracle ==> waiting == old(waiting)
      ensures !failed && cfg.oracle ==> active == Longer(old(active), j, old(active)[j].length + adv)
      ensures Branching(cfg, old(Counts()), j, adv, all) == if failed then None else Some(Counts())
    {
      hide SeqOk, FreeCount, Uses, Good, Backend.Valid, Backend.Now, Stepped, Spare, Branched;
      hide AfterCommit, HeldAlone, BranchSize;
      hide Room, Growth;
      var st := active[j];
      ghost var s0 := alloc.Now();
      GoodParts(cfg, active, cache, s0);
      SeqHasTable(cfg, cache, s0, st);
      var branches := HoldBranches(st.rid, n, p.width);
      BranchesCount(s0, alloc.Now(), branches, p.width, n);
      if st.length % cfg.bt != 0 {
        copiedTokens := copiedTokens + p.width * (st.length % cfg.bt);
      }
      if p.copyback {
        HeldSpare(active, s0, alloc.Now(), branches, n);
        RoomIs(cfg, active, s0);
        failed := CopyBack(j, adv, branches, n, s0);
      } else {
        BranchHolds(cfg, p, st, adv);
        PlaceIs(active, j);
        Splice(j, adv, w, branches, n, s0);
        failed := false;
      }
    }

    /** The splice of a round whose branches are held. */
    method Splice(j: nat, adv: pos, w: nat, branches: seq<seq<nat>>, n: nat, ghost s0: Store)
      requires Ok() && !cfg.spanned && Patient(active) && j < |active| && active[j].length + adv <= active[j].totalLen
      requires Good(cfg, active, cache, s0) && s0.held == multiset{} && Room(cfg, active, s0)
      requires Branched(s0, alloc.Now(), branches, |branches|, n) && w < |branches|
      requires Ceil(active[j].length % cfg.bt + adv, cfg.bt) <= n
      modifies this`active, alloc.Repr()
      ensures Ok() && HasRoom() && NothingHeld() && active == Longer(old(active), j, old(active)[j].length + adv)
      ensures FreeCount(alloc.Now()) == FreeCount(s0) - Growth(cfg, old(active)[j].length, old(active)[j].length + adv)
      ensures Stepped(old(active)[j].rid, old(active), waiting, active, waiting)
    {
      hide SeqOk, FreeCount, Uses, Good, Backend.Valid, Backend.Now, Stepped, Spare, Branched, Descends, Growth;
      ghost var a := active;
      GoodParts(cfg, active, cache, alloc.Now());
      DescendsSelf(active, waiting);
      SpliceIn(j, adv, w, branches, n, s0);
      SteppedLonger(a, waiting, a, waiting, j, a[j].length + adv);
    }

    // ---- the main loop's phases ------------------------------------------

    /** What holds at every step boundary. */
    ghost predicate Boundary()
      reads this, alloc.Repr()
    {
      && Ok() && HasRoom() && NothingHeld() && Patient(active)
      && WaitOk(cfg, waiting) && (cfg.oracle ==> waiting == [])
    }

    /** The front of the preempted queue is admitted, dropped when it can never fit, or waits. */
    method AdmitHead() returns (r: HeadStep)
      requires Boundary() && Strict(active) && Strict(waiting) && waiting != [] && !HasRid(active, waiting[0].rid)
      modifies this`active, this`waiting, this`cache, this`fragFailures, alloc.Repr()
      ensures Boundary() && Strict(active) && Strict(waiting)
      ensures r.Blocks? ==> active != [] && active == old(active) && waiting == old(waiting)
      ensures !r.Blocks? ==> waiting == old(waiting)[1..]
      ensures Rids(active) + Rids(waiting) + (if r.Leaves? then multiset{old(waiting)[0].rid} else multiset{})
           == Rids(old(active)) + Rids(old(waiting))
      ensures Work(active) + Work(waiting) <= Work(old(active)) + Work(old(waiting))
      ensures old(active) <= active && |active| <= |old(active)| + 1
      ensures !cfg.spanned ==> (Counts(), r) == AfterHead(cfg, alloc.NumBlocks(), old(Counts()))
      ensures r.Leaves? ==> Hopeless(cfg, alloc.NumBlocks(), old(waiting)[0]) || active == []
      ensures NoShorter(old(active), old(waiting), active, waiting)
    {
      hide Ok, HasRoom, NothingHeld, Patient, WaitOk, Strict, Rids, Work, Known, WorkOf, HasRid;
      hide FreeCount, AfterTry, AfterHead, NoShorter, Backend.Now;
      var st := waiting[0];
      HeadOut(cfg, active, waiting);
      ghost var a, q := active, Counts();
      var n := alloc.NumBlocks();
      HeadShorter(cfg, active, waiting, []);
      if st.preempts > 1000 || Ceil(st.length + 1, cfg.bt) > n {
        HeadGone(cfg, n, q);
        waiting := waiting[1..];
        return Leaves;
      }
      var ok := TryAdmit(st);
      if !cfg.spanned { HeadTried(cfg, n, q, Counts(), ok); }
      if ok {
        JoinedTally(cfg, a, st, active);
        HeadShorter(cfg, a, waiting, active[|a|].scratch);
        r := Enters;
      } else if active == [] {
        r := Leaves;
      } else {
        SameShorter(active, waiting);
        return Blocks;
      }
      waiting := waiting[1..];
    }

    /** Admit from the front of the preempted queue while the batch has room. */
    method AdmitWaiting() returns (blocked: bool, dropped: seq<int>)
      requires Boundary() && Strict(active) && Strict(waiting) && Once(active, waiting)
      modifies this`active, this`waiting, this`cache, this`fragFailures, alloc.Repr()
      ensures Boundary() && Strict(active) && Strict(waiting)
      ensures Rids(active) + Rids(waiting) + multiset(dropped) == Rids(old(active)) + Rids(old(waiting))
      ensures Work(active) + Work(waiting) <= Work(old(active)) + Work(old(waiting))
      ensures active == [] ==> waiting == [] && !blocked
      ensures !blocked ==> waiting == [] || |active| >= cfg.maxBatch
      ensures blocked ==> active != []
      ensures old(active) <= active && Tail(waiting, old(waiting))
      ensures |active| <= Max(|old(active)|, cfg.maxBatch) && (blocked ==> waiting != [])
      ensures !cfg.spanned ==> (Counts(), blocked, dropped) == AfterQueue(cfg, alloc.NumBlocks(), old(Counts()))
      ensures old(waiting) == [] ==> dropped == []
      ensures NoShorter(old(active), old(waiting), active, waiting)
    {
      hide Simulation.Boundary, Strict, Rids, Work, Once, HasRid, FreeCount, AfterHead, AfterQueue;
      hide NoShorter, Backend.Now;
      hide Drawn, Onward;
      NoneDrawn(active, waiting);
      dropped := [];
      blocked := false;
      ghost var all, blocks := AfterQueue(cfg, alloc.NumBlocks(), Counts()), alloc.NumBlocks();
      OnwardNone(all);
      while |waiting| > 0 && |active| < cfg.maxBatch
        invariant Boundary() && Strict(active) && Strict(waiting)
        invariant Drawn(old(active), old(waiting), active, waiting, dropped) && !blocked
        invariant |active| <= Max(|old(active)|, cfg.maxBatch)
        invariant !cfg.spanned ==> all == Onward(dropped, AfterQueue(cfg, blocks, Counts()))
        decreases |waiting|
      {
        ghost var a, w, q, gone := active, waiting, Counts(), dropped;
        OnceHead(active, waiting, dropped, old(active), old(waiting));
        var rid := waiting[0].rid;
        var r := AdmitHead();
        if r.Leaves? {
          dropped := dropped + [rid];
        }
        DrawnNext(old(active), old(waiting), a, w, gone, active, waiting, r, dropped);
        if !cfg.spanned { QueueNext(cfg, blocks, q, Counts(), r, gone, dropped); }
        if r.Blocks? {
          blocked := true;
          break;
        }
      }
      if !blocked { QueueEnds(cfg, blocks, Counts(), dropped); }
      DrawnMeaning(old(active), old(waiting), active, waiting, dropped);
    }

    /** With no one running the contiguous policy places any footprint the pool can hold. */
    lemma WholePool(n: nat)
      requires Ok() && cfg.spanned && active == [] && n > 0
      ensures Spare(active, alloc.Now()) == alloc.NumBlocks() && (alloc.Places(n) <==> n <= alloc.NumBlocks())
    {
      hide FreeCount, Contiguous.Inv, Extents.HasRun;
      GoodParts(cfg, active, cache, alloc.Now());
      assert forall k :: k !in alloc.Now().tables;
      alloc.WholeAgain();
      Contiguous.AloneRun(alloc.o.View(), n);
    }

    /** Under the contiguous policy only requests larger than the pool are dropped. */
    ghost predicate Misfits(reqs: seq<Request>, dropped: seq<int>)
      reads alloc.Repr()
    {
      cfg.spanned ==> forall d | d in dropped :: Misfit(cfg, alloc.NumBlocks(), reqs, d)
    }

    /** A new request is admitted, dropped when it cannot be placed even alone, or waits. */
    method AdmitArrival(req: Request) returns (r: HeadStep)
      requires Boundary() && Strict(active) && RequestOk(cfg, req) && !HasRid(active, req.rid)
      modifies this`active, this`cache, this`fragFailures, alloc.Repr()
      ensures Boundary() && Strict(active)
      ensures r.Enters? ==> Rids(active) == Rids(old(active)) + multiset{req.rid}
      ensures r.Enters? ==> Work(active) == Work(old(active)) + WorkOf(Fresh(req))
      ensures !r.Enters? ==> active == old(active)
      ensures r.Enters? ==> |active| == |old(active)| + 1 && old(active) <= active
      ensures r.Enters? ==> active[|old(active)|].rid == req.rid && active[|old(active)|].length == req.promptLen
      ensures if active == [] then r.Leaves? else !r.Leaves?
      ensures !cfg.spanned ==> (Counts(), r.Enters?) == AfterTry(cfg, old(Counts()), Fresh(req))
      ensures cfg.spanned && r.Leaves? ==> TotalWithScratch(cfg, Fresh(req)) > alloc.NumBlocks()
    {
      hide Ok, HasRoom, NothingHeld, Patient, WaitOk, Strict, Rids, Work, Known, WorkOf, HasRid, FreeCount, AfterTry;
      hide TotalWithScratch, Backend.Places, Backend.Now, Spare;
      var st := Fresh(req);
      FreshKnown(cfg, req);
      TotalPositive(cfg, st);
      if cfg.spanned && active == [] { WholePool(TotalWithScratch(cfg, st)); }
      ghost var a := active;
      var ok := TryAdmit(st);
      if ok {
        JoinedTally(cfg, a, st, active);
        r := Enters;
      } else if active == [] {
        r := Leaves;
      } else {
        r := Blocks;
      }
    }

    /** Admit the requests that have arrived, first come first served. */
    method AdmitArrivals(reqs: seq<Request>, i0: nat, t: nat, ghost out: multiset<int>)
      returns (i: nat, dropped: seq<int>)
      requires Boundary() && Strict(active) && RequestsOk(cfg, reqs) && i0 <= |reqs|
      requires Rids(active) + Rids(waiting) + out == Rids(FreshAll(reqs[..i0]))
      modifies this`active, this`cache, this`fragFailures, alloc.Repr()
      ensures Boundary() && Strict(active) && i0 <= i <= |reqs|
      ensures Rids(active) + Rids(waiting) + (out + multiset(dropped)) == Rids(FreshAll(reqs[..i]))
      ensures Work(active) + Work(FreshAll(reqs[i..])) <= Work(old(active)) + Work(FreshAll(reqs[i0..]))
      ensures active == [] ==> i == |reqs| || reqs[i].arrival > t
      ensures old(active) <= active && Newcomers(active, |old(active)|, reqs, i0, i)
      ensures |active| <= Max(|old(active)|, cfg.maxBatch) && (|old(active)| >= cfg.maxBatch ==> i == i0)
      ensures forall k | i0 <= k < i :: reqs[k].arrival <= t
      ensures !cfg.spanned ==> (Counts(), i, dropped) == AfterArrivals(cfg, old(Counts()), reqs, i0, t)
      ensures Misfits(reqs, dropped)
      ensures active == [] && i > i0 ==>
        Work(active) + Work(FreshAll(reqs[i..])) < Work(old(active)) + Work(FreshAll(reqs[i0..]))
    {
      hide Simulation.Boundary, Strict, Rids, Work, WorkOf, HasRid, FreshAll, FreeCount, AfterTry;
      hide AfterArrivals, Backend.Now;
      hide Newcomers, Misfit, Arrived, Onward;
      i, dropped := i0, [];
      ghost var all := AfterArrivals(cfg, Counts(), reqs, i0, t);
      OnwardNone(all);
      NoneArrived(active, waiting, reqs, i0, out);
      while i < |reqs| && reqs[i].arrival <= t && |active| < cfg.maxBatch
        invariant i0 <= i <= |reqs| && Boundary() && Strict(active)
        invariant Arrived(old(active), active, waiting, reqs, i0, i, out, dropped)
        invariant |active| <= Max(|old(active)|, cfg.maxBatch) && (|old(active)| >= cfg.maxBatch ==> i == i0)
        invariant forall k | i0 <= k < i :: reqs[k].arrival <= t
        invariant !cfg.spanned ==> all == Onward(dropped, AfterArrivals(cfg, Counts(), reqs, i, t))
        invariant Misfits(reqs, dropped)
      {
        ghost var a, q, gone := active, Counts(), dropped;
        ArrivedMeaning(old(active), a, waiting, reqs, i0, i, out, dropped);
        NewRid(reqs, i, active, waiting, out + multiset(dropped));
        var r := AdmitArrival(reqs[i]);
        if r.Leaves? {
          dropped := dropped + [reqs[i].rid];
          if cfg.spanned { MisfitIs(cfg, alloc.NumBlocks(), reqs, i); }
        }
        if !cfg.spanned { ArrivalsNext(cfg, q, Counts(), r.Enters?, reqs, i, t, gone, dropped); }
        if r.Blocks? {
          return;
        }
        FreshWork(cfg, reqs[i]);
        ArrivedNext(old(active), a, active, waiting, reqs, i0, i, out, gone, r, dropped);
        i := i + 1;
      }
      ArrivedMeaning(old(active), active, waiting, reqs, i0, i, out, dropped);
      ArrivalsEnd(cfg, Counts(), reqs, i, t, dropped);
    }

    /** One sequence's turn in a step; the draws say how speculation turns out. */
    method TakeTurn(j: nat, t: nat, draws: Draws) returns (failed: bool)
      requires Boundary() && j < |active| && active[j].length < active[j].totalLen
      modifies this`active, this`waiting, this`preemptions, this`selfPreemptions
      modifies this`specStalls, this`copiedTokens, alloc.Repr()
      ensures failed ==> cfg.oracle && !cfg.spanned && cfg.spec.Some? && cfg.spec.value.copyback
      ensures !failed ==> Boundary()
      ensures !failed ==> Stepped(old(active)[j].rid, old(active), old(waiting), active, waiting)
      ensures !failed && cfg.oracle ==> waiting == old(waiting) && Progress(old(active), active, j)
      ensures !cfg.spanned ==> AfterTurn(cfg, old(Counts()), j, t, draws) == if failed then None else Some(Counts())
    {
      hide HasRoom, NothingHeld, WaitOk, Stepped, Good, SeqOk, FreeCount, AfterRound, AfterCommit;
      hide Backend.Now, Backend.Valid;
      ghost var a, w := active, waiting;
      RunningKnown(cfg, active, cache, alloc.Now());
      if cfg.spec.Some? {
        var d := draws(t, active[j].rid);
        failed := SpecRound(j, Min(d.0, cfg.spec.value.depth), d.1 % cfg.spec.value.width);
      } else {
        failed := DecodeOne(j);
      }
      if !failed {
        StepKeeps(cfg, a[j].rid, a, w, active, waiting);
      }
    }

    /** A step in which the first x of the sequences ids have had their turn. */
    ghost predicate MidStep(q0: Sched, ids: seq<int>, x: nat, finished: seq<int>, t: nat, draws: Draws)
      requires x <= |ids|
      reads this, alloc.Repr()
    {
      var a0, w0 := q0.active, q0.waiting;
      && Boundary()
      && (!cfg.spanned ==> AfterTurns(cfg, q0, ids[..x], t, draws) == Some((Counts(), finished)))
      && (cfg.oracle ==> RidSeq(active) == ids)
      && (x == 0 ==> active == a0)
      && Once(active, waiting)
      && Turned(a0, w0, active, waiting, x > 0)
      && Roll(ids, x, finished)
      && Late(active, finished) && Late(waiting, finished)
    }

    /** The turn of running sequence j, and whether it reached its final length. */
    method RunTurn(rid: int, j: nat, finished0: seq<int>, t: nat, draws: Draws)
      returns (failed: bool, finished: seq<int>)
      requires Boundary() && Once(active, waiting) && Late(active, finished0)
      requires Late(waiting, finished0) && rid !in finished0
      requires j < |active| && active[j].rid == rid && active[j].length < active[j].totalLen && j == Place(active, rid)
      modifies this`active, this`waiting, this`preemptions, this`selfPreemptions
      modifies this`specStalls, this`copiedTokens, alloc.Repr()
      ensures failed ==> cfg.oracle && !cfg.spanned && cfg.spec.Some? && cfg.spec.value.copyback
      ensures !cfg.spanned ==>
        AfterNext(cfg, old(Counts()), finished0, rid, t, draws) == if failed then None else Some((Counts(), finished))
      ensures !failed ==> Boundary() && Once(active, waiting)
      ensures !failed ==> Stepped(rid, old(active), old(waiting), active, waiting)
      ensures !failed ==> Late(active, finished) && Late(waiting, finished)
      ensures finished == finished0 || finished == finished0 + [rid]
      ensures !failed && cfg.oracle ==> RidSeq(active) == RidSeq(old(active))
    {
      hide Simulation.Boundary, Late, Once, AfterTurn, FreeCount, Backend.Now, Stepped, Progress;
      hide Rids, Work, RidsDistinct, RidSeq;
      finished := finished0;
      ghost var a, w := active, waiting;
      failed := TakeTurn(j, t, draws);
      if failed {
        return;
      }
      if cfg.oracle { ProgressRids(a, active, j); }
      var k := Find(rid);
      if k >= 0 && active[k].length >= active[k].totalLen {
        finished := finished + [rid];
      }
      BoundaryRids();
      SteppedRids(rid, a, w, active, waiting);
      SameOnce(a, w, active, waiting);
      LateStep(rid, a, w, active, waiting, finished0, finished, k);
    }

    /** The turn of sequence number x, unless it was preempted earlier in the step. */
    method NextTurn(ids: seq<int>, x: nat, finished0: seq<int>, t: nat, draws: Draws, ghost q0: Sched)
      returns (failed: bool, finished: seq<int>)
      requires x < |ids| && Distinct(ids) && MidStep(q0, ids, x, finished0, t, draws) && ids == RidSeq(q0.active)
      modifies this`active, this`waiting, this`preemptions, this`selfPreemptions
      modifies this`specStalls, this`copiedTokens, alloc.Repr()
      ensures failed ==> cfg.oracle && !cfg.spanned && cfg.spec.Some? && cfg.spec.value.copyback
      ensures failed ==> AfterTurns(cfg, q0, ids[..x + 1], t, draws) == None
      ensures !failed ==> MidStep(q0, ids, x + 1, finished, t, draws)
    {
      hide Simulation.Boundary, Late, Turned, Once, AfterTurns, FreeCount, Backend.Now, Stepped, Roll, HasRid;
      var rid := ids[x];
      TurnsNext(cfg, q0, ids, x, t, draws);
      RollNext(ids, x, finished0);
      var j := Find(rid);
      if j < 0 {
        SkipTurned(q0.active, q0.waiting, active, waiting, ids, x);
        return false, finished0;
      }
      ghost var a, w := active, waiting;
      NotLate(active, j, finished0, ids, x);
      failed, finished := RunTurn(rid, j, finished0, t, draws);
      if !failed {
        TurnedStep(q0.active, q0.waiting, a, w, active, waiting, x > 0, rid);
      }
    }

    lemma BoundaryRids()
      requires Boundary()
      ensures RidsDistinct(active)
    {
    }

    /** The decode loop over the sequences running when the step began. */
    method DecodeAll(t: nat, draws: Draws) returns (failed: bool, finished: seq<int>)
      requires Boundary() && Strict(active) && Strict(waiting) && active != [] && Once(active, waiting)
      modifies this`active, this`waiting, this`preemptions, this`selfPreemptions
      modifies this`specStalls, this`copiedTokens, alloc.Repr()
      ensures failed ==> cfg.oracle && !cfg.spanned && cfg.spec.Some? && cfg.spec.value.copyback
      ensures !cfg.spanned ==> (AfterTurns(cfg, old(Counts()), RidSeq(old(active)), t, draws)
                            == if failed then None else Some((Counts(), finished)))
      ensures !failed ==> Boundary() && Turned(old(active), old(waiting), active, waiting, true)
      ensures !failed ==> Distinct(finished) && Late(active, finished) && Late(waiting, finished)
      ensures !failed ==> forall f | f in finished :: HasRid(old(active), f)
      ensures !failed && cfg.oracle ==> forall f | f in finished :: HasRid(active, f)
    {
      hide Simulation.Boundary, Turned, Late, AfterTurns, FreeCount, Backend.Now;
      var ids := RidSeq(active);
      ghost var q0 := Counts();
      BoundaryRids();
      finished := [];
      StartTurned(active, waiting);
      NoTurns(cfg, q0, ids, t, draws);
      StrictLate(active, waiting);
      for x := 0 to |ids|
        invariant MidStep(q0, ids, x, finished, t, draws)
      {
        failed, finished := NextTurn(ids, x, finished, t, draws, q0);
        if failed {
          TurnsFail(cfg, q0, ids, x + 1, t, draws);
          return;
        }
      }
      assert ids[..|ids|] == ids;
      ListedRun(old(active), ids, finished);
      failed := false;
    }

    /** A running sequence leaves, its scratch and blocks given back. */
    method Leave(j: nat)
      requires Boundary() && j < |active|
      modifies this`active, alloc.Repr()
      ensures Boundary() && active == Rest(old(active), j)
      ensures !cfg.spanned ==>
        Counts() == old(Counts()).(free := old(Counts()).free + OwnBlocks(cfg, old(active)[j]), active := active)
    {
      hide SeqOk, FreeCount, Uses, Good, Backend.Valid, Backend.Now, Image, Spare;
      var st := active[j];
      ghost var s := alloc.Now();
      GoodParts(cfg, active, cache, s);
      SeqHasTable(cfg, cache, s, st);
      ScratchIs(cfg, cache, s, st);
      alloc.Shape();
      NoneAlone(s);
      ghost var ren := alloc.Retire(st.rid, st.scratch);
      RetireGood(cfg, active, j, cache, s, alloc.Now(), ren);
      if !cfg.spanned { RetireHeld(s, alloc.Now(), st.rid, ren, cfg.compacts); }
      PatientKept(active, Rest(active, j));
      active := active[..j] + active[j + 1..];
    }

    /** The finished sequences leave; false is the KeyError for one that no longer runs. */
    method FinishAll(finished: seq<int>) returns (ok: bool)
      requires Boundary() && Distinct(finished)
      modifies this`active, alloc.Repr()
      ensures Boundary()
      ensures ok ==> Rids(active) + multiset(finished) == Rids(old(active)) && Work(active) <= Work(old(active))
      ensures ok ==> forall st | st in active :: st in old(active)
      ensures ok <==> forall f | f in finished :: HasRid(old(active), f)
      ensures !cfg.spanned ==> AfterLeaving(cfg, old(Counts()), finished) == if ok then Some(Counts()) else None
    {
      hide Simulation.Boundary, FreeCount, Backend.Now, AfterLeaving, HasRid, OwnBlocks, Parted, Distinct;
      ghost var q0 := Counts();
      NoneLeaves(cfg, q0, finished);
      PartedFrom(active, finished);
      for x := 0 to |finished|
        invariant Boundary() && Parted(old(active), active, finished, x)
        invariant !cfg.spanned ==> AfterLeaving(cfg, q0, finished[..x]) == Some(Counts())
      {
        LeavesNext(cfg, q0, finished, x);
        var j := Find(finished[x]);
        if j < 0 {
          PartMissing(old(active), active, finished, x);
          if !cfg.spanned { LeavingFails(cfg, q0, finished, x + 1); }
          return false;
        }
        ghost var a := active;
        Leave(j);
        PartNext(old(active), a, j, finished, x);
      }
      assert finished[..|finished|] == finished;
      PartedAll(old(active), active, finished);
      ok := true;
    }

    /** A pinned prefix is released once no one runs. */
    method Unpin(p: nat)
      requires Boundary() && active == [] && p in cache
      modifies this`cache, alloc.Repr()
      ensures Boundary() && cache == old(cache) - {p}
    {
      hide FreeCount, Uses, Backend.Valid, Backend.Now, Image;
      ghost var s := alloc.Now();
      alloc.Shape();
      ghost var ren := alloc.Retire(CacheId(p), []);
      WithoutKept(s, CacheId(p));
        UnpinGood(cfg, cache, s, p);
      WithoutFree(s, CacheId(p));
      RetireHeld(s, alloc.Now(), CacheId(p), ren, cfg.compacts);
      cache := cache - {p};
    }

    /** At the end every pinned prefix is released, and the pool is whole again. */
    method Finish()
      requires Boundary() && active == []
      modifies this`cache, alloc.Repr()
      ensures Boundary() && alloc.Now().tables == map[] && FreeCount(alloc.Now()) == alloc.Now().n
    {
      hide Simulation.Boundary;
      while |cache.Keys| > 0
        invariant Boundary()
        decreases |cache|
      {
        var p := AnyOf(cache.Keys);
        assert cache.Keys - {p} < cache.Keys;
        Unpin(p);
      }
      assert cache == map[];
      NothingOwned();
    }

    lemma NothingOwned()
      requires Boundary() && active == [] && cache == map[]
      ensures alloc.Now().tables == map[] && FreeCount(alloc.Now()) == alloc.Now().n
    {
      hide FreeCount;
      assert forall k :: k !in alloc.Now().tables;
      alloc.WholeAgain();
    }

    /** One step of the main loop past admission: decode, then let the finished go. A KeyError
        ends it exactly when a sequence that reached its final length was preempted after. */
    method Step(t: nat, draws: Draws) returns (outcome: Outcome, finished: seq<int>)
      requires Boundary() && Strict(active) && Strict(waiting) && active != [] && Once(active, waiting)
      modifies this`active, this`waiting, this`preemptions, this`selfPreemptions
      modifies this`specStalls, this`copiedTokens, alloc.Repr()
      ensures outcome.AdmissionFailure? ==> cfg.oracle && !cfg.spanned && cfg.spec.Some? && cfg.spec.value.copyback
      ensures !outcome.AdmissionFailure? ==> (outcome.KeyError? <==> !Strict(waiting))
      ensures outcome.KeyError? ==> !cfg.oracle
      ensures !cfg.spanned ==> (AfterStep(cfg, old(Counts()), t, draws)
                            == if outcome.Finished? then Goes(Counts(), finished) else Raises(outcome))
      ensures outcome.Finished? ==> Boundary() && Strict(active) && Strict(waiting)
      ensures outcome.Finished? ==>
        Rids(active) + Rids(waiting) + multiset(finished) == Rids(old(active)) + Rids(old(waiting))
      ensures outcome.Finished? ==> Work(active) + Work(waiting) < Work(old(active)) + Work(old(waiting))
      ensures outcome.Finished? ==> NoShorter(old(active), old(waiting), active, waiting)
    {
      hide Simulation.Boundary, Strict, Late, Rids, Work, HasRid, Once, FreeCount, Backend.Now;
      hide AfterTurns, AfterLeaving, NoShorter;
      var failed;
      failed, finished := DecodeAll(t, draws);
      if failed {
        return AdmissionFailure, finished;
      }
      ghost var a := active;
      BoundaryRids();
      SameOnce(old(active), old(waiting), active, waiting);
      var ok := FinishAll(finished);
      if !ok {
        GoneWaits(a, waiting, old(active), old(waiting), finished);
        return KeyError, finished;
      }
      StrictAfter(a, active, waiting, finished);
      FewerShorter(old(active), old(waiting), a, waiting, active);
      outcome := Finished;
    }

    /** Work left in the lists and in the requests from number i on. */
    ghost function Left(reqs: seq<Request>, i: nat): nat
      requires i <= |reqs|
      reads this
    {
      Work(active) + Work(waiting) + Work(FreshAll(reqs[i..]))
    }

    /** The lists and those gone are the requests reached. */
    ghost predicate Accounted(reqs: seq<Request>, i: nat, out: multiset<int>)
      requires i <= |reqs|
      reads this
    {
      Rids(active) + Rids(waiting) + out == Rids(FreshAll(reqs[..i]))
    }

    /** The admission phase of one step: preempted sequences first, then new arrivals. */
    method AdmitAll(reqs: seq<Request>, i0: nat, t: nat, ghost out: multiset<int>) returns (i: nat, dropped: seq<int>)
      requires Boundary() && Strict(active) && Strict(waiting) && RequestsOk(cfg, reqs)
      requires i0 <= |reqs| && Accounted(reqs, i0, out)
      modifies this`active, this`waiting, this`cache, this`fragFailures, alloc.Repr()
      ensures Boundary() && Strict(active) && Strict(waiting) && i0 <= i <= |reqs|
      ensures Accounted(reqs, i, out + multiset(dropped)) && Left(reqs, i) <= old(Left(reqs, i0))
      ensures active == [] ==> waiting == [] && (i == |reqs| || reqs[i].arrival > t)
      ensures active == [] && i > i0 ==> Left(reqs, i) < old(Left(reqs, i0))
      ensures (waiting != [] ==> i == i0) && forall k | i0 <= k < i :: reqs[k].arrival <= t
      ensures |active| <= Max(|old(active)|, cfg.maxBatch)
      ensures !cfg.spanned ==>
        (Counts(), i, dropped) == AfterAdmission(cfg, alloc.NumBlocks(), old(Counts()), reqs, i0, t)
      ensures Relisted(old(active), old(waiting), active, waiting, reqs, i0, i)
      ensures Misfits(reqs, dropped)
    {
      hide Simulation.Boundary, Strict, Rids, Work, FreshAll, Once, RequestOk, FreeCount;
      hide Backend.Now, AfterQueue, AfterArrivals;
      hide NoShorter, Relisted, Misfit, Newcomers, Tail, DistinctRequests;
      hide Simulation.Accounted;
      QueueEmpty();
      AccountedIs(reqs, i0, out);
      AtMostOnceAll(reqs, i0, active, waiting, out);
      var blocked;
      i := i0;
      blocked, dropped := AdmitWaiting();
      ghost var a := active;
      NoNewcomers(active, reqs, i0);
      DrawnOut(Rids(a), Rids(waiting), multiset(dropped), old(Rids(active)), old(Rids(waiting)), out,
          Rids(FreshAll(reqs[..i0])));
      if !blocked {
        var gone;
        i, gone := AdmitArrivals(reqs, i0, t, out + multiset(dropped));
        GoneToo(out, dropped, gone);
        dropped := dropped + gone;
      }
      AccountedIs(reqs, i, out + multiset(dropped));
      ArrivedListed(old(active), old(waiting), a, active, waiting, reqs, i0, i);
    }

    lemma AccountedIs(reqs: seq<Request>, i: nat, out: multiset<int>)
      requires i <= |reqs|
      ensures Accounted(reqs, i, out) <==> Rids(active) + Rids(waiting) + out == Rids(FreshAll(reqs[..i]))
    {
    }

    lemma QueueEmpty()
      requires Boundary()
      ensures cfg.spanned ==> waiting == []
    {
    }

    /** What holds at the head of the loop. */
    ghost predicate AtHead(reqs: seq<Request>, i: nat, ended: seq<int>, dropped: seq<int>)
      requires i <= |reqs|
      reads this, alloc.Repr()
    {
      Boundary() && Strict(active) && Strict(waiting) && Accounted(reqs, i, multiset(ended) + multiset(dropped))
    }

    /** The loop on counts has come to this point, and log is its history. */
    ghost predicate Tracked(reqs: seq<Request>, draws: Draws, q0: Sched, i: nat, t: nat, ended: seq<int>,
                            dropped: seq<int>, log: seq<Sched>)
      requires i <= |reqs|
      reads this, alloc.Repr()
    {
      && (!cfg.spanned ==>
            Looped(cfg, alloc.NumBlocks(), reqs, draws, q0, |log|) == Going(Counts(), i, t, ended, dropped))
      && (!cfg.spanned ==> Logged(cfg, alloc.NumBlocks(), reqs, draws, q0, log))
      && Misfits(reqs, dropped) && Grows(log + [Counts()]) && ListedBefore(log + [Counts()], reqs, i)
    }

    /** How the run ended, on counts and in its history. */
    ghost predicate Ended(reqs: seq<Request>, draws: Draws, q0: Sched, outcome: Outcome, ended: seq<int>,
                          dropped: seq<int>, log: seq<Sched>)
      reads alloc.Repr()
    {
      && (outcome.AdmissionFailure? ==> cfg.oracle && !cfg.spanned && cfg.spec.Some? && cfg.spec.value.copyback)
      && (outcome.KeyError? ==> !cfg.oracle)
      && (!cfg.spanned ==> Looped(cfg, alloc.NumBlocks(), reqs, draws, q0, |log|) == Over(outcome, ended, dropped))
      && (!cfg.spanned ==> Logged(cfg, alloc.NumBlocks(), reqs, draws, q0, log))
      && Misfits(reqs, dropped) && Grows(log)
    }

    /** One round of the loop: admission, then a step, or time passing until the next arrival. */
    method Round(reqs: seq<Request>, draws: Draws, i0: nat, t0: nat, completed0: nat, dropped0: seq<int>,
                 ghost q0: Sched, ghost ended0: seq<int>, ghost log0: seq<Sched>)
      returns (over: bool, outcome: Outcome, i: nat, t: nat, completed: nat, dropped: seq<int>,
               ghost ended: seq<int>, ghost log: seq<Sched>)
      requires RequestsOk(cfg, reqs) && i0 <= |reqs| && (i0 < |reqs| || active != [] || waiting != [])
      requires AtHead(reqs, i0, ended0, dropped0) && Tracked(reqs, draws, q0, i0, t0, ended0, dropped0, log0)
      requires completed0 == |ended0|
      modifies this`active, this`waiting, this`cache, this`fragFailures, this`preemptions, this`selfPreemptions
      modifies this`specStalls, this`copiedTokens, alloc.Repr()
      ensures i0 <= i <= |reqs| && completed == |ended|
      ensures !over || outcome.Finished? ==> AtHead(reqs, i, ended, dropped)
      ensures !over ==> outcome.Finished? && Tracked(reqs, draws, q0, i, t, ended, dropped, log)
      ensures !over ==> (|| Left(reqs, i) < old(Left(reqs, i0))
                         || (Left(reqs, i) == old(Left(reqs, i0)) && Wait(reqs, i, t) < Wait(reqs, i0, t0)))
      ensures over ==> Ended(reqs, draws, q0, outcome, ended, dropped, log)
      ensures over && outcome.Finished? ==> i == |reqs| && active == [] && waiting == []
    {
      hide Simulation.Boundary, Strict, Rids, Work, FreshAll, Once, RequestOk, FreeCount, Backend.Now;
      hide Looped, Iterate, AfterAdmission, AfterStep, Logged, Grows, ListedBefore, Relisted, NoShorter, Older, Misfit;
      ghost var q, blocks := Counts(), alloc.NumBlocks();
      completed, dropped, ended, log, t := completed0, dropped0, ended0, log0 + [q], t0;
      var gone;
      i, gone := AdmitAll(reqs, i0, t, multiset(ended) + multiset(dropped));
      MoreDropped(ended, dropped, gone);
      ghost var m := Counts();
      AtMostOnceAll(reqs, i, active, waiting, multiset(ended) + multiset(dropped + gone));
      if !cfg.spanned { Admission(cfg, blocks, reqs, draws, q0, log0, q, i0, t, ended, dropped, m, i, gone); }
      dropped := dropped + gone;
      outcome, over := Finished, false;
      if active == [] {
        over := i == |reqs|;
        if !over {
          t := Max(t + 1, reqs[i].arrival);
          SameShorter(active, waiting);
          HistoryNext(log0, q, reqs, i0, i, m, m);
        }
        return;
      }
      var finished;
      outcome, finished := Step(t, draws);
      if !outcome.Finished? {
        over := true;
        return;
      }
      MoreEnded(ended, dropped, finished);
      ended, completed, t := ended + finished, completed + |finished|, t + 1;
      AtMostOnceAll(reqs, i, active, waiting, multiset(ended) + multiset(dropped));
      HistoryNext(log0, q, reqs, i0, i, m, Counts());
    }

    /** simulate: every request ends exactly once, completed or dropped, the pool comes back
        whole, and no sequence ever has fewer tokens than before. Over a shared pool the run is
        the loop on counts, round by round: who is admitted, preempted, dropped or finished, and
        which exception ends it if any. Oracle admission raises nothing except by copy-back. */
    method Run(reqs: seq<Request>, draws: Draws)
      returns (outcome: Outcome, completed: nat, dropped: seq<int>, ghost ended: seq<int>, ghost log: seq<Sched>)
      requires Boundary() && active == [] && waiting == [] && RequestsOk(cfg, reqs)
      modifies this, alloc.Repr()
      ensures outcome.Finished? ==> multiset(ended) + multiset(dropped) == Rids(FreshAll(reqs)) && completed == |ended|
      ensures outcome.Finished? ==> alloc.Now().tables == map[] && FreeCount(alloc.Now()) == alloc.Now().n
      ensures outcome.AdmissionFailure? ==> cfg.oracle && !cfg.spanned && cfg.spec.Some? && cfg.spec.value.copyback
      ensures outcome.KeyError? ==> !cfg.oracle
      ensures !cfg.spanned ==>
        Looped(cfg, alloc.NumBlocks(), reqs, draws, old(Counts()), |log|) == Over(outcome, ended, dropped)
      ensures !cfg.spanned ==> Logged(cfg, alloc.NumBlocks(), reqs, draws, old(Counts()), log)
      ensures cfg.spanned ==> forall d | d in dropped :: Misfit(cfg, alloc.NumBlocks(), reqs, d)
      ensures Grows(log)
    {
      hide Simulation.Boundary, Strict, Rids, Work, FreshAll, Once, RequestOk, FreeCount, Backend.Now;
      hide Looped, Iterate, Logged, Grows, ListedBefore, Misfit;
      var i, t := 0, 0;
      completed, dropped, ended, log := 0, [], [], [];
      ghost var q0 := Counts();
      NothingYet(reqs);
      NothingLogged(cfg, alloc.NumBlocks(), reqs, draws, q0);
      var over := false;
      outcome := Finished;
      while !over && (i < |reqs| || active != [] || waiting != [])
        invariant i <= |reqs| && completed == |ended|
        invariant !over || outcome.Finished? ==> AtHead(reqs, i, ended, dropped)
        invariant !over ==> outcome.Finished? && Tracked(reqs, draws, q0, i, t, ended, dropped, log)
        invariant over ==> Ended(reqs, draws, q0, outcome, ended, dropped, log)
        invariant over && outcome.Finished? ==> i == |reqs| && active == [] && waiting == []
        decreases !over, Left(reqs, i), Wait(reqs, i, t)
      {
        over, outcome, i, t, completed, dropped, ended, log :=
          Round(reqs, draws, i, t, completed, dropped, q0, ended, log);
      }
      if !outcome.Finished? {
        return;
      }
      if !over {
        if !cfg.spanned { LoopEnds(cfg, alloc.NumBlocks(), reqs, draws, q0, log, Counts(), i, t, ended, dropped); }
        log := log + [Counts()];
      }
      assert reqs[..|reqs|] == reqs;
      AllEnded(active, waiting);
      Finish();
    }
  }
}
