// Free-block pools and the placement rule: a LIFO stack, or frames of G blocks from which
// a key takes the lowest offset of its current frame, else of the most-free frame.
module Pool {
  import opened Counting

  /** Affinity domains: a sequence, or the shared scratch domain of speculative branches. */
  datatype Key = Seq(id: int) | Scratch

  datatype Pool =
    | Stack(free: seq<nat>)
    | Framed(G: pos, frames: seq<set<nat>>, cur: map<Key, nat>)

  /** The free block ids. */
  ghost function Free(p: Pool): set<nat> {
    match p
    case Stack(free) => Elems(free)
    case Framed(G, frames, _) => set f, o | 0 <= f < |frames| && o in frames[f] :: f * G + o
  }

  ghost predicate FramesOk(G: pos, frames: seq<set<nat>>, n: nat) {
    && |frames| * G == n
    && forall f, o | 0 <= f < |frames| && o in frames[f] :: o < G
  }

  ghost predicate PoolOk(p: Pool, n: nat) {
    match p
    case Stack(free) => Distinct(free) && forall i | 0 <= i < |free| :: free[i] < n
    case Framed(G, frames, cur) => FramesOk(G, frames, n) && forall k | k in cur :: cur[k] < |frames|
  }

  // ---- the rule ----------------------------------------------------------

  lemma {:induction false} MinExists(s: set<nat>)
    requires s != {}
    ensures exists m :: m in s && forall x | x in s :: m <= x
  {
    var y :| y in s;
    if s - {y} == {} {
      assert s == {y};
    } else {
      MinExists(s - {y});
      var m :| m in s - {y} && forall x | x in s - {y} :: m <= x;
      var k := Min(m, y);
      assert forall x | x in s :: x == y || x in s - {y};
      assert k in s && forall x | x in s :: k <= x;
    }
  }

  /** heappop on a non-empty heap of offsets. */
  function MinOf(s: set<nat>): (m: nat)
    requires s != {}
    ensures m in s && forall x | x in s :: m <= x
  {
    MinExists(s);
    var m :| m in s && forall x | x in s :: m <= x;
    m
  }

  /** The entry heappop would return. */
  function MinEntry(m: multiset<nat>): (f: nat)
    requires m != multiset{}
    ensures f in m && forall e | e in m :: f <= e
  {
    var s := set e | e in m;
    assert s != {} by {
      var e :| e in m;
      assert e in s;
    }
    assert forall e: nat :: e in m <==> e in s;
    MinOf(s)
  }

  /** The most-free frame, lowest index on ties. */
  function Best(frames: seq<set<nat>>): (b: nat)
    requires frames != []
    ensures b < |frames|
    ensures forall f | 0 <= f < |frames| :: |frames[f]| <= |frames[b]|
    ensures forall f | 0 <= f < b :: |frames[f]| < |frames[b]|
  {
    if |frames| == 1 then 0 else
    var b := Best(frames[..|frames| - 1]);
    if |frames[|frames| - 1]| > |frames[b]| then |frames| - 1 else b
  }

  predicate HasRoom(frames: seq<set<nat>>, f: nat) { f < |frames| && frames[f] != {} }

  predicate SomeRoom(frames: seq<set<nat>>) { exists f | 0 <= f < |frames| :: frames[f] != {} }

  /** Current frame if it has room, else the most-free frame. */
  function Pick(frames: seq<set<nat>>, cur: map<Key, nat>, key: Key): (f: nat)
    requires SomeRoom(frames)
    ensures HasRoom(frames, f)
  {
    if key in cur && HasRoom(frames, cur[key]) then cur[key] else
    var b := Best(frames);
    assert frames[b] != {} by {
      var f :| 0 <= f < |frames| && frames[f] != {};
      assert |frames[f]| > 0;
    }
    b
  }

  predicate Empty(p: Pool) {
    match p
    case Stack(free) => free == []
    case Framed(_, frames, _) => !SomeRoom(frames)
  }

  function BlockId(G: pos, f: nat, o: nat): nat { f * G + o }

  /** Hand out one block to key. */
  function Take(p: Pool, key: Key): (r: (Pool, nat))
    requires !Empty(p)
  {
    match p
    case Stack(free) => (Stack(free[..|free| - 1]), free[|free| - 1])
    case Framed(G, frames, cur) =>
      var f := Pick(frames, cur, key);
      var o := MinOf(frames[f]);
      (Framed(G, frames[f := frames[f] - {o}], cur[key := f]), BlockId(G, f, o))
  }

  /** Return block b to where it came from. */
  function Give(p: Pool, b: nat): Pool {
    match p
    case Stack(free) => Stack(free + [b])
    case Framed(G, frames, cur) =>
      if b / G < |frames| then Framed(G, frames[b / G := frames[b / G] + {b % G}], cur) else p
  }

  /** The current frame of each key, none for a stack. */
  function Current(p: Pool): map<Key, nat> {
    if p.Framed? then p.cur else map[]
  }

  /** Drop what the pool remembers about key. */
  function Forget(p: Pool, key: Key): Pool {
    match p
    case Stack(_) => p
    case Framed(G, frames, cur) => Framed(G, frames, cur - {key})
  }

  // ---- what the rule keeps -----------------------------------------------

  /** A block id is free exactly when its offset is free in its frame. */
  lemma FreeMember(G: pos, frames: seq<set<nat>>, cur: map<Key, nat>, n: nat, f: nat, o: nat)
    requires FramesOk(G, frames, n) && f < |frames| && o < G
    ensures BlockId(G, f, o) in Free(Framed(G, frames, cur)) <==> o in frames[f]
    ensures BlockId(G, f, o) < n
  {
    IdBelow(G, |frames|, f, o);
    if BlockId(G, f, o) in Free(Framed(G, frames, cur)) {
      var f', o' :| 0 <= f' < |frames| && o' in frames[f'] && f' * G + o' == BlockId(G, f, o);
      SameId(G, f, o, f', o');
    }
  }

  lemma IdBelow(G: pos, k: nat, f: nat, o: nat)
    requires f < k && o < G
    ensures BlockId(G, f, o) < k * G
  {
    MulMono(f + 1, k, G);
    MulDistributes(f, 1, G);
  }

  lemma SameId(G: pos, f: nat, o: nat, f': nat, o': nat)
    requires o < G && o' < G && f' * G + o' == BlockId(G, f, o)
    ensures f' == f && o' == o
  {
    DivUnique(BlockId(G, f, o), G, f, o);
    DivUnique(BlockId(G, f, o), G, f', o');
  }

  /** Every block id splits into a frame and an offset. */
  lemma BlockParts(G: pos, n: nat, k: nat, b: nat)
    requires k * G == n && b < n
    ensures 0 <= b / G < k && b == BlockId(G, b / G, b % G)
  {
    DivNat(b, G);
    if b / G >= k { MulMono(k, b / G, G); }
  }

  lemma FramedBelow(G: pos, frames: seq<set<nat>>, cur: map<Key, nat>, n: nat)
    requires FramesOk(G, frames, n)
    ensures forall b | b in Free(Framed(G, frames, cur)) :: b < n
  {
    forall f, o | 0 <= f < |frames| && o in frames[f]
      ensures f * G + o < n
    {
      FreeMember(G, frames, cur, n, f, o);
    }
  }

  lemma FreeBelow(p: Pool, n: nat)
    requires PoolOk(p, n)
    ensures forall b | b in Free(p) :: b < n
  {
    if p.Framed? {
      FramedBelow(p.G, p.frames, p.cur, n);
    }
  }

  lemma EmptyMeaning(p: Pool)
    ensures Empty(p) <==> Free(p) == {}
  {
    match p
    case Stack(free) =>
      if free != [] { assert free[0] in Free(p); }
    case Framed(G, frames, _) =>
      if SomeRoom(frames) {
        var f :| 0 <= f < |frames| && frames[f] != {};
        var o :| o in frames[f];
        assert f * G + o in Free(p);
      }
  }

  /** Frame f changes to s: exactly the offsets of f are affected. */
  lemma FrameUpdate(G: pos, frames: seq<set<nat>>, cur: map<Key, nat>, cur': map<Key, nat>, n: nat, f: nat, s: set<nat>)
    requires FramesOk(G, frames, n) && f < |frames| && forall o | o in s :: o < G
    ensures FramesOk(G, frames[f := s], n)
    ensures forall b | b < n :: b in Free(Framed(G, frames[f := s], cur')) <==>
              if b / G == f then b % G in s else b in Free(Framed(G, frames, cur))
  {
    var frames' := frames[f := s];
    forall b: nat | b < n
      ensures b in Free(Framed(G, frames', cur'))
          <==> if b / G == f then b % G in s else b in Free(Framed(G, frames, cur))
    {
      BlockParts(G, n, |frames|, b);
      FreeMember(G, frames, cur, n, b / G, b % G);
      FreeMember(G, frames', cur', n, b / G, b % G);
    }
  }

  /** Taking hands out a free block and removes exactly it. */
  lemma TakeFree(p: Pool, n: nat, key: Key)
    requires PoolOk(p, n) && !Empty(p)
    ensures var (p', b) := Take(p, key);
      && PoolOk(p', n) && b in Free(p) && b < n && Free(p') == Free(p) - {b}
  {
    var (p', b) := Take(p, key);
    match p
    case Stack(free) =>
      assert free == free[..|free| - 1] + [b];
      ElemsAppend(free[..|free| - 1], b);
      assert b !in free[..|free| - 1];
    case Framed(G, frames, cur) =>
      TakeFramed(G, frames, cur, n, key);
  }

  /** The stack is last in, first out. */
  lemma LastGivenFirst(free: seq<nat>, b: nat, key: Key)
    ensures Give(Stack(free), b) == Stack(free + [b]) && Take(Give(Stack(free), b), key) == (Stack(free), b)
  {
    assert (free + [b])[..|free|] == free;
  }

  /** What k blocks taken from a pool leave, and the blocks in the order they are handed out. */
  function TakeMany(p: Pool, key: Key, k: nat): (Pool, seq<nat>)
    decreases k
  {
    if k == 0 || Empty(p) then (p, []) else
    var (q, b) := Take(p, key);
    var (r, bs) := TakeMany(q, key, k - 1);
    (r, [b] + bs)
  }

  /** A stack hands out its blocks from the last to the first. */
  lemma {:induction false} StackDescends(free: seq<nat>, key: Key, k: nat)
    requires k <= |free|
    ensures var (q, bs) := TakeMany(Stack(free), key, k);
      && q == Stack(free[..|free| - k]) && |bs| == k
      && forall i | 0 <= i < k :: bs[i] == free[|free| - 1 - i]
  {
    if k > 0 {
      var p := free[..|free| - 1];
      StackDescends(p, key, k - 1);
      assert p[..|p| - (k - 1)] == free[..|free| - k];
    }
  }

  lemma TakeFramed(G: pos, frames: seq<set<nat>>, cur: map<Key, nat>, n: nat, key: Key)
    requires PoolOk(Framed(G, frames, cur), n) && SomeRoom(frames)
    ensures var f := Pick(frames, cur, key); var o := MinOf(frames[f]); var b := BlockId(G, f, o);
      var p' := Framed(G, frames[f := frames[f] - {o}], cur[key := f]);
      PoolOk(p', n) && b in Free(Framed(G, frames, cur)) && b < n && Free(p') == Free(Framed(G, frames, cur)) - {b}
  {
    var f := Pick(frames, cur, key);
    var o := MinOf(frames[f]);
    hide Free, Best, MinOf;
    FreeMember(G, frames, cur, n, f, o);
    FrameUpdate(G, frames, cur, cur[key := f], n, f, frames[f] - {o});
    FramedRemoves(G, frames, cur, cur[key := f], n, f, o);
  }

  lemma FramedRemoves(G: pos, frames: seq<set<nat>>, cur: map<Key, nat>, cur': map<Key, nat>, n: nat, f: nat, o: nat)
    requires FramesOk(G, frames, n) && f < |frames| && o in frames[f]
    ensures Free(Framed(G, frames[f := frames[f] - {o}], cur')) == Free(Framed(G, frames, cur)) - {BlockId(G, f, o)}
  {
    var p, p' := Framed(G, frames, cur), Framed(G, frames[f := frames[f] - {o}], cur');
    FrameUpdate(G, frames, cur, cur', n, f, frames[f] - {o});
    FramedBelow(G, frames, cur, n);
    FramedBelow(G, frames[f := frames[f] - {o}], cur', n);
    forall b: nat | b < n
      ensures b in Free(p') <==> b in Free(p) - {BlockId(G, f, o)}
    {
      BlockParts(G, n, |frames|, b);
      FreeMember(G, frames, cur, n, b / G, b % G);
      DivUnique(BlockId(G, f, o), G, f, o);
    }
  }

  /** Giving back a block that is not free adds exactly it. */
  lemma GiveFree(p: Pool, n: nat, b: nat)
    requires PoolOk(p, n) && b < n && b !in Free(p)
    ensures PoolOk(Give(p, b), n) && Free(Give(p, b)) == Free(p) + {b}
  {
    match p
    case Stack(free) =>
      ElemsAppend(free, b);
    case Framed(G, frames, cur) =>
      BlockParts(G, n, |frames|, b);
      var f, o := b / G, b % G;
      FrameUpdate(G, frames, cur, cur, n, f, frames[f] + {o});
      FreeBelow(p, n);
      FreeBelow(Give(p, b), n);
      forall x: nat | x < n
        ensures x in Free(Give(p, b)) <==> x in Free(p) + {b}
      {
        BlockParts(G, n, |frames|, x);
        FreeMember(G, frames, cur, n, x / G, x % G);
      }
  }

  lemma ForgetFree(p: Pool, n: nat, key: Key)
    requires PoolOk(p, n)
    ensures PoolOk(Forget(p, key), n) && Free(Forget(p, key)) == Free(p)
  {
  }
}
