// The frame state PimAware really keeps (plans, affinity) against the simple rule: both
// plan modes hand out the rule's blocks.
module Affinity {
  import opened Counting
  import opened Pool
  import opened FramePlan

  /** The fields behind frame choice. */
  datatype PimState = PimState(frames: Frames, plans: map<Key, seq<nat>>, affinity: map<Key, nat>)

  /** The plan of key, empty when there is none. */
  function PlanOf(p: PimState, key: Key): seq<nat> {
    if key in p.plans then p.plans[key] else []
  }

  /** What the state remembers as each key's current frame. */
  function CurOf(p: PimState): map<Key, nat> {
    p.affinity + map k | k in p.plans && p.plans[k] != [] :: p.plans[k][0]
  }

  /** Between operations a plan is down to its last frame and replaces affinity. */
  ghost predicate Steady(p: PimState) {
    && (forall k | k in p.plans :: |p.plans[k]| == 1 && k !in p.affinity && p.plans[k][0] < |p.frames|)
    && (forall k | k in p.affinity :: p.affinity[k] < |p.frames|)
  }

  lemma FramesOnly(p: PimState, frames: Frames)
    requires |frames| == |p.frames|
    ensures CurOf(p.(frames := frames)) == CurOf(p)
    ensures Steady(p.(frames := frames)) <==> Steady(p)
  {
  }

  /** Frame choice of _pick_frame, with its effect on plans and affinity. */
  function PickStep(p: PimState, key: Key): (r: (PimState, nat))
    requires SomeRoom(p.frames)
    ensures HasRoom(p.frames, r.1) && r.0.frames == p.frames
  {
    var q := Advance(p.frames, PlanOf(p, key));
    if q != [] then (AdvanceRoom(p.frames, PlanOf(p, key)); (p.(plans := p.plans[key := q]), q[0]))
    else
      var f := Pick(p.frames, p.affinity, key);
      var rest := if PlanOf(p, key) == [] then p.plans else p.plans - {key};
      (p.(plans := rest, affinity := p.affinity[key := f]), f)
  }

  lemma AdvanceRoom(frames: Frames, P: seq<nat>)
    requires Advance(frames, P) != []
    ensures HasRoom(frames, Advance(frames, P)[0])
  {
  }

  /** _alloc_one: the chosen frame, and its lowest offset. */
  function TakeStep(p: PimState, key: Key): (PimState, nat, nat)
    requires SomeRoom(p.frames)
  {
    var (q, f) := PickStep(p, key);
    var o := MinOf(p.frames[f]);
    (q.(frames := p.frames[f := p.frames[f] - {o}]), f, o)
  }

  lemma SteadyPick(p: PimState, key: Key)
    requires Steady(p) && SomeRoom(p.frames)
    ensures PickStep(p, key).1 == Pick(p.frames, CurOf(p), key)
  {
    var P := PlanOf(p, key);
    assert Advance(p.frames, []) == [];
    if key in p.plans {
      assert P[1..] == [] && CurOf(p)[key] == P[0];
      assert Advance(p.frames, P) == if HasRoom(p.frames, P[0]) then P else [];
    } else if key in p.affinity {
      assert CurOf(p)[key] == p.affinity[key];
    } else {
      assert key !in CurOf(p);
    }
  }

  /** A plan with room is followed. */
  lemma CurPlan(p: PimState, key: Key)
    requires Steady(p) && SomeRoom(p.frames) && Advance(p.frames, PlanOf(p, key)) != []
    ensures PickStep(p, key).0 == p && CurOf(p)[key := PickStep(p, key).1] == CurOf(p)
  {
    var P := PlanOf(p, key);
    assert P[1..] == [] && Advance(p.frames, []) == [];
    assert p.plans[key := P] == p.plans;
    assert CurOf(p)[key] == P[0];
  }

  /** A used-up plan is dropped, and the chosen frame becomes the affinity. */
  lemma CurAffinity(p: PimState, key: Key)
    requires Steady(p) && SomeRoom(p.frames) && Advance(p.frames, PlanOf(p, key)) == []
    ensures CurOf(PickStep(p, key).0) == CurOf(p)[key := PickStep(p, key).1]
    ensures Steady(PickStep(p, key).0)
  {
    hide Advance, Pick;
    assert PlanOf(p, key) == [] ==> p.plans - {key} == p.plans;
  }

  lemma SteadyCur(p: PimState, key: Key)
    requires Steady(p) && SomeRoom(p.frames)
    ensures CurOf(PickStep(p, key).0) == CurOf(p)[key := PickStep(p, key).1]
    ensures Steady(PickStep(p, key).0)
  {
    hide Steady, CurOf, PickStep, Advance;
    if Advance(p.frames, PlanOf(p, key)) != [] { CurPlan(p, key); } else { CurAffinity(p, key); }
  }

  /** In a steady state one allocation is the rule's, and the state stays steady. */
  lemma SteadyStep(p: PimState, G: pos, key: Key)
    requires Steady(p) && SomeRoom(p.frames)
    ensures var (q, f, o) := TakeStep(p, key);
      && Take(Framed(G, p.frames, CurOf(p)), key) == (Framed(G, q.frames, CurOf(q)), BlockId(G, f, o))
      && Steady(q)
  {
    SteadyPick(p, key);
    SteadyCur(p, key);
  }

  /** State of an admission of key with m blocks still to place, against the rule's pool. */
  ghost predicate Admitting(p: PimState, cur: map<Key, nat>, key: Key, m: nat, started: bool) {
    && Steady(p.(plans := p.plans - {key})) && key !in p.affinity && key in p.plans
    && Walk(p.frames, p.plans[key], m, started)
    && cur - {key} == CurOf(p.(plans := p.plans - {key}))
    && if started then key in cur && cur[key] == p.plans[key][0] else key !in cur
  }

  lemma AdmittingStep(p: PimState, G: pos, cur: map<Key, nat>, key: Key, m: nat, started: bool)
    requires Admitting(p, cur, key, m, started) && m > 0
    ensures SomeRoom(p.frames)
    ensures var (q, f, o) := TakeStep(p, key);
      && Take(Framed(G, p.frames, cur), key) == (Framed(G, q.frames, cur[key := f]), BlockId(G, f, o))
      && Admitting(q, cur[key := f], key, m - 1, true)
  {
    var P := p.plans[key];
    WalkAdvance(p.frames, P, m, started);
    WalkPick(p.frames, P, m, started, cur, key);
    var Q := Advance(p.frames, P);
    var (q, f, o) := TakeStep(p, key);
    if p.frames[P[0]] == {} {
      WalkDrop(p.frames, P, m);
      WalkTake(p.frames, Q, m, false, o);
    } else {
      WalkTake(p.frames, Q, m, started, o);
    }
    assert q.plans - {key} == p.plans - {key};
    assert cur[key := f] - {key} == cur - {key};
  }

  lemma AdmittingStart(p: PimState, key: Key, P: seq<nat>, n: nat)
    requires Steady(p) && key !in CurOf(p) && n > 0 && PlanFor(p.frames, P, n)
    ensures Admitting(p.(plans := p.plans[key := P]), CurOf(p), key, n, false)
  {
    WalkStart(p.frames, P, n);
    assert key !in p.plans;
    assert p.plans[key := P] - {key} == p.plans;
    assert CurOf(p) - {key} == CurOf(p);
  }

  /** When the last block is placed the state is steady and remembers the rule's frames. */
  lemma AdmittingEnd(p: PimState, cur: map<Key, nat>, key: Key)
    requires Admitting(p, cur, key, 0, true)
    ensures Steady(p) && CurOf(p) == cur
  {
    var r := p.(plans := p.plans - {key});
    assert p.plans == r.plans[key := p.plans[key]];
    assert cur == (cur - {key})[key := p.plans[key][0]];
    forall k
      ensures k in CurOf(p) <==> k in cur
      ensures k in cur ==> CurOf(p)[k] == cur[k]
    {
      if k != key {
        assert k in CurOf(p) <==> k in CurOf(r);
        assert k in cur <==> k in cur - {key};
      }
    }
  }
}
