// Measuring a running sequence: its table covers its length, so the sweep of its KV cache
// reads pairwise distinct bursts of the pool.
module Measure {
  import opened Counting
  import opened AllocatorView
  import opened Backend
  import opened SimState
  import opened SimGrowth
  import opened Simulator
  import opened Sweep

  /** At every step boundary a running sequence has exactly the blocks its length needs. */
  lemma Coverage(sim: Simulation, j: nat)
    requires sim.Ok() && j < |sim.active|
    ensures var st, tables := sim.active[j], sim.alloc.Now().tables;
      st.rid in tables && |tables[st.rid]| == Ceil(st.length, sim.cfg.bt) && Distinct(tables[st.rid])
  {
    hide Backend.Valid, Backend.Now, SeqOk;
    SeqHasTable(sim.cfg, sim.cache, sim.alloc.Now(), sim.active[j]);
  }

  /** measure_seq with bpt bursts a token: the addresses are in the pool and distinct. */
  lemma SweepReadsPool(sim: Simulation, j: nat, bpt: pos, u: pos, n: nat)
    requires sim.Ok() && j < |sim.active| && u == sim.cfg.bt * bpt && n == sim.active[j].length * bpt
    ensures var rid, s := sim.active[j].rid, sim.alloc.Now();
      && rid in s.tables && n <= |s.tables[rid]| * u
      && Distinct(Addresses(s.tables[rid], u, n))
      && forall i | 0 <= i < n :: Addresses(s.tables[rid], u, n)[i] < s.n * u
  {
    hide Backend.Valid, Backend.Now, Addresses, Simulation.Ok;
    Coverage(sim, j);
    var rid, s := sim.active[j].rid, sim.alloc.Now();
    var t := s.tables[rid];
    EnoughBursts(sim.active[j].length, sim.cfg.bt, bpt, |t|, u, n);
    InPool(sim, t, rid);
    AddressesDistinct(t, u, n, s.n);
  }

  lemma EnoughBursts(len: nat, bt: pos, bpt: pos, blocks: nat, u: nat, n: nat)
    requires blocks == Ceil(len, bt) && u == bt * bpt && n == len * bpt
    ensures n <= blocks * u
  {
    MulMono(len, blocks * bt, bpt);
  }

  lemma InPool(sim: Simulation, t: seq<nat>, rid: int)
    requires sim.Ok() && rid in sim.alloc.Now().tables && t == sim.alloc.Now().tables[rid]
    ensures forall b | b in t :: b < sim.alloc.Now().n
  {
    hide Backend.Valid, Backend.Now, Good;
    forall b | b in t
      ensures b < sim.alloc.Now().n
    {
      UsedOnce(sim.alloc.Now(), rid, b);
      sim.alloc.UsedInPool(b);
    }
  }
}
