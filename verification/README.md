# Verification of the PIM-aware KV-cache simulator

A Dafny model of the simulator of paged KV-cache allocation for an LLM server on
processing-in-memory DRAM, with proofs about it. The chain that is modelled runs from a
serving loop (`pimkv/sim.py`) over block allocators (`pimkv/allocator.py`) and an address map
(`pimkv/addrmap.py`, sizes from `pimkv/config.py` and `pimkv/run.py`) to the all-bank command
metrics (`pimkv/pimmodel.py`).

`dafny verify dfyconfig.toml` checks the whole project.

## How the model is laid out

- **Command coalescing.** `Commands`, `Optimality`, `Windowed`, `InOrder`, `Stream`,
  `StreamOrder`, `Metrics`.
  The loops of the source are methods proved against functions on sequences of bursts; the
  optimality, agreement and sandwich results are lemmas about those functions.
- **Address map and geometry.** `Bits`, `Geometry`, `AddrMap`, `Schemes`, `SchemeForms`,
  `Sweep`, `Sharding`, `Alignment`. Shifts, masks and ors are modelled on naturals, with lemmas that give their
  arithmetic meaning.
- **Shared-pool allocators.** `KVAllocator.Allocator` is one class for the base class and its two
  policies, chosen by a tag (`PagedFirstFit` or `PimAware`), with the fields of the source:
  tables, reference counts, free stack, per-frame free offsets, the heap of empty frames with its
  stale and duplicate entries, plans, affinity and counters. Every method is tied to a function on
  the abstract state in `Bookkeeping` and `Pool`; the pool function is the simple placement rule
  (current frame if it has room, else the most-free frame, lowest index on ties, lowest free offset
  in it), whatever the plan mode, so plans and the lazy heap are proved to refine it.
  `FramePlan`, `Affinity`, `Placement`, `StackOrder` and `Compaction` hold the lemmas.
  `CompactionRule` gives compaction as a function of the abstract state, so that `Trace` covers
  whole runs with it, and `CompactionOrder` its outcome in closed form.
- **Contiguous policy.** `Extents`, `Contiguous`, and the class `ContiguousOracle.Oracle`.
- **Serving loop.** `Simulator.Simulation` is `simulate` with its closures as methods. It works on
  a `Backend`, which is either allocator object, seen through `AllocatorView`: tables, scratch held
  by callers, and outstanding reservations. `SimState`, `SimSteps`, `SimGrowth`, `SimTally`,
  `SimRounds`, `SimLists`, `SimCounts` and `SimHistory` hold the scheduler's invariants and the
  lemmas that carry them across each effect.
- **The loop on counts.** `Schedule` is the same loop over a shared pool with no blocks in it, only
  the number of free ones, the two lists and the pinned prefixes. Every method of the simulation is
  proved to be its step, in results, failures and drops, so a run is decided by counts alone.
  `Outcomes` says when it admits, drops and raises, `Fairness` who is admitted, preempted and
  served before whom; `Endings` has the oracle policy's guarantee and
  two runs that raise.
- **Ends of the chain.** `Measure` ties the loop to the addresses a measurement reads, and
  `EndToEnd` ties an admission to the exact metric values.

Heaps are modelled as sets of offsets or multisets of entries with pop-min; numpy's `unique`,
`searchsorted` and `reduceat` as functions on sequences. `AdmissionFailure` is `None` where the
source catches it or returns it to the caller, and an outcome of the run where nothing catches it.
Draft acceptance and the winning branch are arbitrary inputs (`Draws`), as are the requests.

## Premises

- Requests have distinct non-negative ids, at least one output token, and requests that share a
  prefix id agree on its length, which is at most the prompt (`SimLists.RequestOk`). Prefix
  sharing and compaction are not combined: the prefix cache keeps copied lists
  (pimkv/sim.py:235-240) that compaction does not rewrite (pimkv/allocator.py:443-444).
- With compaction on, a block a caller holds is held once and is in no table (`HeldPrivate`,
  `CompactionRule.Private`), because compaction rewrites tables and not callers' lists
  (pimkv/allocator.py:411-415, 443-444). Every operation keeps this as long as no caller shares a
  block it holds, and the simulator's branches satisfy it.
- Callers do not re-admit a live id, fork onto an existing id, keep more of a branch than it has,
  or give back blocks they do not hold. The contiguous policy is asked for at least one block, on a
  non-empty pool; `Extents.EmptySpanBreaks` shows what a span of no blocks would do.
- The batch limit is positive; with none the loop of the source would not end.

## Where the source and its text differ

- `tests/test_pimmodel.py:203` asserts that the counted hits are never fewer than the stream's.
  `Stream.StreamCanHitMore` gives inputs for which they are; `Stream.HitDifference` gives the exact
  difference as losses minus gains, and `Stream.WindowModeAgrees` the two-sided bound.
- The class text of `PimAware` says compaction is not implemented; `compact` is, and is modelled.
- The representative column of a streamed command is described as the row's first burst; it is the
  first burst of the row's lowest bank, which is what the model has.
- In `vllm` admission a preemption victim may already be listed as finished, and the loop then
  raises a KeyError (pimkv/sim.py:287-292, 410-411, 429-430). `Outcomes.PreemptedWhenFinished` is
  such a run, two requests on four one-token blocks, and `Endings.KeyErrorRun` carries it out.
  `Simulator.Simulation.Step` has the exact condition: a step raises it if and only if a sequence
  at its final length has been put back on the queue. `Outcomes.CalmRaisesNothing` has one to check
  before the step, and oracle admission never raises it.
- With copy-back speculation the oracle gate does not cover the branches held during the append
  (pimkv/sim.py:333-344). `Outcomes.BranchTakesLast` is a run in which one branch takes the last of
  two blocks and `append_block` raises; `Endings.AdmissionFailureRun` carries it out.
  `Simulator.Simulation.SpecRound` has the exact condition, on the free blocks before the round.
  No other configuration raises it, and the room between rounds is kept here too.

## Model

| member | source | states |
|---|---|---|
| Commands.GroupsMeaning | pimkv/pimmodel.py:93-98 | one group per distinct row of the window, rows ascending, each group's count the largest number of its bursts in one bank |
| Optimality.NoFewer | pimkv/pimmodel.py:86-107 | any assignment of bursts to commands of one row and distinct banks uses at least as many commands as are counted |
| Optimality.WindowOptimal | pimkv/pimmodel.py:86-107 | the counted commands of a window are exactly the minimum: an assignment with that many exists and none has fewer |
| Optimality.Capacity | pimkv/pimmodel.py:154-155 | commands of at most one burst per bank hold at most banks times commands bursts |
| Windowed.CarryPresentMeaning | pimkv/pimmodel.py:101-103 | the binary search reports the carried row present exactly when some burst of the window has it |
| Windowed.CoalesceWindows | pimkv/pimmodel.py:86-107 | the window loop returns the commands, commands minus misses, and bursts of the whole stream |
| Windowed.MetricsInRange | pimkv/pimmodel.py:104-107 | 0 <= hits <= commands and bursts <= banks times commands, for any stream and window |
| Windowed.MissSandwich | pimkv/pimmodel.py:90-107 | distinct rows <= windowed misses <= maximal equal-row runs, for every stream and window size |
| InOrder.GreedyLegal | pimkv/pimmodel.py:117-127 | every in-order command is one row, no bank twice, at most the number of banks |
| InOrder.InOrderOptimal | pimkv/pimmodel.py:110-131 | no order-preserving cut into legal commands has fewer commands |
| InOrder.MissesAreRuns | pimkv/pimmodel.py:122-131 | for every legal cut, in-order commands minus hits are exactly the equal-row runs |
| InOrder.CoalesceInOrder | pimkv/pimmodel.py:110-131 | the in-order loop returns the greedy cut's commands and hits |
| InOrder.WindowedNearInOrder | pimkv/pimmodel.py:90-131 | the windowed command count exceeds the in-order one by at most the number of windows minus one |
| Stream.StreamInOrder | pimkv/pimmodel.py:195-209 | the emitted in-order stream is the heads of the greedy commands |
| StreamOrder.GreedyMaximal | pimkv/pimmodel.py:117-127 | an in-order command ends only where the next burst would repeat a bank, change the row or exceed the banks |
| StreamOrder.HeadsAre | pimkv/pimmodel.py:199-209 | the k-th in-order command is the row and column of the burst that opens the k-th piece |
| Stream.InOrderAgrees | pimkv/pimmodel.py:195-209 | in-order: as many stream commands as counted, and as many row hits |
| Stream.EmitEnds | pimkv/pimmodel.py:226-242 | in issue order the carried row comes first when present, and the last burst's row last unless the two conflict |
| Stream.StreamWindows | pimkv/pimmodel.py:213-246 | the windowed stream is each window's groups in issue order, each repeated its count |
| StreamOrder.GroupCols | pimkv/pimmodel.py:213-225 | the column of a group is that of the burst of its row with the lowest bank, the earliest of these |
| StreamOrder.EmitSorted | pimkv/pimmodel.py:226-242 | any two rows of a window are issued carried row first, last burst's row last unless carried, the others ascending |
| StreamOrder.WindowIssued | pimkv/pimmodel.py:213-245 | what a window issues, from its bursts alone: each row as often as its fullest bank needs, with its column, in issue order |
| StreamOrder.StreamSpelled | pimkv/pimmodel.py:211-246 | the stream is one such segment a window, each with the row the window before left open |
| StreamOrder.WindowSizes | pimkv/pimmodel.py:212-213 | every window but the last has exactly the window size in bursts |
| Stream.HitDifference | pimkv/pimmodel.py:226-246 | counted hits minus stream hits are exactly the hits lost minus the hits gained after conflicting windows |
| Stream.WindowModeAgrees | pimkv/pimmodel.py:174-246 | window mode: as many stream commands as counted, and hits differ, either way, by at most the conflicting non-final windows |
| Stream.StreamCanHitMore | tests/test_pimmodel.py:192-203 | for every a and b < c a stream with more row hits than are counted: the asserted lower bound fails |
| Metrics.CoalesceChannel | pimkv/pimmodel.py:76-107 | dispatch by mode, empty streams and unknown modes included |
| Metrics.CountsInRange | pimkv/pimmodel.py:104-131 | in either mode 0 <= hits <= commands and bursts <= banks times commands |
| Metrics.ChannelsMeaning | pimkv/pimmodel.py:146-147 | the channels visited are exactly those that have a burst, ascending |
| Metrics.SequenceMetrics | pimkv/pimmodel.py:144-157 | the aggregate counts of all channels, with M1 and M2 as their ratios |
| Metrics.MetricsAreRatios | pimkv/pimmodel.py:151-157 | every burst of the sweep is counted once, and M1 and M2 lie in [0, 1] |
| Metrics.ErrorMeaning | pimkv/pimmodel.py:79-90 | a ValueError exactly for a non-empty sweep with an unknown mode or a zero window |
| Bits.Pow2Recognised | pimkv/config.py:14-15 | the x and x-1 test accepts exactly the powers of two, and the bit length gives the exponent |
| Bits.MaskIsMod | pimkv/addrmap.py:103 | masking with 2^n - 1 is the remainder by 2^n |
| Bits.OrIsAdd | pimkv/addrmap.py:104 | or-ing a chunk above the bits already set adds it |
| Geometry.TotalBurstsMeaning | pimkv/config.py:50-79 | the pool is rows-per-bank frames of channels times banks times columns bursts |
| AddrMap.Split | pimkv/addrmap.py:92-109 | the map loop computes each field as the sum of its chunks |
| AddrMap.Assemble | pimkv/addrmap.py:111-127 | the inverse loop computes the address from the field values |
| AddrMap.WholeOfParts | pimkv/addrmap.py:92-127 | inverse of map is the identity below the layout's size, for any field list, split fields included |
| AddrMap.PartsOfWhole | pimkv/addrmap.py:92-127 | map of inverse is the identity on coordinates within their fields |
| Schemes.LayoutCovers | pimkv/addrmap.py:86-90 | in every scheme the layout has exactly as many bits as the geometry has bursts, and the pieces of each field add up to its size's bits |
| Schemes.Bijection | pimkv/addrmap.py:45-127 | for every power-of-two geometry and scheme, mapping is a bijection between burst indices and in-range coordinates |
| Schemes.Map | pimkv/addrmap.py:92-109 | in-range indices get in-range coordinates, others a ValueError |
| Schemes.RowIsFrame | pimkv/addrmap.py:49-55 | under both host schemes the row of a burst is its index divided by the frame |
| Schemes.CachelineForm | pimkv/addrmap.py:51-55 | channel, bank, column and row of a burst under host-cacheline, as quotients and remainders |
| SchemeForms.CentricForm | pimkv/addrmap.py:49-50 | column, channel, bank and row of a burst under host-centric, as quotients and remainders |
| SchemeForms.FriendlyForm | pimkv/addrmap.py:56-57 | bank, column, row and channel of a burst under pim-friendly, as quotients and remainders |
| Sweep.AddressesDistinct | pimkv/sim.py:136-141 | distinct blocks give pairwise distinct physical bursts inside the pool |
| Sweep.ChannelIsStripes | pimkv/sim.py:136-143 | a sweep of whole stripes shows every channel the same stream of stripes |
| Sharding.BlockDeterminesRow | pimkv/run.py:24-38 | under both host schemes every burst of block b lies in row b / G when G blocks fill a frame |
| Sharding.FrameHoldsEachPosition | pimkv/addrmap.py:49-55 | one frame hits every (channel, bank, column) exactly once |
| Sharding.RowsAreFrames | pimkv/sim.py:103-129 | a full sweep's distinct rows are the distinct frames of its table |
| Sharding.ShardingInvariant | pimkv/config.py:196-210 | when a token is whole stripes, sharding leaves every channel's stream unchanged for any block table and length |
| Sharding.ShardFrameBlocks | pimkv/run.py:24-38 | sharding leaves blocks per frame, and its errors, unchanged |
| Geometry.FrameBlocksMeaning | pimkv/run.py:24-38 | G blocks fill a frame exactly when G is the answer; larger blocks give 1 exactly when they are whole frames; all else is an error |
| Sharding.DerivedBlockIsFrame | pimkv/config.py:213-236 | the derived block is exactly one frame when token bytes divide it, so a frame holds one block |
| Sharding.DerivedIsLeast | pimkv/config.py:213-236 | the derived block is the fewest tokens, at least one, that cover the row-groups asked for |
| Sharding.ShardBlockTokens | pimkv/config.py:196-236 | sharding leaves the derived block size unchanged |
| Alignment.FramesExact | pimkv/pimmodel.py:86-107 | k whole frames in turn cost k times columns commands and k misses on a channel |
| Alignment.FramesSwept | pimkv/pimmodel.py:86-107 | sweeping whole distinct frames under host-cacheline costs every channel exactly k * cols commands and k misses |
| Alignment.AlignedExact | pimkv/pimmodel.py:86-107 | a table filling k distinct frames in order gets exactly k * cols commands and k misses on every channel, with an aligned window and blocks of any size that fills frames |
| Pool.MinOf | pimkv/allocator.py:362-366 | heappop gives the least free offset |
| Pool.Best | pimkv/allocator.py:352-360 | the most-free frame, lowest index on ties |
| Pool.TakeFree | pimkv/allocator.py:199-204 | taking hands out a free block and removes exactly it |
| Pool.GiveFree | pimkv/allocator.py:368-373 | giving back a used block frees exactly it, in the frame it came from |
| Pool.LastGivenFirst | pimkv/allocator.py:199-203 | on the stack the block given back last is handed out next |
| KVAllocator.FreshDescends | pimkv/allocator.py:195-200 | a fresh stack pool hands out descending ids |
| StackOrder.ReleaseInOrder | pimkv/allocator.py:153-155 | a table no one shares comes back to the stack in its own order |
| StackOrder.RoundTripReverses | pimkv/allocator.py:84-92 | n blocks admitted and released lie on the stack in reverse |
| StackOrder.AdoptInOrder | pimkv/allocator.py:135-150 | committing a branch gives back the copied tail, the branch's overflow and the other branches, in that order |
| Bookkeeping.AllocExact | pimkv/allocator.py:68-72 | a fresh block was free and is live with one reference |
| Bookkeeping.UnrefExact | pimkv/allocator.py:74-81 | a dropped reference frees the block exactly when it was the last |
| Bookkeeping.AllocNExact | pimkv/allocator.py:90 | n allocations hand out n distinct blocks that were free |
| Bookkeeping.AdmitExact | pimkv/allocator.py:84-92 | admission keeps every count equal to the block's occurrences in tables and callers' lists |
| Bookkeeping.AdmitSharedExact | pimkv/allocator.py:94-107 | so does admission on shared blocks |
| Bookkeeping.AppendExact | pimkv/allocator.py:109-114 | so does growth |
| Bookkeeping.ForkExact | pimkv/allocator.py:116-121 | so does forking a table |
| Bookkeeping.AdoptExact | pimkv/allocator.py:135-150 | so does committing a branch, after which no branch block is held any more |
| Bookkeeping.ReleaseExact | pimkv/allocator.py:153-155 | so does release, which takes no free block away |
| Bookkeeping.NumFreeSize | pimkv/allocator.py:205-207 | the free counter of either policy is the number of free blocks |
| Bookkeeping.Conservation | pimkv/allocator.py:166-173 | live plus free is the pool, and allocated minus freed is live: the checks never fail |
| FramePlan.ChoosePlan | pimkv/allocator.py:309-333 | a plan is found exactly when the pool holds n blocks, and it is the shortest best-first list with room |
| FramePlan.SortRankedMeaning | pimkv/allocator.py:319-321 | partial frames come most free first, lowest index on ties |
| FramePlan.PlanMinimal | pimkv/allocator.py:309-333 | any distinct frames with room for n blocks are at least as many as the plan's |
| FramePlan.PlanCeil | pimkv/allocator.py:324-333 | with enough wholly empty frames the plan has exactly ceil(n / G) frames |
| FramePlan.WalkPick | pimkv/allocator.py:335-342 | the front of a partly consumed plan is the frame the simple rule picks |
| Affinity.SteadyStep | pimkv/allocator.py:335-366 | outside a planned admission one allocation is the simple rule's, block and remembered frame |
| Affinity.AdmittingStep | pimkv/allocator.py:335-366 | inside a planned admission one allocation is the simple rule's |
| Affinity.AdmittingEnd | pimkv/allocator.py:335-350 | after the last planned block the state remembers what the rule remembers |
| Placement.TouchesPlan | pimkv/allocator.py:309-343 | the frames a fresh admission touches are exactly those of a shortest best-first plan |
| Placement.FewestFrames | pimkv/allocator.py:309-383 | no set of frames with room for n blocks is smaller than the set a fresh admission touches |
| Placement.CeilFrames | pimkv/allocator.py:309-383 | with ceil(n / G) wholly empty frames a fresh admission touches exactly that many |
| KVAllocator.Allocator.Paged | pimkv/allocator.py:195-197 | a fresh stack pool: every block free, books exact |
| KVAllocator.NewPimAware | pimkv/allocator.py:261-303 | empty tables and whole wholly empty frames, all in the heap, nothing planned or remembered; refused exactly when the pool is not whole frames |
| KVAllocator.Allocator.PopEmpty | pimkv/allocator.py:347-351 | despite stale and duplicate entries the heap yields the lowest wholly empty frame, or there is none |
| KVAllocator.Allocator.MostFree | pimkv/allocator.py:352-358 | the fallback scan finds the most-free frame, lowest index on ties |
| KVAllocator.Allocator.PickFrame | pimkv/allocator.py:335-360 | the frame chosen from plan, affinity, heap and scan, with the new plan and affinity |
| KVAllocator.Allocator.AllocOffset | pimkv/allocator.py:362-366 | the lowest free offset of that frame; every wholly empty frame keeps its heap entry |
| KVAllocator.Allocator.AllocOne | pimkv/allocator.py:362-366 | the block handed out is the simple rule's in both plan modes |
| KVAllocator.Allocator.Alloc | pimkv/allocator.py:68-72 | one block with one reference, as the abstract state says |
| KVAllocator.Allocator.FreeOne | pimkv/allocator.py:368-373 | a freed block returns to its frame, and a frame that comes back whole to the heap |
| KVAllocator.Allocator.Unref | pimkv/allocator.py:74-81 | dropping a held reference |
| KVAllocator.Allocator.PlanFrames | pimkv/allocator.py:309-333 | in best-fit mode a plan is recorded exactly when the admission will fit, it is a plan for it, and the rule's pool is unchanged |
| KVAllocator.Allocator.Admit | pimkv/allocator.py:375-378 | fails exactly when too few blocks are free, leaving the state alone; else the abstract admission |
| KVAllocator.Allocator.AdmitShared | pimkv/allocator.py:380-383 | the same on shared blocks |
| KVAllocator.Allocator.AppendBlock | pimkv/allocator.py:109-114 | fails exactly when no block is free, else the abstract growth |
| KVAllocator.Allocator.Fork | pimkv/allocator.py:116-121 | the child's table is the parent's, one more reference each |
| KVAllocator.Allocator.AllocScratch | pimkv/allocator.py:387-392 | branch blocks from the policy's scratch domain, held by the caller |
| KVAllocator.Allocator.UnrefBlocks | pimkv/allocator.py:131-133 | held blocks given back |
| KVAllocator.Allocator.SpecRoundAdopt | pimkv/allocator.py:135-150 | one branch spliced in, every other branch block given back |
| KVAllocator.Allocator.Release | pimkv/allocator.py:394-400 | the abstract release followed by compaction as a function of the state, which is one injective renaming |
| Compaction.MoveExact | pimkv/allocator.py:438-447 | moving a block no caller holds to a free id keeps every count exact |
| Compaction.RenamesMove | pimkv/allocator.py:438-447 | a move extends the renaming of the whole compaction, which stays injective |
| Compaction.AliasingPreserved | pimkv/allocator.py:443-444 | table entries share a block after compaction exactly when they did before |
| Compaction.OwnersOf | pimkv/allocator.py:402-409 | the owner table lists exactly the positions of each block |
| Compaction.Rewrite | pimkv/allocator.py:443-444 | rewriting the listed positions replaces the block in every table |
| Compaction.CompactingMove | pimkv/allocator.py:422-449 | a move leaves the owner table right for every block still in a donor frame, and moves a block that had not moved |
| KVAllocator.Allocator.FindTarget | pimkv/allocator.py:428-437 | the fullest frame with room outside the donors, lowest index on ties |
| KVAllocator.Allocator.MoveBlock | pimkv/allocator.py:438-448 | one migration, heap and counts kept |
| KVAllocator.Allocator.TryMove | pimkv/allocator.py:423-449 | a block stays behind only when it is in no table or no frame outside the donors has room |
| KVAllocator.Allocator.Compact | pimkv/allocator.py:411-453 | the outcome of CompactionOrder.CompactedOrder, as one injective renaming of tables and counts: every block moved left a frame whose live blocks were fewer than the threshold, held blocks fixed; table blocks left in such frames had nowhere to go; the copy counters count each moved block once |
| CompactionRule.CompactedSound | pimkv/allocator.py:411-453 | compaction, as a function of the state, keeps every count exact and every held block private |
| CompactionOrder.DonorsUnderused | pimkv/allocator.py:416-418 | the frames emptied are those with live blocks, fewer than the threshold times the frame |
| CompactionOrder.CompactedSwept | pimkv/allocator.py:422-425 | compaction looks at the block ids in ascending order |
| CompactionOrder.CompactedOrder | pimkv/allocator.py:411-453 | the outcome in live blocks before it: table blocks of underused frames move, in id order, each to the best free id left, fullest frame first; one stays only when none is left, and then all above it stay |
| Trace.ApplyExact | pimkv/allocator.py:68-173 | every operation, releases that compact included, keeps every reference count exact and held blocks private |
| Trace.RunExact | pimkv/allocator.py:68-173 | so does every trace of operations, after which the conservation checks hold |
| Trace.Do | pimkv/allocator.py:84-155 | each operation of the object, whatever its policy and compaction threshold, is the operation on the abstract state |
| Trace.PlanModesAgree | pimkv/allocator.py:309-453 | two allocators in the same state given the same trace, whatever their plan modes, stay in the same state, compaction included |
| Extents.FirstFitLowest | pimkv/allocator.py:493-497 | first fit succeeds exactly when a run of n consecutive free blocks exists, and finds the lowest |
| Extents.ConsumeMeaning | pimkv/allocator.py:493-499 | carving the run leaves the other free blocks, extents apart and non-empty |
| Extents.ReturnMeaning | pimkv/allocator.py:550-559 | giving back used blocks frees exactly them, and extents stay sorted, non-empty and non-touching |
| Extents.EmptySpanBreaks | pimkv/allocator.py:550-559 | giving back a span of no blocks inside a free extent breaks that order |
| Contiguous.EmptySpanReached | pimkv/allocator.py:489-559 | four calls reach that state in any pool of two blocks or more: admit B, admit A with no blocks, release B, release A |
| Contiguous.AdmittedInv | pimkv/allocator.py:489-509 | admission keeps: extents and spans partition the pool, each span is its table, reservation and scratch in order, counts exact |
| Contiguous.AppendedInv | pimkv/allocator.py:517-524 | so does growth |
| Contiguous.ScratchTakenInv | pimkv/allocator.py:526-537 | so does taking scratch |
| Contiguous.ScratchReturnedInv | pimkv/allocator.py:546-548 | so does giving scratch back |
| Contiguous.ReleasedInv | pimkv/allocator.py:539-544 | so does release |
| Contiguous.ContiguousConservation | pimkv/allocator.py:571-576 | live plus free is the pool, and allocated minus freed is live |
| Contiguous.AloneRun | pimkv/sim.py:370-387 | in an empty contiguous pool a run of n blocks exists exactly when the pool has n |
| ContiguousOracle.Oracle.constructor | pimkv/allocator.py:478-483 | one extent holding the whole pool, no tables, spans or counts |
| ContiguousOracle.Oracle.CountFree | pimkv/allocator.py:485-487 | free extents plus unconsumed reservations |
| ContiguousOracle.Oracle.Admit | pimkv/allocator.py:489-509 | fails exactly when no run of n_total free blocks exists, else reserves the lowest |
| ContiguousOracle.Oracle.AdmitShared | pimkv/allocator.py:511-515 | a full private copy |
| ContiguousOracle.Oracle.AppendBlock | pimkv/allocator.py:517-524 | fails exactly when the reservation is used up, else hands out its first block |
| ContiguousOracle.Oracle.TakeScratch | pimkv/allocator.py:526-537 | the highest n reserved blocks, or failure when there are fewer |
| ContiguousOracle.Oracle.UnrefScratch | pimkv/allocator.py:546-569 | scratch references dropped |
| ContiguousOracle.Oracle.ReturnExtent | pimkv/allocator.py:550-559 | the sort and merge loop |
| ContiguousOracle.Oracle.Release | pimkv/allocator.py:539-544 | table references dropped and the span merged back |
| ContiguousOracle.CommittedIsReserved | pimkv/allocator.py:489-548 | a span less its table and scratch is its unconsumed reservation |
| Backend.Backend.NumFree | pimkv/allocator.py:63-65 | under every policy num_free is the pool minus the blocks in use |
| Backend.Backend.Admit | pimkv/allocator.py:84-92 | effect of admission under any policy, distinct blocks that were unused, and exactly when it is refused: too few free blocks, or no run of them long enough |
| Backend.Backend.AppendBlock | pimkv/allocator.py:109-114 | effect of growth, and when it fails, under any policy |
| Backend.Backend.SpecRoundAdopt | pimkv/allocator.py:135-150 | effect of committing a branch on tables and held blocks |
| Backend.Backend.Retire | pimkv/sim.py:429-433 | effect of a departure: the table goes, the others stay or are renamed injectively |
| AllocatorView.SpliceFree | pimkv/allocator.py:135-150 | a speculation round's net use of free blocks is exactly the table's growth |
| AllocatorView.WithoutFreeExact | pimkv/allocator.py:153-155 | a table's departure frees exactly the blocks no one else refers to |
| SimState.CommittedNat | pimkv/sim.py:208-210 | under oracle admission nothing committed is negative |
| SimState.FootprintLeast | pimkv/sim.py:218-220 | the footprint promised is the fewest blocks that hold the final length, and the reserved scratch |
| SimState.SharedFull | pimkv/sim.py:222-225 | a sequence shares all the full blocks of its prefix and no more |
| SimSteps.AdmitGood | pimkv/sim.py:213-262 | admission keeps tables covering lengths, private tails private, and lowers the spare blocks by the final footprint |
| SimSteps.ShareGood | pimkv/sim.py:224-262 | so does admission on a pinned prefix, by the footprint less the shared blocks |
| SimSteps.PinGood | pimkv/sim.py:224-239 | pinning a prefix lowers the spare blocks by its full blocks only |
| SimSteps.SpanGood | pimkv/sim.py:252-262 | contiguous admission leaves a reservation that is exactly the rest of the promise |
| SimGrowth.AppendGood | pimkv/sim.py:397-411 | growth leaves the spare blocks as they were |
| SimGrowth.SpliceGood | pimkv/sim.py:349-354 | splicing leaves the spare blocks as they were and the table covering the new length |
| SimGrowth.TailPrivate | pimkv/sim.py:349-353 | a partial last block is never shared, so dropping it frees it |
| SimGrowth.LeaveFree | pimkv/sim.py:264-275 | a departure over a shared pool frees exactly the sequence's own blocks |
| SimGrowth.RetireGood | pimkv/sim.py:429-433 | a departure keeps every invariant and never lowers the spare blocks |
| SimGrowth.ImageGood | pimkv/allocator.py:411-453 | so does compaction, when no prefix is pinned |
| SimRounds.RoomToGrow | pimkv/sim.py:277-285 | under oracle admission, in every speculation mode, there are free blocks for any sequence to reach any length up to its final one |
| SimTally.NextReached | pimkv/sim.py:376-389 | reaching one more request adds exactly its id and its work |
| Schedule.OneEnding | pimkv/sim.py:357-442 | the loop on counts has one ending: requests, draws and pool size decide who completes, who is dropped and what is raised |
| Outcomes.TryMeaning | pimkv/sim.py:213-250 | one inequality decides an admission over a shared pool, prefix pinned or not, in either mode: the test after a pin never fails |
| Outcomes.ArrivalsDrop | pimkv/sim.py:376-389 | arrivals are dropped in arrival order, only while no one runs, and each because it fails the test |
| Outcomes.QueueDrops | pimkv/sim.py:361-375 | a preempted sequence is dropped only when preempted over 1000 times, too long for the pool, or failing the test with no one running |
| Outcomes.LeavingMeaning | pimkv/sim.py:429-434 | a KeyError exactly for a finished sequence that no longer runs; else exactly the finished leave |
| Fairness.RoomMeaning | pimkv/sim.py:277-293 | victims are the latest admitted others, the sequence itself last of all, each taken only while too few blocks were free; no one is lost and what they alone held is free |
| Fairness.QueueMeaning | pimkv/sim.py:361-375 | the preempted queue is served from its front, in order, within the batch limit; a head that waits has no place |
| Fairness.AdmissionMeaning | pimkv/sim.py:358-389 | first come first served: no request is reached while a preempted sequence waits, none before it arrived, none past the batch limit, all in order; whoever is next has no place |
| Fairness.RoundTime | pimkv/sim.py:391-395 | time moves by one step, or, with no one running or waiting, just to the next arrival |
| Fairness.BranchLeast | pimkv/sim.py:318-322 | a branch has the fewest blocks that hold the partial block, the drafts and the bonus token |
| Fairness.RoundReaches | pimkv/sim.py:296-354 | a speculation round brings its sequence to min(length + k + 1, final length), or one token further when the branches do not fit, or preempts it |
| Fairness.RegionHolds | pimkv/sim.py:191-192 | the contiguous policy's region holds a round's branches at every length, exactly at a length one short of a block boundary |
| Fairness.FirstServed | pimkv/sim.py:397-411 | the sequence admitted first takes its turn first, and no later turn takes its tokens away |
| Outcomes.CalmRaisesNothing | pimkv/sim.py:397-434 | with free blocks for everyone's growth and one round's branches beside it, a step raises nothing and preempts no one, in either admission mode |
| Outcomes.PreemptedWhenFinished | pimkv/sim.py:287-292 | a run of two requests under vllm admission that ends in a KeyError |
| Outcomes.BranchTakesLast | pimkv/sim.py:333-344 | a run of one request under oracle admission with copy-back that ends in an AdmissionFailure |
| SimHistory.HistoryNext | pimkv/sim.py:264-275 | a round keeps the history one in which no sequence has fewer tokens later than earlier |
| Simulator.Simulation.CommittedNow | pimkv/sim.py:208-210 | the sum over running sequences, non-negative under oracle admission |
| Simulator.Simulation.PinPrefix | pimkv/sim.py:224-240 | succeeds exactly when the prefix is pinned already or its test passes, and then takes its full blocks once and keeps the room |
| Simulator.Simulation.Gate | pimkv/sim.py:241-250 | passes exactly under the admission test, and then there are blocks for the prompt |
| Simulator.Simulation.TryAdmit | pimkv/sim.py:213-262 | over a shared pool, answer and new counts are those of the tests on counts, in both admission modes; under the contiguous policy it succeeds exactly when the spare blocks cover the footprint and a run of that length is free |
| Simulator.Simulation.Preempt | pimkv/sim.py:264-275 | all blocks freed, length kept, first in line to return |
| Simulator.Simulation.EnsureFree | pimkv/sim.py:277-293 | n blocks are free afterwards or the sequence itself was preempted; victims are the latest admitted others, none without need, each counted; oracle admission changes nothing |
| Simulator.Simulation.Commit | pimkv/sim.py:305-317 | the tokens are committed with the blocks they need or the sequence was preempted; it fails exactly when oracle admission finds fewer free blocks in a shared pool |
| Simulator.Simulation.DecodeOne | pimkv/sim.py:403-409 | exactly one token, and a block at a block boundary, or a preemption of itself; it never fails |
| Simulator.Simulation.HoldBranches | pimkv/sim.py:333-334 | the branches are disjoint lists of blocks unused before, never fail after the test, and take exactly that many free blocks |
| Simulator.Simulation.SpliceIn | pimkv/sim.py:349-354 | the round ends with nothing held and the spare blocks as before |
| Simulator.Simulation.CopyBack | pimkv/sim.py:337-348 | every branch block is given back, also when the sequence had to preempt itself; it fails exactly when oracle admission leaves fewer free blocks beside the branches than the tail needs |
| Simulator.Simulation.UnrefBranches | pimkv/sim.py:346-347 | giving the branches back frees exactly their blocks |
| Simulator.Simulation.SpecRound | pimkv/sim.py:296-354 | min(k + 1, remaining) tokens, or one when the pool is too tight for branches; it fails exactly when copy-back under oracle admission leaves too few blocks for the tail |
| Simulator.Simulation.BranchRound | pimkv/sim.py:333-354 | the same for a round whose branches fit |
| Simulator.Simulation.AdmitWaiting | pimkv/sim.py:361-375 | head-of-line order: what still waits is a tail of the queue, and every sequence taken off it runs, with its tokens, or is dropped |
| Simulator.Simulation.AdmitArrivals | pimkv/sim.py:376-389 | every request reached runs or is dropped; with no one running the next has not arrived |
| Simulator.Simulation.AdmitAll | pimkv/sim.py:358-389 | no request is reached while a preempted sequence waits, none before it arrived, no one beyond the batch limit; every request reached runs or is dropped |
| Simulator.Simulation.DecodeAll | pimkv/sim.py:397-411 | the same requests with strictly less work left, and whoever reached the final length is listed once |
| Simulator.Simulation.FinishAll | pimkv/sim.py:429-434 | exactly the listed sequences leave; there is a KeyError exactly when one of them no longer runs |
| Simulator.Simulation.Step | pimkv/sim.py:397-434 | decode and departures are the step on counts; a KeyError exactly when a sequence at its final length was preempted in the step; no sequence has fewer tokens than before |
| Simulator.Simulation.Round | pimkv/sim.py:357-438 | one iteration of the loop, admission included, with its measure going down; over a shared pool it is the round on counts |
| Simulator.Simulation.Finish | pimkv/sim.py:440-442 | with every prefix released no table is left and every block is free |
| Simulator.Simulation.Run | pimkv/sim.py:357-442 | the loop ends by a lexicographic measure; each request ends exactly once, completed or dropped; every block is free again; no sequence ever has fewer tokens than before; over a shared pool the run is the loop on counts, outcome and drops included; a contiguous pool drops only what no empty pool could hold; oracle admission raises nothing except with copy-back over a shared pool |
| Endings.SpannedCommitted | pimkv/sim.py:208-210 | under the contiguous policy committed() is exactly the unconsumed reservations, and what is free beyond it is exactly the free extents |
| Endings.RoomAlways | pimkv/sim.py:208-250 | oracle admission is safe: at every step boundary num_free >= committed() >= 0, under every policy and speculation mode |
| Endings.KeyErrorRun | pimkv/sim.py:429-430 | the simulation on a fresh stack pool of four blocks does end in a KeyError |
| Endings.AdmissionFailureRun | pimkv/sim.py:343-344 | the simulation on a fresh stack pool of two blocks does end in an AdmissionFailure |
| Measure.Coverage | pimkv/sim.py:296-354 | at every step boundary a running sequence has exactly ceil(length / block) distinct blocks |
| Measure.SweepReadsPool | pimkv/sim.py:132-141 | so a measurement reads pairwise distinct bursts of the pool |
| EndToEnd.WholeFramePlacement | pimkv/allocator.py:335-383 | admitting k frames' worth of blocks fills the k lowest wholly empty frames at ascending offsets |
| EndToEnd.IdealStream | pimkv/pimmodel.py:86-107 | such a sequence gets exactly k * cols commands and k misses on every channel |
| EndToEnd.IdealMetrics | pimkv/pimmodel.py:144-157 | so its M2 is 1 and its M1 is 1 - 1/cols |

## Left out

- KVAllocator.Allocator.Admit: the ValueError for an id that is already admitted is a precondition, not an outcome.
- KVAllocator.NewPimAware: the ValueError for an unknown plan name is not modelled, the plan mode being a boolean; `make_allocator`'s padding of the pool size is left to the caller.
- KVAllocator.Allocator.Fork: the simulator never forks; a child may then be forked only onto an unused id.
- ContiguousOracle.Oracle.UnrefScratch: only a sequence's whole scratch list is given back, as the simulator does.
- Schedule.OneEnding: the loop on counts is that of shared pools; under the contiguous policy admission also depends on where the free blocks lie, and is covered by the contracts of `Simulator.Simulation.TryAdmit` and `Run` instead.
- Simulator.Simulation.Run: sampling, the periodic conservation assertions (shown never to fail by Bookkeeping.Conservation and Contiguous.ContiguousConservation), peak and summary statistics, and the ValueErrors for byte sizes and capacity at the start are not part of the loop; the requests are taken in the order given, which covers the sorted one.
- Simulator.Simulation.CopyBack: the counters of copied tokens and stalled rounds are kept, but no contract gives their values.
- Simulator.Simulation.SpecRound: the acceptance probability is not modelled; any number of drafts up to the depth may be accepted and any branch may win.
- Metrics.SequenceMetrics: real division stands for floating point; M3, M4 and the placement fractions are one-line formulas without an invariant.
- Stream.StreamWindows: an unknown mode's ValueError is modelled only for the counting version.
- `RandomAlloc`: it differs from the stack policy only in a random index.
- `pimkv/ramulator.py` and `pimkv/attacc.py`: they drive external simulators and trace files.
- `pimkv/workload.py`, plots, command line, sweeps and CSV output: generators and reporting.
- A sequence's record is a value in the scheduler's ordered list, replaced on update; the aliasing of one record between `active` and `waiting` in the source is not represented.
- Two branches that are the same list object: branches are told apart by position.
