# GraphBrew: verified models of its self-contained algorithms

The repository simulates cache policies under graph kernels. This project models, in Dafny, the parts of it that
are algorithms in their own right, and proves what each of them is for:

* **Connected components.** The concurrent union-find of the Sniper kernel as a step system in which any number of
  workers share the label array through atomic loads and compare-and-swap, the sequential Afforest kernel, and the
  Shiloach-Vishkin kernel. All of them label every vertex with the smallest vertex connected to it.
* **Breadth-first search** that switches between top-down and bottom-up phases with bitmaps that are not cleared in
  between, and the verifier that accepts exactly the shortest-path trees.
* **Shortest paths**: single-threaded delta-stepping, and FIFO label correcting fed either from the CSR edges or from
  packed compact records. Both end with exact distances.
* **Betweenness centrality, forward pass**: distances and the number of shortest edge sequences.
* **Triangle counting** in degree order, and its id-ordered verifier.
* **Hawkeye**: OPTgen on a ring of 128 slots with a 10-bit clock, the LRU sampler, and the predictors. The ring refines
  an unbounded-time specification whose online choice is optimal.
* **Reuse plans**: the builder that finds the next two references of a cache line in a circular sweep, the wire
  formats, the two record streams, the validators, and the sidecar file with its loader.
* **Victim policy**: the seven eviction variants, admission priorities, and the lock-free dueling selector as a step
  system.
* **Epochs**: the closed form, the division-free cursor and the table search.

Graphs are sequences of adjacency sequences; an in-list is the transpose of the out-lists. Weights are non-negative
and distances stay below the kernel's infinity. Machine words are unbounded integers where a bound on the inputs rules
out overflow, and wrap explicitly where wrapping matters (the 10-bit clock, 64-bit hashes, the 64-bit products of the
epoch formula and of the epoch boundaries, 16-bit epochs, packed fields). Fields of a packed word are disjoint, so
words are sums of fields times powers of two; `BitFields` proves for every layout that the ors of the source are these
sums. Code that changes state in loops is written as methods over arrays, sequences or class fields; several
threads are modelled as a function from a state and a thread to the next state, and a run is any sequence of steps.

## Where to look

| files | repository file |
|---|---|
| `ConcurrentLink`, `ConcurrentCompress`, `ParallelAfforest` | `bench/src_sniper/cc.cc` |
| `Components` over `Graphs` and `Forests` | `bench/src_sniper/sg_kernel.cc`, `bench/src_gem5/cc_sv.cc` |
| `Bfs`, `BfsKernel`, `BfsVerifier` | `bench/src_sim/bfs.cc` |
| `ShortestPaths`, `DeltaStepping`, `LabelCorrecting`, `CompactSssp` | `bench/src_gem5/sssp.cc`, `bench/src_sniper/sg_kernel.cc` |
| `Brandes`, `Triangles` | `bench/src_sniper/sg_kernel.cc`, `bench/src_sim/tc.cc` |
| `Optgen`, `Sampler`, `Hawkeye`, `HawkeyeRuns` | `bench/include/hawkeye_policy.h` |
| `Epochs`, `WireFormat`, `BitFields`, `ReusePlan`, `ReusePlanBuilder`, `ReusePlanRecords`, `ReusePlanStreams`, `EpochCounts`, `RecordValidators` | `bench/include/ecg_reuse_plan_builder.h` |
| `LittleEndian`, `SidecarHash`, `Sidecar`, `SidecarLoader`, `SidecarFiles` | `bench/include/ecg_reuse_plan_sidecar.h` |
| `Dueling`, `VictimPolicy` | `bench/include/ecg_victim_policy.h` |
| `EpochCursor` | `bench/include/gem5_sim/gem5_harness.h` |

`Common`, `Arithmetic` and `Sorting` hold what several of these share. `dafny verify dfyconfig.toml` checks everything.

## What was found on the way

* The comment in `hawkeye_policy.h:21-23` says that intervals outside the 128-quantum window fail closed. With the
  10-bit clock that is false once 1024 or more ticks have passed. The clock then decides as unbounded time does exactly
  when the elapsed ticks modulo 1024 are no distance from 1 to 127, or a slot on the way to the aliased quantum is full
  (`OptgenRefinement.WrappedClockAgrees`). Every history in which a line comes back one tick past a multiple of 1024
  fails (`OptgenRefinement.WrappedClockAliases`), and `HawkeyeRuns.StaleReuse` is a run of the policy that does so. It
  exists with lines of one set whenever 350 does not divide the number of sets (`HawkeyeRuns.OtherLineExists`).
* `buildInEdgeEpochs` clamps the epoch count to 65535, the plan builder to 32768. The first epoch of the plan equals
  the single epoch on every edge of every graph exactly when the requested count is at most 32768
  (`EpochCounts.Agree`); `EpochCounts.Differ` has a graph of every larger size with an edge on which they differ.
* Epochs and epoch boundaries are computed from 64-bit products that can wrap. `EpochCursor.QuantizeIsTrue` says
  exactly when the closed form still gives the true epoch, and `EpochCursor.QuantizeWraps` is a vertex of a graph for
  which it does not; `EpochCursor.QuantizeExact` is the exact bound for all vertices of a graph. A cursor and a table
  get every vertex of a graph of n vertices and ne epochs right exactly when (ne - 1) * n + ne - 1 is below 2^64
  (`EpochCursor.CursorExact`, `EpochCursor.TableExact`). For vertices and counts of 32 bits nothing wraps
  (`EpochCursor.Fits32`).
* The sidecar loader notices a change of any single byte of a file, in the header as well as in the payload
  (`SidecarLoader.OneByteIsNoticed`).

## Model

| member | source | states |
|---|---|---|
| ConcurrentLink.StepKeepsInv | bench/src_sniper/cc.cc:31-59 | Every atomic step of every worker keeps comp[x] <= x, joins only vertices that submitted edges connect, keeps what every worker in progress knows, and never splits a tree |
| ConcurrentLink.RunGrows | bench/src_sniper/cc.cc:31-44 | Over any interleaving, vertices once in one tree stay in one tree |
| ConcurrentLink.LinksJoin | bench/src_sniper/cc.cc:31-59 | At every point of every run each finished link has its two ends in one tree for good, and no tree holds vertices the submitted edges do not connect |
| ConcurrentLink.DoneWorker | bench/src_sniper/cc.cc:178-205 | A worker that ends either was skipped because its vertex is in the guarded tree, or has joined its vertex with all its neighbours |
| ConcurrentLink.FuelAccount | bench/src_sniper/cc.cc:31-59 | Every step of a worker uses up its own fuel and no step of another worker costs it any, even when its compare-and-swap fails |
| ConcurrentLink.WaitFree | bench/src_sniper/cc.cc:31-59 | A worker scheduled as often as its own inputs say has finished all its links, whatever the others do |
| ConcurrentLink.IterationBound | bench/src_sniper/cc.cc:34-43 | A link of u and v passes its loop test at most max(u, v) + 1 times in every interleaving |
| ConcurrentLink.DoneStays | bench/src_sniper/cc.cc:31-59 | A finished worker is never changed again and no worker's task changes |
| ConcurrentCompress.StepKeepsInv | bench/src_sniper/cc.cc:61-66 | Every interleaved load and store of the compression loops keeps the forest and the root of every vertex |
| ConcurrentCompress.CompressFlattens | bench/src_sniper/cc.cc:61-66 | When all iterations have ended, in any interleaving, every vertex points straight at the root it started under |
| ConcurrentCompress.WaitFree | bench/src_sniper/cc.cc:61-66 | Iteration n ends within 5 * comp[n] + 2 of its own steps whatever the others do |
| ParallelAfforest.AfforestLabelsComponents | bench/src_sniper/cc.cc:138-206 | On a symmetric graph, under every interleaving of every phase, for any number of rounds and whichever label is skipped, each vertex ends with the smallest vertex connected to it |
| ParallelAfforest.AfforestCompletes | bench/src_sniper/cc.cc:138-206 | Every phase of the computation can run to its end, so complete runs exist for every graph |
| ParallelAfforest.RoundJoins | bench/src_sniper/cc.cc:145-165 | A sampling round, in every interleaving, ends with each vertex and its neighbour of that round under one label |
| ParallelAfforest.FullPhaseLinksEdges | bench/src_sniper/cc.cc:178-205 | After the last phase both ends of every edge are in one tree, although the skipped vertices link nothing |
| Forests.LabelIsMinConnected | bench/src_sniper/sg_kernel.cc:1590-1594 | A sound labelling that agrees along every edge is the smallest connected vertex |
| Components.LinkLoaded | bench/src_sniper/sg_kernel.cc:1563-1588 | cc_link and cc_link_loaded join exactly the trees of u and v, under the smaller root, and change no other root |
| Components.LinkTurn | bench/src_sniper/sg_kernel.cc:1566-1574 | What each exit of the link loop means and that p1 + p2 falls on every reload |
| Components.Compress | bench/src_sniper/sg_kernel.cc:1590-1594 | Every vertex ends with its root, and no root changes |
| Components.SampleRound | bench/src_sniper/sg_kernel.cc:1956-1995 | A round puts each vertex into one tree with its r-th neighbour, splits nothing, joins only connected vertices and flattens the forest |
| Components.LargestLabel | bench/src_sniper/sg_kernel.cc:1997-2003 | The chosen label is a most frequent one, in whatever order the counts are walked |
| Components.FullVertex | bench/src_sniper/sg_kernel.cc:2006-2047 | After its turn a vertex is in the skipped tree or joined to all its neighbours |
| Components.Afforest | bench/src_sniper/sg_kernel.cc:1956-2050 | On a symmetric graph comp[v] is the smallest vertex connected to v |
| Components.HookEdge | bench/src_gem5/cc_sv.cc:43-53 | A hook joins connected trees, reports whether it changed a label, and without a change the two labels agree or the larger is no root |
| Components.ShiloachVishkin | bench/src_gem5/cc_sv.cc:38-59 | The hook and compress rounds end, with comp[v] the smallest vertex connected to v |
| Components.SumFalls | bench/src_gem5/cc_sv.cc:48-51 | Lowering a label lowers the sum of all labels, which bounds the number of rounds |
| Components.KernelsAgree | bench/src_sniper/sg_kernel.cc:1956-2050 | Two labellings by smallest connected vertex are equal, so the component kernels agree pointwise |
| OptgenSpec.AcceptedFeasible | bench/include/hawkeye_policy.h:95-103 | The intervals accepted online are intervals of length 1 to 127 whose overlap never exceeds the capacity |
| OptgenSpec.Exchange | bench/include/hawkeye_policy.h:88-105 | Any feasible set that agrees with OPTgen so far can be changed, without losing an interval, to agree one tick further |
| OptgenSpec.Optimal | bench/include/hawkeye_policy.h:83-105 | No set of offered intervals that fits the capacity is larger than the set accepted online |
| OptgenRing.Optgen.constructor | bench/include/hawkeye_policy.h:77-81 | The ring starts empty with a capacity of at least one |
| OptgenRing.Optgen.Advance | bench/include/hawkeye_policy.h:83-86 | Exactly the slot of the quantum is cleared |
| OptgenRing.Optgen.AddInterval | bench/include/hawkeye_policy.h:88-105 | Accepts exactly when the distance is 1..127 and every slot on the way has room, and then raises exactly those slots by one |
| OptgenRefinement.VisitsInterval | bench/include/hawkeye_policy.h:93-103 | The walk visits exactly the slots of the ticks of the interval and takes distance steps |
| OptgenRefinement.RingDecides | bench/include/hawkeye_policy.h:92-98 | The ring's test succeeds exactly when the unbounded-time specification accepts the interval |
| OptgenRefinement.RingTick | bench/include/hawkeye_policy.h:166-190 | An access keeps each slot equal to the number of accepted intervals over the one tick it stands for, and decides as the specification does |
| OptgenRefinement.IdleTick | bench/include/hawkeye_policy.h:183-190 | A tick without a reuse keeps the correspondence |
| OptgenRefinement.RingWithinCapacity | bench/include/hawkeye_policy.h:96 | No slot ever exceeds the capacity |
| OptgenRefinement.WrappedClockAgrees | bench/include/hawkeye_policy.h:20-23 | The 10-bit clock decides as unbounded time does exactly when fewer than 1024 ticks have passed, or the elapsed ticks modulo 1024 are no distance from 1 to 127, or a slot on the way to the aliased quantum is full |
| OptgenRefinement.WrappedClockAliases | bench/include/hawkeye_policy.h:20-23 | On every history with some capacity, a line that comes back one tick past a multiple of 1024 is accepted on the last tick's interval, although its own interval is rejected |
| Sampler.KeptIffRecent | bench/include/hawkeye_policy.h:166-181 | A tag is among the eight kept exactly when fewer than eight distinct tags were used after its last use |
| Sampler.PromoteRow | bench/include/hawkeye_policy.h:232-241 | Ageing the entries ranked before a hit and resetting it keeps the ranks a permutation |
| Sampler.HitRefines | bench/include/hawkeye_policy.h:166-177 | A hit leaves the row the LRU stack of the longer history |
| Sampler.InsertRefines | bench/include/hawkeye_policy.h:178-188 | Filling an invalid way leaves the row the LRU stack of the longer history |
| Sampler.EvictRefines | bench/include/hawkeye_policy.h:178-188 | Replacing the oldest entry leaves the row the LRU stack of the longer history |
| Hawkeye.Predictor.Increase | bench/include/hawkeye_policy.h:49-53 | Exactly one three-bit counter moves up, saturating at 7 |
| Hawkeye.Predictor.Decrease | bench/include/hawkeye_policy.h:55-59 | Exactly one three-bit counter moves down, saturating at 0 |
| Hawkeye.State.constructor | bench/include/hawkeye_policy.h:128-134 | A new state satisfies the invariant, with empty histories, all predictor counters at the threshold, one hash for both predictors and arrays of its own |
| Hawkeye.State.SelectVictim | bench/include/hawkeye_policy.h:220-230 | The first invalid way, and otherwise the least recently used one |
| Hawkeye.State.AgeHistory | bench/include/hawkeye_policy.h:232-241 | Exactly the valid entries ranked below the threshold other than the touched one age by one |
| Hawkeye.TrainReuse | bench/include/hawkeye_policy.h:166-176 | The predictor entry of the last use is trained up exactly when the ring accepts the reuse |
| Hawkeye.State.TouchRow | bench/include/hawkeye_policy.h:155-189 | One access turns the row into the LRU stack of its longer history, reuses an entry exactly when the tag is remembered, and returns that entry |
| Hawkeye.State.AccessRing | bench/include/hawkeye_policy.h:166-190 | The ring, the clock and the hit count of the set follow the specification and all other sets stay as they were |
| Hawkeye.State.Access | bench/include/hawkeye_policy.h:145-192 | A sampled access offers the reuse interval since the line's last remembered use, counts and trains it by the specification's verdict, and remembers the new use; an unsampled one changes nothing; either is answered friendly exactly when the counter at crc32(signature) % 2048 of its own predictor, after the training, is at least 4 |
| Hawkeye.State.SampledSet | bench/include/hawkeye_policy.h:136-143 | All of up to 64 sets are sampled, and otherwise exactly the sets k * (numSets / 64) with k below 64 |
| Hawkeye.State.Eviction | bench/include/hawkeye_policy.h:194-200 | Detrains one counter for a sampled set and nothing otherwise, keeping the invariant |
| Hawkeye.HitsAreOptimal | bench/include/hawkeye_policy.h:145-192 | In every valid state a set's accepted reuses are as many as any cache of its capacity could have had |
| Hawkeye.OfferIsReuseInterval | bench/include/hawkeye_policy.h:153-170 | A use less than 1024 ticks after the last one offers exactly the interval between them, if the sampler still holds it |
| HawkeyeRuns.Perform | bench/include/hawkeye_policy.h:145-200 | An access or eviction takes the histories and both predictor tables exactly where the event takes them in the specification, and an access is answered by its counter after the event |
| HawkeyeRuns.Drive | bench/include/hawkeye_policy.h:128-200 | Any sequence of accesses and evictions on a new state ends with the histories and tables of that run, every set's accepted reuses are as many as any cache of its capacity could have had, and every access was answered friendly exactly when the verdicts on its entry up to then balance to at least 0 |
| HawkeyeRuns.CounterIsBalance | bench/include/hawkeye_policy.h:44-59 | In every run each counter is 4 plus the balance, kept from -4 to 3, of the accepted reuses and the rejections and evictions that concern its entry |
| HawkeyeRuns.BalanceAfter | bench/include/hawkeye_policy.h:44-59 | After n verdicts for and then m against an entry its balance is not negative exactly when m is at most n and at most 3 |
| HawkeyeRuns.PredictionAfter | bench/include/hawkeye_policy.h:44-59 | A signature whose entry has seen n accepted reuses and then m rejections or evictions is friendly exactly when m is at most n and at most 3 |
| HawkeyeRuns.UntrainedIsFriendly | bench/include/hawkeye_policy.h:44-47 | A signature whose entry was never trained is friendly |
| HawkeyeRuns.StaleReuse | bench/include/hawkeye_policy.h:145-192 | For every geometry, hash and other line of another sampler row there is a run, named access by access, at whose end a line unused for 1025 ticks is accepted though its own interval is rejected; its accesses keep to the sets of their lines when the other line belongs to set 0 |
| HawkeyeRuns.OtherLineExists | bench/include/gem5_sim/overlays/mem/cache/replacement_policies/hawkeye_rp.cc:200-204 | A line of set 0 and of another sampler row, as that run needs, exists exactly when 350 does not divide the number of sets |
| Bfs.LevelsAdvance | bench/src_sim/bfs.cc:420-446 | Expanding level d labels exactly the vertices at distance d + 1 |
| Bfs.EmptyLevelEnds | bench/src_sim/bfs.cc:420 | Once a level is empty every reachable vertex has been labelled |
| Bfs.TreeAdvance | bench/src_sim/bfs.cc:420-446 | A step in either direction keeps every parent one level up along an edge |
| Bfs.FrontAdvance | bench/src_sim/bfs.cc:423-435 | A stale bit only names a vertex with nothing left to discover, on every later level too |
| BfsKernel.QueueToBitmap | bench/src_sim/bfs.cc:223-229 | Sets exactly the bits of the window and keeps all others |
| BfsKernel.BitmapToQueue | bench/src_sim/bfs.cc:231-243 | The next window holds exactly the vertices whose bits are set, each once |
| BfsKernel.TDVertex | bench/src_sim/bfs.cc:134-216 | Every unvisited out-neighbour gets this vertex as parent and is queued once, within the queue's capacity |
| BfsKernel.TDStep | bench/src_sim/bfs.cc:104-221 | Exactly the exposed unvisited vertices get a parent on the level and exactly those are queued |
| BfsKernel.FindFront | bench/src_sim/bfs.cc:71-97 | Finds a parent on the current level exactly when the vertex is exposed, in spite of stale bits |
| BfsKernel.BUStep | bench/src_sim/bfs.cc:28-101 | Exactly the exposed unvisited vertices get a parent on the level, exactly those bits are set in next, and they are counted |
| BfsKernel.TurnLevels | bench/src_sim/bfs.cc:429-434 | After a bottom-up step the search has reached the next level and next marks it |
| BfsKernel.BottomUp | bench/src_sim/bfs.cc:429-434 | The loop ends with the bitmaps swapped any number of times and front marking the level reached |
| BfsKernel.TDPhase | bench/src_sim/bfs.cc:437-445 | A top-down phase advances the search by one level with the stale bits still harmless |
| BfsKernel.BUPhase | bench/src_sim/bfs.cc:421-436 | A bottom-up phase leaves the window listing the level reached, with the queue within its capacity |
| BfsKernel.DOBFS | bench/src_sim/bfs.cc:406-461 | For every graph, source and threshold the search ends with parent a shortest-path tree, -1 exactly off the component |
| BfsVerifier.Depths | bench/src_sim/bfs.cc:478-491 | The plain search computes exact distances, -1 exactly where there is no path |
| BfsVerifier.CheckVertex | bench/src_sim/bfs.cc:492-509 | A vertex passes exactly when its parent entry is right |
| BfsVerifier.PassesIffEntry | bench/src_sim/bfs.cc:493-509 | The local test against exact depths is the tree condition |
| BfsVerifier.Verify | bench/src_sim/bfs.cc:476-512 | Accepts exactly the shortest-path trees, hence every result of the search |
| ShortestPaths.RelaxedIsExact | bench/src_sniper/sg_kernel.cc:1412-1421 | Distances that stand for walks and leave no edge to relax are exact |
| ShortestPaths.ExactUnique | bench/src_gem5/sssp.cc:166-169 | There is one exact distance vector, so the kernels agree |
| LabelCorrecting.Lower | bench/src_sniper/sg_kernel.cc:1416-1422 | Lowering a distance queues the vertex once and keeps every vertex outside the queue relaxed, with a smaller sum of distances |
| LabelCorrecting.RelaxEdges | bench/src_sniper/sg_kernel.cc:1402-1425 | Afterwards all out-edges of the vertex are relaxed, and either the sum of distances fell or the queue did not grow |
| LabelCorrecting.Run | bench/src_sniper/sg_kernel.cc:1399-1531 | The queue empties and the distances are exact |
| CompactSssp.PackCompact | bench/src_sniper/sg_kernel.cc:1306-1331 | Packing succeeds exactly when every edge fits, and then each record carries its edge and the plan of the wide record at its position |
| CompactSssp.CarriesIffPacked | bench/include/ecg_reuse_plan_builder.h:668-683 | A 64-bit word carries a packable edge and plan exactly when it is the one record the packing loop makes of them |
| CompactSssp.DecodeRows | bench/src_sniper/sg_kernel.cc:1426-1434 | Decoding the compact records gives back the graph's edges in order |
| CompactSssp.RunSssp | bench/src_sniper/sg_kernel.cc:1461-1528 | Relaxing from compact records or from CSR edges gives the same exact distances |
| DeltaStepping.PushBinsOk | bench/src_gem5/sssp.cc:153-156 | A push lands in the bin of the new distance, never below the current bin |
| DeltaStepping.ImproveStep | bench/src_gem5/sssp.cc:150-162 | A relaxation keeps every vertex with an unrelaxed out-edge in the bin of its distance |
| DeltaStepping.SkipStep | bench/src_gem5/sssp.cc:379-391 | Skipping a frontier entry whose distance lies below the current bin loses nothing |
| DeltaStepping.RelaxEdges | bench/src_gem5/sssp.cc:36-164 | Relaxes all out-edges; distances only fall, and only to the current bin or above |
| DeltaStepping.ProcessFrontier | bench/src_gem5/sssp.cc:378-391 | Afterwards every vertex is relaxed or waits in the bin of its distance |
| DeltaStepping.DrainBin | bench/src_gem5/sssp.cc:393-408 | Emptying the current bin in copies keeps that invariant and ends |
| DeltaStepping.NextBin | bench/src_gem5/sssp.cc:410-416 | Finds the first non-empty bin from the current one on, or reports that there is none |
| DeltaStepping.ProcessBin | bench/src_gem5/sssp.cc:372-436 | An iteration ends with exact distances or with the next bin as frontier, having made progress |
| DeltaStepping.DeltaStep | bench/src_gem5/sssp.cc:363-437 | The whole computation ends with exact distances for every positive delta |
| Brandes.SequencesExactly | bench/src_sniper/sg_kernel.cc:1715-1805 | The counted objects are exactly the edge sequences of a length, parallel edges told apart |
| Brandes.PartGrows | bench/src_sniper/sg_kernel.cc:1731-1739 | Following one edge adds exactly the paths to its source, extended by that edge |
| Brandes.EndLevel | bench/src_sniper/sg_kernel.cc:1728-1804 | Once a level is expanded the distances and counts of the next level are final |
| Brandes.VisitNeighbour | bench/src_sniper/sg_kernel.cc:1731-1739 | One edge keeps the counts equal to the number of sequences seen so far and the new level listed once |
| Brandes.ExpandLevel | bench/src_sniper/sg_kernel.cc:1727-1801 | Given final counts on a level, the next level's counts are final and its list is exact |
| Brandes.ForwardPass | bench/src_sniper/sg_kernel.cc:1715-1805 | depth is the distance and path_counts the number of shortest edge sequences, for every vertex, and levels lists every level |
| Triangles.OneTriplePerTriangle | bench/src_sim/tc.cc:106-109 | In either order each triangle is counted by exactly one increasing triple |
| Triangles.MergeOrdered | bench/src_sim/tc.cc:112-138 | The merge for one edge counts exactly the third corners that follow v in degree order |
| Triangles.MergeById | bench/src_sim/tc.cc:157-172 | The verifier's merge counts exactly the third corners above v, though it advances differently |
| Triangles.OrderedCount | bench/src_sim/tc.cc:87-145 | The total is the number of triangles of the graph |
| Triangles.Verify | bench/src_sim/tc.cc:151-183 | Accepts a total exactly when it is the number of triangles, hence always the kernel's |
| Epochs.DeliveredDistanceIs | bench/include/ecg_reuse_plan_builder.h:222-233 | What survives encoding and decoding of a reference: whole epochs ahead, with a wrapped reference into the current epoch read as the farthest |
| Epochs.DeliveredDistanceMonotone | bench/include/ecg_victim_policy.h:283-288 | A later reference is never delivered as a nearer one |
| Epochs.AdmissionOrder | bench/include/ecg_victim_policy.h:296-306 | A nearer delivered distance never gets a higher admission RRPV, and the result stays within rrpvMax |
| Epochs.AdmissionEndPoints | bench/include/ecg_victim_policy.h:296-306 | RRPV 0 exactly for the current epoch, and rrpvMax for the farthest |
| Epochs.AdmissionIs | bench/include/ecg_victim_policy.h:296-306 | With d the epoch distance, the priority is the least k with d * rrpvMax <= k * (ne - 1) |
| Epochs.AdmissionMonotone | bench/include/ecg_victim_policy.h:296-306 | From true distance to admission RRPV the order is kept |
| Epochs.FullCycleIsFarthest | bench/include/ecg_reuse_plan_builder.h:230-231 | A reference a whole sweep away is delivered as the farthest epoch |
| Epochs.FirstRulesAtDelivery | bench/include/ecg_victim_policy.h:310-319 | While the source's epoch is current the second reference never overrides the first |
| Epochs.NearerCounts | bench/include/ecg_victim_policy.h:308-319 | With two references the distance is the smaller of both epoch distances, with one that of the first |
| Epochs.EpochDistanceIs | bench/include/ecg_victim_policy.h:281-293 | The one distance below ne that leads round the sweep from the current epoch to the stored one, or to the last if that is out of range |
| Epochs.CurrentEpochIs | bench/include/ecg_reuse_plan_builder.h:210-217 | The epoch e of vertex u is the one with e * n <= u * ne < (e + 1) * n |
| Epochs.QuantizedIs | bench/include/ecg_reuse_plan_builder.h:219-234 | A reference is stored as its reader's epoch, except that a wrapped one into the current epoch is stored as the epoch before |
| WireFormat.PackFields | bench/include/ecg_reuse_plan_builder.h:35-139 | Every field of a packed word, wide or compact, reads back truncated to its width |
| WireFormat.SidecarRecombines | bench/include/ecg_reuse_plan_builder.h:141-164 | A record's sidecar and destination recombine to the same 64-bit word |
| WireFormat.Width | bench/include/ecg_reuse_plan_builder.h:65-75 | The least width that covers the values, up to the limit |
| WireFormat.CanPack | bench/include/ecg_reuse_plan_builder.h:56-63 | Says yes exactly when the least widths fit into 32 bits |
| WireFormat.CompactFields | bench/include/ecg_reuse_plan_builder.h:77-110 | When the fields fit, each of them reads back unchanged |
| WireFormat.CompactWidens | bench/include/ecg_reuse_plan_builder.h:116-123 | A fitting compact record widens to the canonical 64-bit record |
| WireFormat.PackFits | bench/include/ecg_reuse_plan_builder.h:35-41 | A packed word stays within the bits of its fields |
| WireFormat.WeightedRoundTrip | bench/include/ecg_reuse_plan_builder.h:166-203 | A packable edge reads back from its compact weighted record together with the plan fields |
| WireFormat.PackableIffReadBack | bench/include/ecg_reuse_plan_builder.h:166-182 | An edge of a graph of at most 2^24 vertices fits exactly when its weight is positive and what is stored of it reads back unchanged |
| BitFields.RecordIsSum | bench/include/ecg_reuse_plan_builder.h:35-41 | The ors of the 64-bit record are the sum of its fields at bits 0, 32, 34 and 49 |
| BitFields.RecordReads | bench/include/ecg_reuse_plan_builder.h:125-139 | Shifting and masking reads every field of the 64-bit record back |
| BitFields.WeightedIsSum | bench/include/ecg_reuse_plan_builder.h:174-182 | The weighted record is the 64-bit record of destination and weight side by side |
| BitFields.SidecarIsSum | bench/include/ecg_reuse_plan_builder.h:141-146 | The ors of the sidecar are the sum of its fields at bits 0, 2 and 17 |
| BitFields.FieldAdded | bench/include/ecg_reuse_plan_builder.h:77-88 | A field ored in above a word is added to it and stays within its bits, for all widths and places |
| BitFields.CompactIsSum | bench/include/ecg_reuse_plan_builder.h:77-88 | For all field widths that fit 32 bits, the three ors of the compact record are three additions of its shifted fields |
| BitFields.CompactReads | bench/include/ecg_reuse_plan_builder.h:90-110 | Shifting and masking reads every field of the compact record back, for all such widths |
| ReusePlan.FirstTwo | bench/include/ecg_reuse_plan_builder.h:365-383 | From the upper bound on, wrapping at the end, the iterator meets the two earliest references of the infinite schedule of a vertex |
| ReusePlan.ConsiderStep | bench/include/ecg_reuse_plan_builder.h:350-360 | The two slots hold the two earliest of the references considered so far |
| ReusePlan.VertexCovered | bench/include/ecg_reuse_plan_builder.h:362-384 | The two references taken from a vertex stand for all of its references |
| ReusePlanBuilder.BuildReaderCsr | bench/include/ecg_reuse_plan_builder.h:246-272 | Each vertex gets exactly its readers, sorted, repeated readers included |
| ReusePlanBuilder.ReaderCsrUnique | bench/include/ecg_reuse_plan_builder.h:246-272 | Offsets and readers are determined by the graph and the direction |
| ReusePlanBuilder.OrderIsRank | bench/include/ecg_reuse_plan_builder.h:284-292 | The sorted order puts every vertex at its rank by reader count and id |
| ReusePlanBuilder.BuildReuseTiers | bench/include/ecg_reuse_plan_builder.h:277-304 | Tier 1 exactly for the hot_count hottest vertices, 2 for as many again, 3 for the rest |
| ReusePlanRecords.NextReusePlanForLine | bench/include/ecg_reuse_plan_builder.h:326-395 | Over exactly the vertices whose cache line is that of dest: the epochs of the two smallest positive offsets of the schedule of all their readers, the hottest of their tiers, and invalid exactly when nobody reads the line |
| ReusePlanRecords.LineIsLine | bench/include/ecg_reuse_plan_builder.h:333-338 | The range scanned holds v exactly when v / perLine == dest / perLine, or v == dest without lineMin |
| ReusePlanRecords.MinTierIsLeast | bench/include/ecg_reuse_plan_builder.h:340-348 | The tier of a line is that of one of its vertices and at most that of every other |
| ReusePlanRecords.PlanUnique | bench/include/ecg_reuse_plan_builder.h:326-395 | The specification allows one plan only, whatever ties there are |
| ReusePlanRecords.EdgeEpoch | bench/include/ecg_reuse_plan_builder.h:428-462 | The single epoch of an edge is that of the earliest reference to exactly the vertices on its line |
| ReusePlanRecords.FirstIsEdgeEpoch | bench/include/ecg_reuse_plan_builder.h:466-468 | With the same epoch count the first epoch of a plan is the single epoch of the edge |
| EpochCounts.Agree | bench/include/ecg_reuse_plan_builder.h:400-456 | For every direction and line layout, the first epoch of the plan is the single epoch on every edge of every graph exactly when the requested count is at most 32768 |
| EpochCounts.Differ | bench/include/ecg_reuse_plan_builder.h:205-208 | For every larger count and every number of vertices from it on, a graph with an edge for which the two builders store different epochs |
| ReusePlanStreams.PlanInRange | bench/include/ecg_reuse_plan_builder.h:541-547 | Every accessed edge has a valid plan with a tier of 1 to 3 and both epochs in range |
| ReusePlanStreams.EdgeLineIs | bench/include/ecg_reuse_plan_builder.h:326-338 | The line a record is computed from lists, for exactly the vertices on the cache line of its destination, all their readers in the graph, sorted |
| ReusePlanStreams.TierByReaders | bench/include/ecg_reuse_plan_builder.h:277-304 | A vertex has tier 1 when fewer than hot_count vertices have more readers, or as many and a smaller id, tier 2 below twice that, and else 3 |
| ReusePlanStreams.EdgeTierIs | bench/include/ecg_reuse_plan_builder.h:340-348 | The tier of a record is a tier of a vertex on the line and at most that of every other |
| ReusePlanStreams.BuildStream | bench/include/ecg_reuse_plan_builder.h:527-548 | One record per accessed edge, in order, between ascending offsets, packing exactly that edge's plan |
| ReusePlanStreams.BuildRecords | bench/include/ecg_reuse_plan_builder.h:510-549 | The wide stream, for every configuration |
| ReusePlanStreams.BuildRecords32 | bench/include/ecg_reuse_plan_builder.h:556-600 | Succeeds exactly for a non-empty graph whose fields fit, with the compact stream |
| ReusePlanStreams.StreamsAgree | bench/include/ecg_reuse_plan_builder.h:551-600 | Whenever the compact build succeeds, it has the positions of the wide one, each record widens to the wide record there, and no tier is 0 |
| RecordValidators.ValidateRecords | bench/include/ecg_reuse_plan_builder.h:602-626 | Accepts exactly the streams that list the graph's destinations in order |
| RecordValidators.SidecarIffRecombines | bench/include/ecg_reuse_plan_builder.h:141-152 | A word is a record's sidecar exactly when it recombines with the destination to the record |
| RecordValidators.ValidateSidecars | bench/include/ecg_reuse_plan_builder.h:628-645 | Accepts exactly when every sidecar word gives its record back |
| RecordValidators.ValidateCompact | bench/include/ecg_reuse_plan_builder.h:647-686 | Accepts exactly the compact streams whose records carry their edges and plans |
| SidecarHash.StepInjective | bench/include/ecg_reuse_plan_sidecar.h:46-48 | A hash step modulo 2^64 is injective in the running hash and in the byte |
| SidecarHash.OneByteChangesHash | bench/include/ecg_reuse_plan_sidecar.h:46-55 | Byte strings that differ in exactly one position have different hashes |
| SidecarHash.HashU64 | bench/include/ecg_reuse_plan_sidecar.h:50-55 | Hashes the eight bytes of a word, lowest first |
| SidecarHash.HashByteIs | bench/include/ecg_reuse_plan_sidecar.h:46-48 | A step is the exclusive or of the whole hash with the byte, times 1099511628211, modulo 2^64 |
| SidecarHash.XorBit | bench/include/ecg_reuse_plan_sidecar.h:47 | Bit i of the exclusive or is set exactly when one of the two bits i is |
| SidecarHash.KnownAnswers | bench/include/ecg_reuse_plan_sidecar.h:46-59 | The hash of no byte and of a byte 0 or 1, as numbers |
| Sidecar.GraphWordsDetermine | bench/include/ecg_reuse_plan_sidecar.h:57-83 | The words hashed for a graph determine its lists, their order, the edge count and the direction |
| Sidecar.OrderedGraphHash | bench/include/ecg_reuse_plan_sidecar.h:57-83 | Computes the hash of exactly those words |
| Sidecar.HashPayload | bench/include/ecg_reuse_plan_sidecar.h:85-97 | Hashes both lengths and both lists at 64 bits |
| Sidecar.HeaderFields | bench/include/ecg_reuse_plan_sidecar.h:22-44 | Every field of the header lies at its byte offset, from 0 to 80, lowest byte first |
| Sidecar.ImageFields | bench/include/ecg_reuse_plan_sidecar.h:130-146 | The offsets follow at byte 88, eight bytes each, and the records behind them, end to end |
| Sidecar.ParseOfImage | bench/include/ecg_reuse_plan_sidecar.h:22-39 | Reading an image back gives the header and the lists that were written |
| Sidecar.ImageOfParse | bench/include/ecg_reuse_plan_sidecar.h:210-220 | Any bytes of the right length are the image of what is read from them |
| SidecarLoader.ListsAreAdjacency | bench/include/ecg_reuse_plan_sidecar.h:225-263 | Accepted records list exactly the adjacency lists end to end, each between its offsets |
| SidecarLoader.GenuineUnique | bench/include/ecg_reuse_plan_sidecar.h:161-273 | A genuine file carries one pair of lists |
| SidecarLoader.OneByteChangesPayloadHash | bench/include/ecg_reuse_plan_sidecar.h:85-97 | One changed stored byte changes the payload hash, for 4-byte and 8-byte records |
| SidecarLoader.OneByteIsNoticed | bench/include/ecg_reuse_plan_sidecar.h:161-273 | Changing any single byte of a genuine file, header or payload, makes it ungenuine |
| SidecarFiles.CheckLists | bench/include/ecg_reuse_plan_sidecar.h:225-263 | Reports the fault of the first faulty vertex, in the order of the loader's tests |
| SidecarFiles.Load | bench/include/ecg_reuse_plan_sidecar.h:161-273 | A file loads exactly when it is what the writer makes for this graph and configuration; otherwise the first failing check is reported |
| SidecarFiles.Write | bench/include/ecg_reuse_plan_sidecar.h:116-146 | The image of the lists with counts, record width and payload hash filled in |
| SidecarFiles.BuiltStreamLists | bench/src_sim/reuse_plan_sidecar.cc:58-68 | The records the builders make are a listing the loader accepts |
| SidecarFiles.Generate | bench/src_sim/reuse_plan_sidecar.cc:39-114 | Whenever the records can be built, the written file passes its own validation and loads the very lists that were written |
| Dueling.ChooseArm | bench/include/ecg_victim_policy.h:155-162 | The incumbent unless some arm has fewer misses, and then the first arm with the fewest |
| Dueling.StepKeepsInv | bench/include/ecg_victim_policy.h:136-183 | Every atomic operation of every concurrent call keeps numbering, chain, counts, the arm each call works for, and that a window installs the winner its call loaded if no arm has fewer misses and otherwise the first arm with the fewest |
| Dueling.EachBoundaryReportedOnce | bench/include/ecg_victim_policy.h:145-148 | In every interleaving each 1024th sample belongs to exactly one call, and that call alone reports its window |
| Dueling.ReportsAreBoundaries | bench/include/ecg_victim_policy.h:145-148 | A completed window is reported only for a boundary that was reached |
| Dueling.WindowsCounted | bench/include/ecg_victim_policy.h:193-195 | With no call under way completedWindows() is the number of calls that reported one |
| Dueling.WinnersChain | bench/include/ecg_victim_policy.h:163-182 | In exchange order the reported transitions form one chain from DUEL_RRIP to the current winner, and every winner is a legal arm |
| Dueling.WindowsInstallFewest | bench/include/ecg_victim_policy.h:149-182 | In every interleaving each reported window installed an arm with the fewest misses of what its call drained: the winner of the moment the call loaded it whenever that has as few, and otherwise the first such arm |
| Dueling.CallSawWinner | bench/include/ecg_victim_policy.h:136-147 | In every interleaving a call that reports no window reports, as before and after, the winner at the moment it loaded it |
| Dueling.CallsLead | bench/include/ecg_victim_policy.h:91-94 | In every interleaving a call counts for the arm numbered set_index % 64 if that is below 5, and otherwise for none |
| Dueling.WaitFree | bench/include/ecg_victim_policy.h:136-183 | Whatever the other calls do, a call has returned after ten operations of its own |
| Dueling.AloneRecords | bench/include/ecg_victim_policy.h:136-183 | From any reachable state, a call that meets no other returns within ten operations and has counted, drained, installed and reported exactly what RecordMiss does |
| Dueling.MissesConserved | bench/include/ecg_victim_policy.h:143-154 | Per arm, counted leader misses equal the live counter plus what calls have drained |
| Dueling.OnlineDuelingSelector.RecordMiss | bench/include/ecg_victim_policy.h:136-183 | For one caller at a time: a set at place 5 or later among 64 changes nothing; a leader counts one miss for its arm; each 1024th installs the arm with the fewest of exactly 1024 misses, the winner on a tie, and clears the counters; the event says so |
| VictimPolicy.CandidatesAreOldest | bench/include/ecg_victim_policy.h:411-413 | After ageing the candidates are the ways that were oldest, or those already at the maximum |
| VictimPolicy.VictimUnique | bench/include/ecg_victim_policy.h:321-430 | The first best candidate is one way |
| VictimPolicy.VictimFields | bench/include/ecg_victim_policy.h:323-430 | In terms of the lines' fields: a property line is evicted only when every line that could go is one, and then, within its tier where the degree decides, it is stamped and at least as far ahead as every stamped line that is not needed right now |
| VictimPolicy.ScanShortCircuit | bench/include/ecg_victim_policy.h:348-356 | The first record, and otherwise the first farthest property line with the highest tier |
| VictimPolicy.ScanEpoch | bench/include/ecg_victim_policy.h:360-374 | The oldest record, else the farthest stamped line, else the oldest line |
| VictimPolicy.ScanDegree | bench/include/ecg_victim_policy.h:380-409 | The oldest record, else the coldest, then farthest, then oldest property line, among the candidates |
| VictimPolicy.ScanRrip | bench/include/ecg_victim_policy.h:414-427 | The oldest record, else the farthest property line, among the candidates |
| VictimPolicy.AgeAndScan | bench/include/ecg_victim_policy.h:323-331 | The ageing loop ends, having added rrpvMax minus the greatest age to every way |
| VictimPolicy.SelectVictim | bench/include/ecg_victim_policy.h:323-430 | For every variant every way ages by the same amount and the victim is the first way that is best in the variant's order, which is defined on the fields of the lines |
| EpochCursor.QuantizeIsTrue | bench/include/gem5_sim/gem5_harness.h:1030-1037 | For every vertex and all counts, the closed form gives the true epoch exactly when that fits 16 bits and the product does not wrap or wraps into the last epoch |
| EpochCursor.QuantizeWraps | bench/include/gem5_sim/gem5_harness.h:1034 | A vertex below the vertex count that gets epoch 0 instead of 2 |
| EpochCursor.QuantizeExact | bench/include/gem5_sim/gem5_harness.h:1030-1037 | The closed form gives the true epoch of every vertex of the graph exactly when the product of its last vertex does not wrap and that vertex's epoch fits 16 bits |
| EpochCursor.AtBoundary | bench/include/gem5_sim/gem5_harness.h:1064-1068 | While no boundary wraps, a vertex has reached an epoch exactly when it has reached the boundary computed for it |
| EpochCursor.CursorExact | bench/include/gem5_sim/gem5_harness.h:1055-1068 | A new cursor finds the true epoch of every vertex of the graph exactly when the largest boundary does not wrap at 64 bits |
| EpochCursor.WalkOn | bench/include/gem5_sim/gem5_harness.h:1055-1061 | Stopping at a smaller vertex on the way does not change where the cursor ends, wrapped boundaries or not |
| EpochCursor.MonotonicEpochCursor.Reset | bench/include/gem5_sim/gem5_harness.h:1048-1053 | Starts at epoch 0 with the first boundary, wrapped at 64 bits as the source computes it |
| EpochCursor.MonotonicEpochCursor.EpochOf | bench/include/gem5_sim/gem5_harness.h:1055-1061 | Ends at the first epoch from its own on whose next boundary the vertex has not reached; without a wrap, in the farther of its epoch and the vertex's |
| EpochCursor.EpochQuantizer.Reset | bench/include/gem5_sim/gem5_harness.h:1085-1093 | The table holds exactly the boundaries, each wrapped at 64 bits as the source computes it |
| EpochCursor.EpochQuantizer.EpochOf | bench/include/gem5_sim/gem5_harness.h:1095-1100 | A place in the table where the boundaries pass the vertex, cut to 16 bits; without a wrap, the true epoch |
| EpochCursor.LocatedIsTrue | bench/include/gem5_sim/gem5_harness.h:1095-1100 | Without a wrap the only place where the boundaries pass a vertex is its epoch |
| EpochCursor.TableExact | bench/include/gem5_sim/gem5_harness.h:1085-1100 | The table locates every vertex of the graph at its true epoch exactly when the largest boundary does not wrap at 64 bits |
| EpochCursor.Sweep | bench/include/gem5_sim/gem5_harness.h:1048-1061 | A sweep that never steps back gets for every vertex what a new cursor gets for it alone, and its true epoch if no boundary wraps |
| EpochCursor.AllAgree | bench/include/gem5_sim/gem5_harness.h:1030-1104 | Cursor, table and closed form give the true epochs of every sweep that never steps back and in which neither a boundary nor a product wraps |
| EpochCursor.Fits32 | bench/include/gem5_sim/gem5_harness.h:1030-1104 | With vertices and counts of 32 bits neither a boundary nor a product wraps |
| EpochCursor.FitsGraph | bench/include/gem5_sim/gem5_harness.h:1030-1104 | For the vertices of a graph, whether everything fits is a condition on the two counts |

## Left out

- The memory model below sequential consistency and OpenMP scheduling: concurrent code is interleavings of atomic steps.
- Concurrency of BFS, delta-stepping and the sampler: those kernels are modelled with one thread, as the simulators run them.
- Dueling counters are unbounded; the 64-bit sample counter would wrap after 2^64 samples.
- variantForSet, which looks the variant of a set's arm up: the leader's own arm, or the current winner.
- The second selector, OnlinePlacementSelector, which stores its winner without reporting transitions.
- PageRank and the backward Brandes pass: floating-point sums without an exact specification. Path counts are unbounded.
- DeltaStepping.ProcessBin: the two alternating index slots of the source are one bin index handed from one iteration to the next, and the frontier is a growable sequence.
- ReusePlanStreams.BuildStream: records are appended in order, where the source fills preallocated positions in any order.
- The nested plan builder buildInEdgeReusePlans, which stores the same plans unpacked, and prefetchKeep.
- std::sort and std::stable_sort are an insertion sort that is proved to sort; unordered_map iteration is an arbitrary order.
- ReusePlanBuilder.BuildReuseTiers: the number of hot vertices is an argument, not a floating-point fraction; the sidecar header takes the fraction in parts per million.
- SidecarFiles.Load: the length of the file is compared without 64-bit wrap-around, which a graph that fits in memory cannot reach; file system errors and temporary files are left out.
- BfsKernel.TDStep: the scout count and the edges left to check only steer the choice of phase, so nothing is claimed about them.
- What only affects speed: the tests that choose the phase of a search, the number of sampling rounds and the draining of a bin in place are modelled, and the results hold without regard to them.
- BitFields: relates the bit operations to sums of machine words; that a sum without overflow is the same number as its unbounded sum is taken as the meaning of machine words.
- EpochCursor.EpochQuantizer.EpochOf: on a table whose boundaries wrapped, the standard leaves std::upper_bound undefined; the binary search of its usual implementation is modelled.
- Hawkeye: crc32 is an arbitrary function; tags of different lines and of different cache sets may collide, as in the source.
- Hawkeye.State.AccessRing: the ring is updated after the sampler row, where the source interleaves the two; they share no state.
- Environment variables, receipts, timers, cache-access macros, prefetch hints, inline assembly, the Python scripts, and the simulator overlays.
- cache_sim.h, graph_cache_context.h and popt.h are not part of this model.
