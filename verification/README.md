# Sedimentree verification

A Dafny model of the Sedimentree metadata engine: how commit history is cut into
fragments, how the resulting trees are merged, minimized, sorted and reconciled
between peers, how their entries are encoded and stored, and how connection
nonces are remembered. `dafny verify dfyconfig.toml` checks everything.

## How to read it

Commit history is a finite map from commit to parents (`Walk.Store`). Depth
metrics, content digests, fingerprints, 12-byte truncation and the integer codec
are parameters; where a result needs them collision free or lawful it says so.
Hash-map and queue orders are arbitrary choices, so every result holds for all of
them. Acyclicity is a rank function. The walk, the drivers, merge, sorting and single
rounds need none; where a cycle can break a claim about stripping, coverage or
minimization the exact condition is stated, and the acyclic case follows. Runs of a
network assume it.

- `Graph`, `Ids`, `Bytes`: least closed sets, arbitrary iteration order, byte order.
- `Walk`, `Build`, `BuildParallel`, `Agreement`, `Coverage`, `Cycles`: the fragment walk,
  the two drivers, the post-pass that strips in place, what the store covers, and what
  cycles of fragments do to it.
- `Strata`, `KeepSets`, `Simplify`, `Minimize`: support between fragments and the
  minimization of fragments and of loose commits.
- `Trees`, `Sedimentrees`: tie-broken merge and the mutable tree, over every run.
- `Topsort`: the dependency graph, Kahn's algorithm, cycles.
- `Sync`, `Convergence`, `Gaps`, `Payloads`, `Network`: one fingerprint round, when it
  delivers everything, when it falls silent, what rounds, merges and minimization do to
  stripped payloads, and runs of a whole network.
- `NonceCache`: the four-slot ring as an expiring set.
- `Codec`, `FsWriter`, `FsReaders`: field encodings, crash safety, deterministic reads.

Terms used below. The *raw walk* of a head is its walk before any stripping
(`Walk.Raw`); the *canonical* form of a fragment is its raw walk less those of its
transitive ancestors. A map of fragment states is *sound* (`Build.Sound`) if each
state lies between the two; the empty map is, every build leaves it so, and it stays
so as the history grows. A head *settles* (`Build.Settles`) if it is its own ancestor,
or its ancestors hold all it shares with them even in canonical form.

A fragment is a *true walk* if its metadata is the unstripped walk of its head. A tree
is *honest* if its fragments are true walks and its loose commits carry the parents of
the shared history, and *grounded* if its fragments have exactly the boundaries of
their walks, as stripped ones still do. The *cover* of a tree is its loose commits plus
the raw walks of its fragments. A peer is *stocked* if every member of a fragment's
walk is held by that fragment or one behind it, and *supplied* if besides it holds the
payload of its own boundary commits.

## Where code and documentation differ

The model follows the code.

- Commits of the head's own depth become boundary (sedimentree_core/src/commit.rs:121),
  though the text at lines 68-78 has them absorbed.
- On a key collision the lowest digest wins (sedimentree_core/src/sedimentree.rs:222-228),
  not the first item (lines 214-216).
- The nonce guarantee is three bucket lengths, not the twelve minutes of
  subduction_core/src/nonce_cache.rs:21-22 (`NonceCache.AcceptedTwiceInTenMinutes`).
- The parallel driver does not look past fragments known beforehand
  (`Agreement.DriversAgreeIff`), and may leave history behind them uncovered
  (`Coverage.ParallelCoversIff`).
- The test at sedimentree_core/src/sedimentree.rs:1672-1689 has no kept fragment
  support another. Support by a strictly deeper one never survives, but at equal
  depth it can, one way (`Minimize.LevelSupportSurvives`; exactly when, in
  `Minimize.KeptSupportIff`), and on an acyclic history never both ways.
- Pruning starts from tips, so a loose commit with no tip above it is lost
  (`Simplify.SelfParentVanishes`).

## Model

| member | source | states |
|---|---|---|
| `Walk.CutFragment` | sedimentree_core/src/commit.rs:87-154 | On every finite store, cyclic or not, and for every queue order, the worklist returns exactly the closure of the head through shallower commits, less the members of known fragments on its boundary; the boundary is exactly the other parents, with their nodes, and the checkpoints are the deep members left besides the head; it fails with a missing commit iff closure or boundary is incomplete, and the reported id is one of the absent ones; a depth-0 head is refused |
| `Walk.Gather` | sedimentree_core/src/commit.rs:98-140 | The search loop: what it found is closed under parents into members plus boundary, checkpoints are the non-head members of nonzero depth, and an absent id it reports was really met |
| `Walk.StripKnown` | sedimentree_core/src/commit.rs:142-151 | The inline strip removes from members and checkpoints exactly what known fragments headed on the boundary hold |
| `Walk.RawShallower` | sedimentree_core/src/commit.rs:110-140 | Every member other than the head is strictly shallower than the head, so same-depth commits stop the walk |
| `Walk.RawParents` | sedimentree_core/src/commit.rs:110-140 | Members are closed under parents into members plus boundary |
| `Build.TransitiveAncestorMembers` | sedimentree_core/src/commit.rs:494-513 | The visited-set loop collects the members of exactly the known fragments reachable through boundary chains |
| `Build.AncestorsHoldAll` | sedimentree_core/src/commit.rs:213-238 | Where fragments form no cycle: however far stripping has come, the ancestors of a fragment together still hold every raw member of every ancestor; this is why stripping in place is order independent there |
| `Build.RetainIsCanonical` | sedimentree_core/src/commit.rs:213-238 | From any half-stripped map the post-pass step at a head that settles lands on raw members minus the raw members of all transitive ancestors |
| `Build.RetainIsCanonicalIff` | sedimentree_core/src/commit.rs:213-238 | It does so from every sound map over the same heads if and only if the head settles: it is its own ancestor, or its ancestors, stripped to the limit, hold all it shares with them |
| `Build.StrippingStaysSound` | sedimentree_core/src/commit.rs:474-480 | On any store, cyclic ones too, a step takes away exactly what the ancestors hold and leaves the map sound |
| `Build.CanonicalIsLeast` | sedimentree_core/src/commit.rs:213-238 | The canonical states together are sound, and no sound map over the same heads holds less |
| `Build.LayeredSettles` | sedimentree_core/src/commit.rs:213-238 | Where fragments form no cycle every head settles |
| `Build.FreshIsSound` | sedimentree_core/src/commit.rs:142-151 | An inline-stripped walk joins the map without breaking the build invariant |
| `Build.StripAncestors` | sedimentree_core/src/commit.rs:213-238 | The mutating post-pass, on any store, over any list of heads in any order, repeats allowed: the map stays sound, each listed fragment that settles ends canonical and every other state is untouched |
| `Build.Visit` | sedimentree_core/src/commit.rs:180-211 | One worklist step builds the fragment iff there is one to build, and queues the parents of a loose head, the boundary of a fragment, or nothing when history is missing |
| `Build.Discover` | sedimentree_core/src/commit.rs:176-211 | For every worklist order the discovery loop builds exactly the complete heads the driver can reach, once each |
| `Build.BuildFragmentStore` | sedimentree_core/src/commit.rs:170-246 | From any sound map, on any store: fresh heads are exactly the reachable complete ones, each fresh state that settles is raw minus all transitive ancestors relative to the final map, checkpoints are the deep members left besides the head, old states are unchanged, and the returned list is the fresh states, once each |
| `Build.SoundGrows` | sedimentree_core/src/commit.rs:170-178 | What a build left stays sound in every longer history, so every later build may start from it |
| `Build.AcyclicIsLayered` | sedimentree_core/src/commit.rs:170-246 | Acyclic histories meet the hypothesis that fragments form no cycle, for any depth metric |
| `BuildParallel.PastLoose` | sedimentree_core/src/commit.rs:297-328 | The horizon walk past loose commits loses none of them: every one is replaced by known, queued or walked parents |
| `BuildParallel.BuildLevel` | sedimentree_core/src/commit.rs:335-348 | Every complete head of the level is built against one and the same snapshot, incomplete ones are skipped |
| `BuildParallel.MergeLevel` | sedimentree_core/src/commit.rs:350-362 | Merging a level, duplicates included, adds exactly its heads, keeps the build invariant and yields exactly their boundaries as the next horizon |
| `BuildParallel.DiscoverPar` | sedimentree_core/src/commit.rs:286-365 | The level loop ends, and finds exactly the complete heads reachable without looking past fragments known at the start |
| `BuildParallel.BuildFragmentStorePar` | sedimentree_core/src/commit.rs:274-388 | The level-parallel build in the same terms as the sequential one: exact fresh heads, canonical states where they settle, old states unchanged, for any duplicates within a level |
| `Agreement.BuildBothWays` | sedimentree_core/src/commit.rs:170-388 | Sequential and parallel builds of one store from a boundary-closed map (the empty one included), under any arrangements of the heads, end with the same heads and with equal states wherever these settle |
| `Agreement.DriversAgreeIff` | sedimentree_core/src/commit.rs:274-388 | The two drivers find the same heads for all lists of heads if and only if every complete boundary commit of a known fragment is itself known |
| `Agreement.NothingKnown` | sedimentree_core/src/commit.rs:170-178 | A build from an empty map meets all hypotheses |
| `Agreement.IncompleteStops` | sedimentree_core/src/commit.rs:188-211 | Neither driver looks past a head with incomplete history: asked for it alone it builds nothing |
| `Agreement.ParallelStopsAtKnown` | sedimentree_core/src/commit.rs:291-295 | Counterexample without the condition: a known fragment with an unknown boundary commit is looked past by the sequential driver only |
| `Coverage.StrippingConserves` | sedimentree_core/src/commit.rs:142-238 | Where fragments form no cycle, the union of members equals the union of raw walks at every point of a build |
| `Coverage.ConservesIff` | sedimentree_core/src/commit.rs:142-238 | Every sound map over given heads conserves the union of raw walks if and only if each raw member has a holder that shares it with no ancestor |
| `Coverage.HeadsStayIff` | sedimentree_core/src/commit.rs:213-238 | Every sound map over given heads keeps each head in its own fragment if and only if no ancestor walk holds it |
| `Coverage.HeadsStay` | sedimentree_core/src/commit.rs:213-238 | On an acyclic history every fragment keeps its own head throughout |
| `Cycles.CycleVanishes` | sedimentree_core/src/commit.rs:213-238 | Counterexample on a cycle of fragments: two commits of equal depth that are each other's parent are both emptied by the post-pass |
| `Cycles.RingIsShadowed` | sedimentree_core/src/commit.rs:213-238 | There both conditions for conservation fail, while each head settles on its empty canonical form |
| `Cycles.OrderMatters` | sedimentree_core/src/commit.rs:213-238 | Counterexample to order independence: a fragment above such a ring keeps a shared loose commit or gives it up, depending on which is stripped first |
| `Coverage.HeadIsOwn` | sedimentree_core/src/commit.rs:213-238 | No transitive ancestor of a fragment holds its head |
| `Coverage.DisjointFromAncestors` | sedimentree_core/src/commit.rs:213-238 | After the post-pass a fragment shares no member with any fragment behind it |
| `Coverage.BuildCovers` | sedimentree_core/src/commit.rs:176-238 | From any sound known map, with complete history and no member shadowed, every commit reachable from the heads is met through depth-0 commits only or is a member of some fragment of the final map; the raw walks of the fragments met add nothing outside that history |
| `Coverage.FirstBuildCovers` | sedimentree_core/src/commit.rs:176-238 | From an empty map the two parts make up the reachable history exactly |
| `Coverage.ParallelCoversIff` | sedimentree_core/src/commit.rs:286-365 | The parallel driver covers every complete history it is asked for if and only if the known fragments hold each other's complete histories |
| `Coverage.HistoryHeldIff` | sedimentree_core/src/commit.rs:286-365 | Where no parent is missing, that condition is: every boundary commit of a known fragment lies in some known raw walk |
| `Coverage.ParallelLeavesUncovered` | sedimentree_core/src/commit.rs:291-295 | Counterexample without it: a commit behind a known fragment stays uncovered by the parallel driver and not by the sequential one |
| `Strata.CutTrueWalk` | sedimentree_core/src/commit.rs:87-154 | A walk with nothing known gives metadata that is the true, unstripped walk of its head, iff depth and history allow |
| `Strata.Nesting` | sedimentree_core/src/commit.rs:98-140 | If one head is a non-head member of another walk, the inner walk lies within the outer, and inner boundary commits are outer checkpoints or boundary (or, only in a cyclic store, the outer head) |
| `Strata.NestingAcyclic` | sedimentree_core/src/commit.rs:98-140 | On an acyclic store inner boundary commits are outer checkpoints or boundary commits |
| `Strata.NestingSupports` | sedimentree_core/src/fragment.rs:96-128 | Then the outer fragment supports the inner, with no assumption on truncation |
| `Ids.TruncationInjectiveIff` | sedimentree_core/src/fragment/checkpoint.rs:32-43 | When checkpoints can stand for identifiers: exactly if any two of the 32-byte identifiers differ within their first 12 bytes |
| `Strata.SupportsIff` | sedimentree_core/src/fragment.rs:96-128 | For arbitrary metadata the tests come down to one: no deeper, and head and boundary all within head, checkpoints and boundary of the other |
| `Strata.DominatesIff` | sedimentree_core/src/fragment.rs:96-128 | Between true walks with collision-free checkpoints, support by a strictly deeper fragment holds iff the head is a non-head member |
| `Strata.LevelSupportIff` | sedimentree_core/src/fragment.rs:96-128 | At equal depth a true walk supports another iff that head is on its boundary and that boundary reaches no further |
| `Strata.NoMutualSupport` | sedimentree_core/src/sedimentree.rs:1672-1689 | Two different walks of an acyclic history never support each other both ways |
| `Strata.DominatesTransitive` | sedimentree_core/src/fragment.rs:96-128 | Domination between true walks is transitive, with walks nested accordingly |
| `Trees.MergeInto` | sedimentree_core/src/sedimentree.rs:236-243 | Inserting one map into another in any iteration order gives the pointwise lower-digest map |
| `Trees.Collect` | sedimentree_core/src/sedimentree.rs:220-233 | Building from a list keeps per head an item of lowest digest, not the first |
| `Trees.InsertLowest` | sedimentree_core/src/sedimentree.rs:27-38 | A tie-broken insert keeps "lowest item per head among those delivered" |
| `Trees.MergeLowest` | sedimentree_core/src/sedimentree.rs:236-243 | A merge holds the lowest items of both deliveries |
| `Trees.LowestUnique` | sedimentree_core/src/sedimentree.rs:27-38 | Unless two items tie for the lowest digest of a head, the set of delivered items alone determines the map |
| `Trees.LowestUniqueIff` | sedimentree_core/src/sedimentree.rs:27-38 | And only then: where two items tie, the set of items admits two maps |
| `Trees.MergeCommutes` | sedimentree_core/src/sedimentree.rs:236-243 | Merge is idempotent, and commutative if and only if no two different items of one head share a digest |
| `Trees.MergeKeeps` | sedimentree_core/src/sedimentree.rs:27-38 | A head on one side keeps its item; on both the lower digest wins, and on a tie the item already held, not the newcomer |
| `Trees.MergeAssociates` | sedimentree_core/src/sedimentree.rs:236-243 | Merge is associative, collisions or not |
| `Sedimentrees.Sedimentree.constructor` | sedimentree_core/src/sedimentree.rs:220-233 | A new tree holds the lowest item per head of its inputs, filed under their own heads |
| `Sedimentrees.Sedimentree.AddCommit` | sedimentree_core/src/sedimentree.rs:278-292 | Reports whether the head was new; the new state is the tie-broken insert, fragments untouched |
| `Sedimentrees.Sedimentree.AddFragment` | sedimentree_core/src/sedimentree.rs:297-311 | The same for fragments, commits untouched |
| `Sedimentrees.Sedimentree.Merge` | sedimentree_core/src/sedimentree.rs:236-243 | The new state is the merge of the two values |
| `Sedimentrees.Sedimentree.MinimizeInPlace` | sedimentree_core/src/sedimentree.rs:589-598 | The new state is the same minimized tree that the rebuilding form returns |
| `Sedimentrees.RunHoldsLowest` | sedimentree_core/src/sedimentree.rs:220-311 | After every run of new, add and merge steps, nested merges included, the tree holds per head the lowest item ever delivered to it |
| `Sedimentrees.SameItemsSameTree` | sedimentree_core/src/sedimentree.rs:220-311 | Strong eventual consistency: runs that delivered the same items, in any order and multiplicity, end in equal trees, unless items of one head tie for the lowest digest |
| `Sedimentrees.TieDiverges` | sedimentree_core/src/sedimentree.rs:27-38 | The excluded case: of two fragments of one head and one digest the first to arrive stays, so replicas that hear them in different order differ |
| `KeepSets.KeepSetUnique` | sedimentree_core/src/sedimentree.rs:606-668 | For arbitrary metadata there is exactly one set in which a fragment belongs iff no strictly deeper member supports it |
| `KeepSets.KeptSupportIsLevel` | sedimentree_core/src/sedimentree.rs:629-635 | Whatever the metadata, a kept fragment supports another kept one only at equal depth |
| `KeepSets.KeepSetIdempotent` | sedimentree_core/src/sedimentree.rs:606-668 | Minimizing fragments twice is minimizing them once |
| `KeepSets.DescendingDepths` | sedimentree_core/src/sedimentree.rs:626-627 | The distinct depths, strictly descending |
| `KeepSets.GroupByDepth` | sedimentree_core/src/sedimentree.rs:615-624 | Every fragment is grouped under its own depth and no other |
| `KeepSets.SweepGroup` | sedimentree_core/src/sedimentree.rs:628-668 | One depth group against the deeper kept fragments gets its final verdicts |
| `KeepSets.SweepFragments` | sedimentree_core/src/sedimentree.rs:606-668 | The deepest-first sweep computes that unique set for every iteration order |
| `Simplify.RangeWalk` | sedimentree_core/src/sedimentree/commit_dag.rs:128-225 | The downward walk from the tips visits exactly the (commit, range head) pairs reachable by its step rule |
| `Simplify.Simplified` | sedimentree_core/src/sedimentree/commit_dag.rs:128-225 | The surviving commits are exactly those in no range or in some uncovered range |
| `Simplify.SurvivesIff` | sedimentree_core/src/sedimentree/commit_dag.rs:128-225 | For any commits and metadata, what survives is the loose tips, the deep commits below a tip that are no head or checkpoint of a fragment, and what hangs from either through loose commits only |
| `Simplify.DeepSurvivesIff` | sedimentree_core/src/sedimentree/commit_dag.rs:207-222 | A deep commit survives iff it lies below a tip and is no head or checkpoint of a fragment |
| `Simplify.WalkSurvivesIff` | sedimentree_core/src/sedimentree/commit_dag.rs:207-222 | Against true walks a deep commit survives iff it lies below a tip and in no fragment: what is covered is pruned |
| `Simplify.PruningIdempotent` | sedimentree_core/src/sedimentree/commit_dag.rs:128-225 | On acyclic commits pruning twice is pruning once, though pruning makes new tips |
| `Simplify.PruningIdempotentIff` | sedimentree_core/src/sedimentree/commit_dag.rs:128-225 | On any commits pruning twice is pruning once if and only if every survivor of the first lies below a tip of what is left, which can be checked before the second |
| `Simplify.CycleGoesSecond` | sedimentree_core/src/sedimentree/commit_dag.rs:128-235 | Counterexample: two commits that are each other's parent survive below a covered tip, and go in the second pruning |
| `Simplify.MetIsBelow` | sedimentree_core/src/sedimentree/commit_dag.rs:128-225 | The range walk meets exactly the commits below a tip |
| `Simplify.SurvivorsWithoutFragments` | sedimentree_core/src/sedimentree/commit_dag.rs:128-225 | Without fragments exactly the commits below some tip survive, for every finite commit map: lossless iff each has a tip above it |
| `Simplify.SelfParentVanishes` | sedimentree_core/src/sedimentree/commit_dag.rs:128-235 | Counterexample on a cycle: a commit that is its own parent has no tip above it and is dropped though nothing covers it |
| `Simplify.PrunedIsCovered` | sedimentree_core/src/sedimentree/commit_dag.rs:128-225 | Every pruned loose commit that lies below a tip is a raw member of one of the given fragments, stripped or not |
| `Minimize.MinimizeTree` | sedimentree_core/src/sedimentree.rs:554-575 | The rebuilding form returns the minimized tree |
| `Minimize.SurvivingHeads` | sedimentree_core/src/sedimentree.rs:606-678 | The heads kept in both maps, shared by both forms |
| `Minimize.KeepsTheMaximal` | sedimentree_core/src/sedimentree.rs:606-668 | For true walks the kept fragments are exactly those whose head is a non-head member of no fragment in the tree |
| `Minimize.DroppedWalkIsKept` | sedimentree_core/src/sedimentree.rs:606-668 | Each dropped walk lies within the walk of a single kept, strictly deeper fragment |
| `Minimize.KeptSupportIff` | sedimentree_core/src/sedimentree.rs:1672-1689 | Exactly which support is left among kept true walks: equal depth, head on the boundary, boundary reaching no further |
| `Minimize.LevelSupportSurvives` | sedimentree_core/src/sedimentree.rs:1672-1689 | Counterexample to the test that forbids it: of two walks of equal depth the upper supports the lower and both are kept |
| `Minimize.MinimizeConservesCover` | sedimentree_core/src/sedimentree.rs:554-678 | On an acyclic history minimizing an honest tree keeps it honest and conserves its whole cover |
| `Minimize.MinimizeConservesCoverIff` | sedimentree_core/src/sedimentree.rs:554-678 | On any history the cover is conserved if and only if every loose commit lies below a tip or inside a fragment of the tree |
| `Minimize.MinimizeIdempotent` | sedimentree_core/src/sedimentree.rs:554-678 | A second minimization changes nothing, for arbitrary fragment metadata over acyclic loose commits |
| `Minimize.MinimizeIdempotentIff` | sedimentree_core/src/sedimentree.rs:554-678 | On any tree a second minimization changes nothing if and only if the loose commits left lie below their own tips, which can be checked before it |
| `Minimize.MinimizeThenMerge` | sedimentree_core/src/sedimentree.rs:236-243 | True walks of one history merge confluently, whatever payloads equivocate |
| `Minimize.ConfluentIff` | sedimentree_core/src/sedimentree.rs:606-668 | For arbitrary metadata of the same ranges on common heads, minimize(merge(minimize a, minimize b)) equals minimize(merge(a, b)) if and only if each item the merge keeps, one side kept |
| `Minimize.TransitiveConfluent` | sedimentree_core/src/sedimentree.rs:606-668 | That follows whenever domination is transitive on the merged map, even where payloads of one range differ |
| `Minimize.MinimizeThenMergeNeedsWalks` | sedimentree_core/src/sedimentree.rs:606-668 | Counterexample on arbitrary metadata: minimizing first loses a fragment that minimizing last keeps |
| `Topsort.IndexHeads` | sedimentree_core/src/sedimentree.rs:443-447 | Positions by head, one for each head |
| `Topsort.LinkFragment` | sedimentree_core/src/sedimentree.rs:456-463 | Linking one fragment extends counts and adjacency by exactly the fragments heading its boundary |
| `Topsort.LinkLoose` | sedimentree_core/src/sedimentree.rs:475-495 | Linking one loose commit extends them by exactly the items heading its parents, each dependency once |
| `Topsort.TallyEdges` | sedimentree_core/src/sedimentree.rs:431-495 | In-degree array and adjacency lists represent the dependency graph exactly |
| `Topsort.LeansIff` | sedimentree_core/src/sedimentree.rs:453-495 | The edges are exactly: a fragment on the fragments that head its boundary, a loose commit on the fragments and loose commits that head its parents |
| `Topsort.Release` | sedimentree_core/src/sedimentree.rs:512-517 | Counting down the dependents of an item never underflows, and returns exactly the items that became free, once each |
| `Topsort.Kahn` | sedimentree_core/src/sedimentree.rs:497-518 | The queue loop ends with an order whose elements are exactly the items all of whose dependencies were emitted before, each queued once |
| `Topsort.EmitsTheFree` | sedimentree_core/src/sedimentree.rs:497-528 | Such an order is exactly the items with no cycle at or behind them, for every graph |
| `Topsort.FreeIffAcyclic` | sedimentree_core/src/sedimentree.rs:520-528 | All items are free iff no item lies on a cycle |
| `Topsort.TopsortedBlobOrder` | sedimentree_core/src/sedimentree.rs:431-528 | Succeeds iff the dependency graph is acyclic; then lists every item once, no fragment before one that heads its boundary and no loose commit before what heads its parents; otherwise some items hold each other up by naming each other's heads, and total less sorted is the size of the largest such set |
| `Topsort.TopsortTree` | sedimentree_core/src/sedimentree.rs:431-440 | The same of a tree: its items are listed once each, and sorted or found to hold each other up |
| `Sync.WalkCovered` | sedimentree_core/src/sedimentree.rs:832-853 | The pruning walk computes the least set closed under its step rule |
| `Sync.DiffRemoteFingerprints` | sedimentree_core/src/sedimentree.rs:793-907 | The diff: local items minus named and covered ones, and echoed remote fingerprints |
| `Sync.ReverseLookup` | sedimentree_core/src/sedimentree.rs:749-783 | The lookup table inverts the fingerprints of the items in the tree |
| `Sync.FingerprintResolver` | sedimentree_core/src/sedimentree.rs:749-783 | Summary and lookup tables agree with the tree they were taken from |
| `Sync.DiffByIds` | sedimentree_core/src/sedimentree.rs:711-907 | Without fingerprint collisions the fingerprint diff is the identifier diff, in all four parts |
| `Sync.Resolved` | sedimentree_core/src/sedimentree.rs:749-783 | Echoed fingerprints resolve to exactly the items they came from |
| `Sync.SyncRound` | sedimentree_core/src/sedimentree.rs:711-907 | One full round (summary, diff and echo, resolve and answer, ingest), for any fingerprints: what each side takes in, one item for each echoed fingerprint that resolves; without collisions it computes the two after-states used below |
| `Sync.AnsweredOnce` | sedimentree_core/src/sedimentree.rs:749-783 | An echoed fingerprint is answered if some item has it, by one item, and nothing else is sent |
| `Convergence.PruningSound` | sedimentree_core/src/sedimentree.rs:799-853 | Everything withheld is named by the remote or is a raw member of one of its fragments |
| `Convergence.PruningComplete` | sedimentree_core/src/sedimentree.rs:832-853 | And it prunes: a walk of the remote that is loose here, with nothing in it named but fragment heads, is not sent |
| `Convergence.RoundDeliversIff` | sedimentree_core/src/sedimentree.rs:711-907 | One round brings a peer everything the other covers if and only if it names no boundary commit that it lacks and that only loose commits of the other could supply; fragments may be stripped |
| `Convergence.RoundConverges` | sedimentree_core/src/sedimentree.rs:711-907 | With boundaries covered, one round leaves both covers equal to the union, and the hypotheses hold again for the next round |
| `Convergence.RoundHonest` | sedimentree_core/src/sedimentree.rs:711-907 | Peers that hold true walks hold true walks after a round |
| `Convergence.TwoRoundsQuiet` | sedimentree_core/src/sedimentree.rs:711-907 | After two rounds, between any two peers over one history, a further round would transfer nothing |
| `Convergence.RoundQuietsIff` | sedimentree_core/src/sedimentree.rs:793-907 | One round leaves the peers quiet if and only if the next pruning walk, computed from the two trees before the round, reaches every withheld commit the requestor does not name by then |
| `Convergence.LevelRoundQuiets` | sedimentree_core/src/sedimentree.rs:711-907 | One round suffices when the fragment heads already agree |
| `Convergence.QuietIsFixpoint` | sedimentree_core/src/sedimentree.rs:793-907 | On a quiet pair a round changes neither peer, and the diff is empty in all four parts |
| `Gaps.NamedButMissing` | sedimentree_core/src/sedimentree.rs:799-853 | Counterexample without covered boundaries: a named boundary commit the requestor lacks is never sent |
| `Gaps.OneRoundMayNotQuiet` | sedimentree_core/src/sedimentree.rs:832-853 | Counterexample: covers are equal after one round, yet the next round still sends a commit, because a new boundary name cuts the pruning walk |
| `Payloads.SoundIsStocked` | sedimentree_core/src/commit.rs:213-238 | What the drivers leave is stocked: every member of a walk is held by its fragment or by one behind it |
| `Payloads.SoundUnion` | sedimentree_core/src/commit.rs:213-238 | Fragments stripped by different builds, one of two for each common head, make a sound map together |
| `Payloads.MixIsStocked` | sedimentree_core/src/sedimentree.rs:236-243 | However two stocked maps are mixed, head by head, the result is stocked |
| `Payloads.PayloadIsCover` | sedimentree_core/src/commit.rs:213-238 | The payloads a peer holds, loose commits and stripped members, add up to its cover |
| `Payloads.PayloadsDeliverIff` | sedimentree_core/src/sedimentree.rs:711-907 | One round between peers with stripped fragments brings one every payload of the other if and only if it leaves no gap |
| `Payloads.PayloadsConverge` | sedimentree_core/src/sedimentree.rs:711-907 | One round between supplied peers leaves both with every payload either held, and supplied again |
| `Payloads.MergeSupplies` | sedimentree_core/src/sedimentree.rs:236-243 | Whichever of two differently stripped fragments of one head the tie-break drops, merging loses no payload |
| `Payloads.KeptMembers` | sedimentree_core/src/sedimentree.rs:606-668 | Dropping dominated fragments loses no payload, stripped or not |
| `Payloads.StrippedDominatesIff` | sedimentree_core/src/fragment.rs:96-128 | Exactly when one stripped fragment dominates another, in terms of the states: strictly deeper, head among the checkpoints left, boundary among these, the outer boundary and the outer head |
| `Payloads.StrippedKeepSet` | sedimentree_core/src/sedimentree.rs:606-668 | So which fragments of a peer are kept |
| `Payloads.StrippedSurvivesIff` | sedimentree_core/src/sedimentree/commit_dag.rs:207-222 | And which deep loose commits survive: those below a tip that are no kept head and no checkpoint left |
| `Payloads.StrippedKeepsMore` | sedimentree_core/src/fragment.rs:112-114 | Counterexample to membership as the rule: stripped of a boundary commit of an inner fragment, the outer one no longer dominates it |
| `Payloads.TidySupplies` | sedimentree_core/src/sedimentree.rs:554-678 | Minimizing a peer with stripped fragments conserves its payload and leaves it supplied, if each loose commit lies below a tip or inside a fragment |
| `Payloads.BuiltStoreMinimizes` | sedimentree_core/src/sedimentree.rs:606-668 | The stripped fragments a driver leaves lose no member when dominated ones are dropped |
| `Payloads.BuiltIsCarried` | sedimentree_core/src/commit.rs:459-468 | The tree made of a driver's map carries that map, stripped as it is |
| `Payloads.FirstBuildHoldsBoundaries` | sedimentree_core/src/commit.rs:170-246 | A first build over complete history holds the payload of every boundary commit |
| `Payloads.FirstBuildSupplies` | sedimentree_core/src/commit.rs:170-246 | So the peer it makes is supplied |
| `Payloads.HonestIsSupplied` | sedimentree_core/src/commit.rs:87-154 | A peer with true walks that covers its boundaries is supplied, and its payload is its cover |
| `Network.StepRefines` | sedimentree_core/src/sedimentree.rs:278-907 | Any exchange, merge, minimization, new commit or new build, by any peers of a network, stripped fragments included, keeps every peer supplied and acts on payloads as gossip of sets |
| `Network.CompactAdds` | sedimentree_core/src/sedimentree.rs:297-311 | A build is taken in by a peer that holds what it was cut from, head by head; without that nothing changes, and no other peer does |
| `Network.RunRefines` | sedimentree_core/src/sedimentree.rs:278-907 | Over every run of such steps the payloads of all peers evolve exactly as the gossip machine |
| `Network.KnowsWhatItHeard` | sedimentree_core/src/sedimentree.rs:711-907 | A peer ends up knowing a commit iff a peer it heard from, directly or through others, knew it at the start or authored it before being heard from |
| `Network.GossipConverges` | sedimentree_core/src/sedimentree.rs:554-907 | A peer that heard from all, and from each author since, holds exactly what all peers held or authored, with merges, minimizations and new fragments anywhere in between |
| `NonceCache.Cache.constructor` | subduction_core/src/nonce_cache.rs:74-84 | A new ring represents the empty window, for any bucket duration |
| `NonceCache.Cache.AdvanceHead` | subduction_core/src/nonce_cache.rs:131-140 | The clearing loop makes the ring represent the window with everything before the new head forgotten, and nothing else |
| `NonceCache.Cache.TryClaim` | subduction_core/src/nonce_cache.rs:94-129 | The four-slot ring refines an expiring set for every timestamp, in or out of order: accepted iff not remembered, then remembered in one slot; a zero bucket duration panics and changes nothing |
| `NonceCache.ClaimInWindow` | subduction_core/src/nonce_cache.rs:94-140 | A claim keeps every remembered pair within the four buckets from the head |
| `NonceCache.ForgetHead` | subduction_core/src/nonce_cache.rs:131-140 | Clearing the head slot forgets the head bucket and nothing else |
| `NonceCache.FileClaim` | subduction_core/src/nonce_cache.rs:94-129 | An accepted pair is in the slot of its bucket and in no other |
| `NonceCache.RememberedIff` | subduction_core/src/nonce_cache.rs:94-140 | Over every run a pair stays remembered exactly as long as no claim reaches four buckets past its own |
| `NonceCache.ReplayIff` | subduction_core/src/nonce_cache.rs:94-140 | The exact replay law: a repeat is accepted iff some claim since, itself included, reached four buckets past the bucket it was filed under |
| `NonceCache.NoReplayWithin` | subduction_core/src/nonce_cache.rs:94-140 | Accepted at t, a pair is rejected as long as no timestamp so far exceeds t plus three bucket lengths, in any order of timestamps |
| `NonceCache.AgainAfterFour` | subduction_core/src/nonce_cache.rs:94-140 | A pair in the window when accepted at t, and not since, is accepted again from t plus four bucket lengths on |
| `NonceCache.ClaimAll` | subduction_core/src/nonce_cache.rs:74-140 | Any run of claims on a new cache is answered as the expiring set does, claim by claim; repeats within three bucket lengths are reported, and no pair sits in two slots |
| `NonceCache.AcceptedTwiceInTenMinutes` | subduction_core/src/nonce_cache.rs:21-40 | Counterexample to the documented twelve minutes: with default buckets a pair passes again within ten |
| `Codec.VerifySorted` | sedimentree_core/src/codec/decode.rs:175-186 | Accepts iff strictly ascending, and reports the first position out of order |
| `Codec.ReadArrays` | sedimentree_core/src/codec/decode.rs:138-152 | Reads the consecutive fixed-size arrays from an offset |
| `Codec.FixedWidthIsLawful` | sedimentree_core/src/loose_commit.rs:119-132 | The laws asked of the integer code can be met: a fixed eight-byte code does |
| `Codec.EncodeCommit` | sedimentree_core/src/loose_commit.rs:119-132 | Appends tree id, head, blob digest, parent count modulo 256, size code and the parents in ascending order |
| `Codec.TryDecodeCommit` | sedimentree_core/src/loose_commit.rs:144-202 | Decodes by the layout, with the error for each way a buffer falls short; never consumes more than the buffer |
| `Codec.CommitRoundTripIff` | sedimentree_core/src/loose_commit.rs:119-202 | Decoding an encoding followed by any bytes gives the commit back and consumes its field size if and only if it has at most 255 parents |
| `Codec.CommitCanonical` | sedimentree_core/src/loose_commit.rs:144-202 | Whatever decodes is the one encoding of its value |
| `Codec.EncodeFragment` | sedimentree_core/src/fragment.rs:267-287 | Appends tree id, head, blob digest, boundary count modulo 256, big-endian checkpoint count modulo 65536, size code, boundary and checkpoints in ascending order |
| `Codec.TryDecodeFragment` | sedimentree_core/src/fragment.rs:300-381 | Decodes by the layout, reports each error, never consumes more than the buffer |
| `Codec.FragmentDecodesSo` | sedimentree_core/src/fragment.rs:300-381 | Which error a buffer leads to, and which bytes the fields come from |
| `Codec.FragmentRoundTripIff` | sedimentree_core/src/fragment.rs:267-381 | Round trip with any suffix if and only if at most 255 boundary commits and 65535 checkpoints |
| `Codec.FragmentCanonical` | sedimentree_core/src/fragment.rs:300-381 | Whatever decodes is the one encoding of its value |
| `FsWriter.CrashKeepsWhole` | sedimentree_fs_storage/src/lib.rs:96-121 | Whatever subset of renames a crash keeps, every final name has full content of a saved item, and the invariant holds on reboot |
| `FsWriter.AnyMixSurvives` | sedimentree_fs_storage/src/lib.rs:96-121 | A crash may keep, name by name, the durable entry or any rename since |
| `FsWriter.SettledSurvives` | sedimentree_fs_storage/src/lib.rs:263-284 | A settled pair survives every crash unchanged |
| `FsWriter.Writer.Stage` | sedimentree_fs_storage/src/lib.rs:179-215 | Skips iff the pair looks intact by lengths; otherwise both temporaries are written unless a system call failed, and no final name changes |
| `FsWriter.Writer.RenameIntoPlace` | sedimentree_fs_storage/src/lib.rs:141-146 | Blob before meta, so that in every image a meta file marks a blob; both final files hold the item on success |
| `FsWriter.Writer.Cleanup` | sedimentree_fs_storage/src/lib.rs:149-160 | Dropping temporaries keeps every image safe and touches nothing else |
| `FsWriter.Writer.Save` | sedimentree_fs_storage/src/lib.rs:89-121 | Every image between system calls, each of which may fail, is safe; it fails iff a system call did, skips iff both halves are there with the item's lengths, and otherwise leaves the item's content, durable |
| `FsWriter.Writer.SaveTwice` | sedimentree_fs_storage/src/lib.rs:179-190 | Saving again after a save that did not fail is skipped and changes nothing |
| `FsWriter.Writer.SaveBatch` | sedimentree_fs_storage/src/lib.rs:1395-1438 | The phased batch: every image is safe; it fails iff a system call did, and otherwise leaves a whole pair for every item, durable unless it looked intact at the start; where no two items share a path, with the item's lengths, and its content if a half was missing or of another length |
| `FsWriter.IntactIsWhole` | sedimentree_fs_storage/src/lib.rs:179-190 | On a safe disk the length check accepts only whole pairs; under content addressing both halves are one item's |
| `FsWriter.Recover` | sedimentree_fs_storage/src/lib.rs:89-215 | Healing: from any crash outcome of any safe image, saving again restores the whole pair unless a system call fails |
| `FsWriter.DurableSurvives` | sedimentree_fs_storage/src/lib.rs:868-935 | After a batch, both files of every pair survive every crash in full, and where the path fixes the blob as one saved item |
| `FsWriter.NeverMixedIff` | sedimentree_fs_storage/src/lib.rs:868-935 | No crash mixes the halves of two items if and only if halves of one path are interchangeable; it follows where the path, a digest of the payload, fixes the blob |
| `FsWriter.MixedPair` | sedimentree_fs_storage/src/lib.rs:141-146 | Otherwise a crash between rename and directory sync can leave the meta of one item and the blob of another |
| `FsReaders.CompletePairStemsSorted` | sedimentree_fs_storage/src/lib.rs:466-478 | For any listing order: the stems of exactly the complete pairs, sorted |
| `FsReaders.ReadFirstPair` | sedimentree_fs_storage/src/lib.rs:484-509 | Picks what it read under the smallest complete stem not gone since the listing, is broken iff a file there cannot be read, and finds nothing iff the directory is absent or no pair is left |
| `FsReaders.ReadFirstMeta` | sedimentree_fs_storage/src/lib.rs:523-537 | The same for the meta file alone |
| `FsReaders.SameStemIff` | sedimentree_fs_storage/src/lib.rs:484-537 | Whatever happens between listing and reading, both readers answer from the same stem if and only if the smallest complete stem whose meta is not gone has its blob too, or a meta that cannot be read |
| `FsReaders.ReadersAgree` | sedimentree_fs_storage/src/lib.rs:484-537 | On a directory that stays as it is that holds, and both answer with the smallest complete stem |
| `FsReaders.VanishedBlobParts` | sedimentree_fs_storage/src/lib.rs:484-537 | Counterexample when it does not: a blob gone since the listing parts the two readers |
| `FsReaders.HexOrder` | sedimentree_fs_storage/src/lib.rs:466-478 | Hexadecimal file-name order is digest byte order |
| `FsReaders.HexIsHex` | sedimentree_fs_storage/src/lib.rs:466-478 | Stems are two hexadecimal characters to a byte |
| `FsReaders.PickIsWhatTreeKeeps` | sedimentree_fs_storage/src/lib.rs:466-537 | Of any equivocating items saved under one id, both readers pick the one an in-memory tree given all of them keeps |
| `FsReaders.CrashedReadIsWhole` | sedimentree_fs_storage/src/lib.rs:484-537 | After any crash of any safe image what the readers pick is a whole meta and a whole blob of one path, and of one item under content addressing |

## Left out

- Build.BuildFragmentStore: asks for a sound known map, which every earlier build leaves; of a fresh state that does not settle, only that it lies between raw and canonical form (`Cycles.OrderMatters`).
- BuildParallel.BuildFragmentStorePar: the same, and a level is a loop over one snapshot, since its tasks share nothing else; thread scheduling is not modelled.
- Topsort.TopsortedBlobOrder: in-degrees are unbounded where the code has 32 bits.
- FsWriter.Writer.Save: makes no durability claim on the skip path, and assumes one writer; creating the directory chain and syncing the parent directory are not modelled, and a rename is atomic across a crash.
- FsReaders.ReadFirstPair: the listing itself does not fail here; an I/O error in it would be returned at once.
- Sync.SyncRound: entries are filed under their own heads, so map keys stand for heads; what collisions cost is not stated beyond the diff they lead to.
- Lookup errors of a commit store, other than a missing commit.
- BLAKE3, SipHash, Ed25519 and the variable-length integer codec: parameters with the laws they need.
- The concrete depth metrics: every result holds for all of them.
- The index-linked parent and child lists of the commit DAG: modelled as the parent relation.
- Timestamps and lengths of machine width: unbounded integers here, except the count bytes of the codec.
- The asynchronous single-item reader, which takes pairs in directory order.
- The dirty flag of the cached minimized tree, `heads`, `diff`, `ancestors_of`, `minimal_hash`: only easy members.
- Schema and signature envelopes, handshake, transports, locks, command line and Wasm bindings.
