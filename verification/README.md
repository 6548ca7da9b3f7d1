# Verified models of the code-graph analyses

This project models the graph analyses of the `analysis` crate, and the date arithmetic of the
telemetry module, and proves what each of them is for. Everything rests on one small base: finite
digraphs over natural numbers with paths, reachability and distance (`Graphs.dfy`), the stored graph's
slots and edges (`StoredGraph.dfy`), sorting (`Sorting.dfy`) and finite sums of reals (`Sums.dfy`). `dafny verify dfyconfig.toml` checks the whole project.

| component | files | what is proved about it |
|---|---|---|
| dominators by parallel sweeps | `Dominance`, `GpuDominators`, `SweepLimits`, `DfsNumbering`, `Dominators` | the sweep loop ends with the unique immediate dominators for every graph, root and thread order; the queries decide dominance and list strict dominators; post-dominance on the reversed graph |
| strongly connected components by colouring | `Components`, `GpuScc`, `Partition` | labels decide mutual reachability and are the largest member, for every interleaving of edge threads with stale reads; every round retires a component; grouped and sorted they are the one partition any right algorithm gives |
| direction-optimised BFS over CSR snapshots | `Rows`, `Csr`, `Relabel`, `CsrBuild`, `Frontier`, `BfsDirected`, `StoredSearch`, `SearchLaws` | vertices are numbered component by component, outwards from a hub; the snapshot's halves are transposes holding every edge once; depths are bounded shortest distances and parents a BFS tree for any sequence of push and pull, over the snapshot and, by id, over the stored graph; what filters and the direction do to depths |
| closure and level-synchronous BFS | `MultiSource`, `Closure`, `GpuBfs` | exactly the nodes reached by at least one edge; exactly the ball of the given radius |
| concurrent pair counting | `Division`, `Masks`, `PairCounts`, `GpuCochange`, `CoChange`, `CoChangeTable` | the probed table holds the nested loops' counts for every interleaving; every probe stops; the reported pairs, totals and confidences; the table over the commits' rows is the pair map they are read from |
| HyperLogLog propagation | `Hll` | registers as facts about hashes; in-place rounds stay between the k-hop and the full sketch; a quiet round is exact |
| Louvain | `Modularity`, `Tallies`, `Shuffle`, `LocalMoves`, `Coarsening`, `Communities`, `SameSeed`, `LouvainLimits` | the gain formula against modularity, exact totals, the chosen move, coarsening preserves modularity of every partition, a bound for whole runs, one result for each seed whatever order maps are read in and whatever edges of other kinds the graph has, and where the source's promises fail |
| PageRank | `Walks`, `GpuPagerank`, `PagerankFlow` | constant plus predecessor sum is the three-case update; what each node sends where and in all; ranks stay a probability distribution; for which graphs they are defined at damping zero, and for which the rows are valid |
| lookup indices | `ModulePaths`, `Index` | after any changes the indices are those of a rebuild; the range scan finds exactly a module and its descendants |
| calendar dates | `Telemetry` | day numbers and Gregorian dates are in bijection, consecutive numbers give consecutive dates |

Conventions. A kernel launch is a loop that lets any unfinished thread take its next step. Where a
kernel reads before it writes, the read and the write are separate steps, so other threads run in
between. Device buffers are arrays. Hash functions are arbitrary functions. Louvain and PageRank are
over the reals.

## Where the source and its promises differ

The code is modelled as it is; each difference is a lemma.

* An accepted Louvain move that gains nothing need not lower the node's label
  (`communities.rs:296-298`): an epsilon tie can be taken first and a later, larger label after it.
  `LocalMoves.LabelRises` gives the exact condition in terms of modularity, self-loops included,
  `LouvainLimits.LosingMoveRaisesLabel` a graph of
  three nodes on which, with seed 1, the very first visit from single nodes does so.
* `compute_modularity` (`communities.rs:405-412`) halves the internal weight, so it is not the
  function that moves increase. `Communities.ReportedIsLess` and `Communities.ReportedChange` give the
  difference, `LouvainLimits.ReportedMayFall` a whole phase, again with seed 1, that raises modularity
  and lowers the report.
* The rows built for PageRank (`analysis/algorithms.rs:1886-1907`) use raw slot numbers in arrays as
  long as the node count. After a removal a live slot can be at or above the count, and the write to
  `out_deg` is then out of range. `GpuPagerank.ReverseCsr` succeeds exactly when every live slot is
  below the count; `GpuPagerank.FitIsCompact` and `GpuPagerank.RemovalFits` say for which graphs that
  is: those without a gap, so after one removal only if the last slot was removed.
* With damping zero the division of the ranks by their total can be undefined
  (`gpu_pagerank.rs:127-131`). `GpuPagerank.RanksDefined`: after `k` rounds the ranks are defined exactly
  when the graph has a walk of `k` jumps, a jump leading from a node with successors to a node that is
  none of them. `GpuPagerank.CycleDecides`: from as many rounds as nodes on, exactly when jumps form a
  cycle. `GpuPagerank.LoopAndAlone` is a graph where one round is defined and two are not.
* The tree depth is called the true bound on the sweeps (`gpu_dominators.rs:109-110`). The sweeps exceed
  the distance of every reachable node (`GpuDominators.SweepToFixpoint`), and `SweepLimits.SweepLadder`
  is a family of graphs whose tree has depth one and whose sweeps grow without bound.
* `insert_node` is called idempotent for the same node (`index.rs:80-81`); the list under kind and
  name grows each time. `Index.RepeatedInsert`. The graph removes before it inserts, which is what
  `Index.CodeGraph.AddNode` models.
* `nodes_in_module("")` is described as returning all nodes (`index.rs:205-206`); it returns top-level
  nodes and paths that begin with a separator. `ModulePaths.RangeIsDescendants`, `Index.EmptyPrefix`.
* `dominates(a, b)` for an unreachable `b` is false unless the two are equal, although every path from
  the entry to `b` (there is none) contains `a`. `Dominators.Dominators.Dominates` states both cases.

## Model

| member | source | states |
|---|---|---|
| Dominance.DominatesAntisymmetric | analysis/src/dominators.rs:3-20 | two reachable nodes that dominate each other are equal |
| Dominance.ImmediateUnique | analysis/src/dominators.rs:111-115 | a reachable node has at most one immediate dominator |
| GpuDominators.FingerStep | analysis/src/gpu_dominators.rs:24-32 | moving a finger up never passes a common dominator, and strictly lowers the BFS level even when the RPO number rises |
| GpuDominators.Intersect | analysis/src/gpu_dominators.rs:24-32 | terminates on any intermediate idom array, at a node on both chains that every common dominator of the arguments dominates |
| GpuDominators.FoldOne | analysis/src/gpu_dominators.rs:49-56 | one predecessor is skipped when undefined, starts the fold, or is met with it |
| GpuDominators.FoldPredecessors | analysis/src/gpu_dominators.rs:47-57 | the fold ends undefined exactly when all predecessors are, else on all their chains and below all their common dominators |
| GpuDominators.DomThread | analysis/src/gpu_dominators.rs:37-59 | a thread writes only its own node, from the old array, and reports whether it changed |
| GpuDominators.LaunchSweep | analysis/src/gpu_dominators.rs:109-128 | threads in any order compute the same sweep; the flag is set exactly when the array changed |
| GpuDominators.SweepKeepsLevels | analysis/src/gpu_dominators.rs:37-59 | after t sweeps exactly the nodes within t edges are defined, and each points strictly nearer to the root |
| GpuDominators.SweepKeepsDominators | analysis/src/gpu_dominators.rs:49-58 | every strict dominator of a node dominates the node a sweep writes for it |
| GpuDominators.SweepCutsPath | analysis/src/gpu_dominators.rs:109-128 | after t sweeps every node on a chain lies on all root paths of at most t edges |
| GpuDominators.SweepKeepsInv | analysis/src/gpu_dominators.rs:109-128 | each sweep carries the three invariants one step further |
| GpuDominators.FixpointKeepsInv | analysis/src/gpu_dominators.rs:125-128 | at a fixpoint the invariants hold for every later sweep count |
| GpuDominators.LimitSolved | analysis/src/gpu_dominators.rs:109-128 | with n - 1 sweeps covered, every reachable node has its immediate dominator and the others are undefined |
| GpuDominators.SolvedUnique | analysis/src/gpu_dominators.rs:93-139 | the solved array is unique |
| GpuDominators.SweepToFixpoint | analysis/src/gpu_dominators.rs:93-128 | the loop stops because a sweep changed nothing, within its bound of n + 1 sweeps and after more sweeps than any reachable node's distance, with a solved array |
| SweepLimits.LadderIsFlat | analysis/src/gpu_dominators.rs:109-110 | on a ladder of any length the root immediately dominates every node, and a node is as far from it as its layer |
| SweepLimits.SweepLadder | analysis/src/gpu_dominators.rs:109-128 | on the ladder the loop makes more sweeps than there are layers, for a tree of depth one |
| GpuDominators.DominatorsGpu | analysis/src/gpu_dominators.rs:68-139 | the immediate dominator of every reachable node but the root, undefined elsewhere, empty for no nodes, nothing when the count is too large |
| DfsNumbering.EntryPath | analysis/src/analysis/algorithms.rs:271-288 | the unfinished nodes below a stack entry form a path from the root to it |
| DfsNumbering.PostOrder | analysis/src/analysis/algorithms.rs:269-288 | lists exactly the reachable nodes once, no node before one it strictly dominates |
| DfsNumbering.ReversePostOrder | analysis/src/analysis/algorithms.rs:269-293 | the numbering meets everything the kernel needs: defined on the reachable nodes, injective, strict dominators first |
| Dominators.AnswersUnfold | analysis/src/dominators.rs:140-155 | dominating a node is being it or dominating its parent in the tree |
| Dominators.Dominators.DominatorsChain | analysis/src/dominators.rs:117-136 | lists each strict dominator once, nearest first, ending at the root; empty for the root and unreachable nodes |
| Dominators.Dominators.Dominates | analysis/src/dominators.rs:138-155 | true exactly for equal nodes, or when the target is reachable and every path to it contains the first node |
| Dominators.Build | analysis/src/dominators.rs:75-104 | the walk down from the entry copies every parent, and stops |
| Dominators.PostIsReversed | analysis/src/dominators.rs:158-190 | dominance from the exit in the reversed graph is post-dominance in the graph |
| Dominators.PostDominators.PostDominates | analysis/src/dominators.rs:204-206 | true exactly for equal nodes, or when the exit is reachable and every path to it passes the first node |
| Dominators.PostDominators.PostDominatorsChain | analysis/src/dominators.rs:200-202 | lists each strict post-dominator once, nearest first, ending at the exit |
| Dominators.BuildPost | analysis/src/dominators.rs:181-190 | the post-dominator map of a graph is the dominator map of its reversal |
| Dominators.BuildByKernel | analysis/src/analysis/algorithms.rs:269-323 | numbering, kernel and map together give a valid dominator map for any graph and root |
| Components.LabelsDecide | analysis/src/gpu_scc.rs:123-131 | largest-member labels are equal exactly for mutually reachable nodes |
| Components.ReachInside | analysis/src/gpu_scc.rs:153-223 | paths within a component never leave a union of whole components |
| Components.SubComponents | analysis/src/gpu_scc.rs:153-223 | components of the active part are components of the whole graph |
| GpuScc.LoadKeepsPool | analysis/src/gpu_scc.rs:53-55 | reading flags and the source's colour keeps the launch invariant |
| GpuScc.DecideKeepsPool | analysis/src/gpu_scc.rs:56 | comparing the colour read earlier with the target's present colour keeps it |
| GpuScc.StoreKeepsPool | analysis/src/gpu_scc.rs:56 | the atomic maximum of a stale colour keeps it |
| GpuScc.ForwardLaunch | analysis/src/gpu_scc.rs:46-57 | under any interleaving colours only rise to ids that reach the node, and an unset flag means no edge can raise any |
| GpuScc.ForwardFixpoint | analysis/src/gpu_scc.rs:168-182 | the loop ends with colours closed along active edges |
| GpuScc.ColourIsMax | analysis/src/gpu_scc.rs:45-57 | at the fixpoint a colour is the largest active node that reaches the vertex |
| GpuScc.ColourIsRoot | analysis/src/gpu_scc.rs:59-67 | every colour class contains its root |
| GpuScc.BackwardLaunch | analysis/src/gpu_scc.rs:70-81 | under any interleaving only nodes that reach their root in their colour are marked, and an unset flag means marks are closed |
| GpuScc.BackwardFixpoint | analysis/src/gpu_scc.rs:192-207 | the loop ends with marks closed backwards along equal colours |
| GpuScc.MarkedBack | analysis/src/gpu_scc.rs:69-81 | marks travel back along one-colour paths |
| GpuScc.MarkedIsComponent | analysis/src/gpu_scc.rs:184-207 | a vertex is marked exactly when it is in its root's component |
| GpuScc.MarkedIsLabelled | analysis/src/gpu_scc.rs:93 | the label a retired vertex gets is the largest id of its component in the original graph |
| GpuScc.RemainderWhole | analysis/src/gpu_scc.rs:83-95 | what stays active is again a union of whole components |
| GpuScc.SomeRoot | analysis/src/gpu_scc.rs:153 | a round with active vertices marks at least one |
| GpuScc.RoundRetires | analysis/src/gpu_scc.rs:154-223 | a round keeps finished labels right and strictly shrinks the active set |
| GpuScc.InitRound | analysis/src/gpu_scc.rs:37-43 | active vertices take their own colour and lose their mark, the others keep both |
| GpuScc.MarkRoots | analysis/src/gpu_scc.rs:60-67 | active vertices coloured by themselves are marked and no others, soundly |
| GpuScc.FinalizeRound | analysis/src/gpu_scc.rs:85-95 | marked vertices are labelled and retired, the rest counted |
| GpuScc.Round | analysis/src/gpu_scc.rs:154-222 | one round retires at least one component and counts what is left |
| GpuScc.SccGpu | analysis/src/gpu_scc.rs:123-225 | labels are equal exactly for mutually reachable nodes and are the largest member; at most n rounds, so the bound never cuts the run short |
| Partition.ShareClass | analysis/src/gpu_scc.rs:227-241 | two nodes share a part exactly when they share a label |
| Partition.Canonical | analysis/src/gpu_scc.rs:227-228 | two labellings have the same form exactly when they group the nodes alike |
| Partition.PartsAreComponents | analysis/src/gpu_scc.rs:286 | the parts of labels that decide mutual reachability are the components |
| Partition.DecidesCanonical | analysis/src/gpu_scc.rs:286 | any two labellings that decide mutual reachability have one partition |
| Partition.ComputePartition | analysis/src/gpu_scc.rs:229-241 | grouping and sorting in any map order yields the form |
| Partition.ComponentPartition | analysis/src/gpu_scc.rs:123-241 | kernels and grouping together: two nodes share a part exactly when they reach each other, and every labelling that decides this has the same partition |
| Frontier.Frontier.Insert | analysis/src/frontier.rs:79-91 | adds one element, whatever the representation; dense exactly when it was or more than a sixteenth of the graph is in it, else the list grows at its end |
| Frontier.Frontier.MaybePromote | analysis/src/frontier.rs:152-160 | keeps the contents; dense exactly when it was or more than a sixteenth of the graph is in it |
| Frontier.Frontier.PromoteToDense | analysis/src/frontier.rs:142-150 | keeps the contents |
| Frontier.Frontier.Clear | analysis/src/frontier.rs:133-139 | empties the set and keeps the representation |
| Frontier.Frontier.Contains | analysis/src/frontier.rs:71-76 | membership in the contents for both representations |
| Frontier.Frontier.Iter | analysis/src/frontier.rs:115-122 | yields each element once, in insertion order when sparse and ascending when dense |
| Frontier.Frontier.PushWorkload | analysis/src/frontier.rs:124-131 | the sum of the members' degrees, capped at the largest 64-bit number |
| Relabel.NextFrontal | analysis/src/csr.rs:360-376 | when a node has been expanded the next in the queue is as near or one edge farther, and all nodes as near as it are listed |
| Relabel.NumberingPush | analysis/src/csr.rs:364-375 | queueing an unvisited neighbour keeps the component's order by distance |
| Relabel.RelabelFrom | analysis/src/csr.rs:353-377 | numbers exactly the slots joined to the seed in either direction, once each, in order of distance |
| Relabel.DegreeIsEnds | analysis/src/csr.rs:345-351 | the degree seeds are sorted by counts the ends of edges at a slot, two for an edge to itself |
| Relabel.SeedIsHub | analysis/src/csr.rs:345-351 | at no unvisited slot lie more ends of edges than at the next unvisited seed |
| Relabel.BfsRelabel | analysis/src/csr.rs:337-380 | lists every live slot once: whole undirected components, each in order of distance from a slot with the most ends of edges left |
| Sorting.SortByKeySorted | analysis/src/csr.rs:192-193 | sorting a row by far vertex orders it and loses nothing |
| CsrBuild.RowsHoldEdges | analysis/src/csr.rs:175-224 | the rows together hold exactly the graph's edges, relabelled, with multiplicity |
| CsrBuild.HalfListsEdges | analysis/src/csr.rs:182-224 | a half lists a neighbour with a kind exactly when the graph has that edge |
| CsrBuild.HalfSize | analysis/src/csr.rs:194-224 | a half has as many entries as the graph has edges |
| CsrBuild.HalfValid | analysis/src/csr.rs:257-299 | row pointers are monotone, slice both arrays alike, name vertices, and rows ascend |
| CsrBuild.BuildSide | analysis/src/csr.rs:182-224 | a half built for either side represents the edges seen from that side |
| CsrBuild.Positions | analysis/src/csr.rs:155-168 | slots and vertices are inverse numberings; missing ids are reported |
| CsrBuild.Inverse | analysis/src/csr.rs:170-173 | the id map inverts the vertex list |
| CsrBuild.Build | analysis/src/csr.rs:142-239 | numbering and both halves together: the halves hold the same edges and kinds, so they are transposes; the empty snapshot exactly when a node has no id |
| Csr.TagOf | analysis/src/csr.rs:75-90 | every edge kind has exactly one tag that stands for it |
| BfsDirected.SearchEdgesBehind | analysis/src/bfs_directed.rs:230-268 | an edge passing the filter is seen from both halves |
| BfsDirected.LayerUnique | analysis/src/bfs_directed.rs:115-145 | a layer has one outcome up to the choice of parents, whichever direction computes it |
| BfsDirected.PushStep | analysis/src/bfs_directed.rs:194-227 | expanding the frontier computes the layer |
| BfsDirected.PullStep | analysis/src/bfs_directed.rs:230-268 | scanning unvisited nodes computes the same layer |
| BfsDirected.PickDirection | analysis/src/bfs_directed.rs:153-192 | a push turns into a pull exactly when the frontier's row lengths, added up and capped, exceed a 14th of the edges, a pull into a push exactly when the frontier has fewer nodes than a 24th |
| BfsDirected.ExploredNext | analysis/src/bfs_directed.rs:112-148 | a layer extends exact depths and the tree by one level |
| BfsDirected.NothingBeyond | analysis/src/bfs_directed.rs:112-148 | an empty layer means nothing is farther |
| BfsDirected.FinishedCorrect | analysis/src/bfs_directed.rs:146-150 | when the frontier is empty or the bound is reached, depths, parents and the deepest level are right |
| BfsDirected.Search | analysis/src/bfs_directed.rs:91-150 | depth is the shortest distance over the row entries whose tag the filter lists, or over all without a filter, when within the bound, none otherwise; parents form a BFS tree of such entries; for every choice of push or pull per layer |
| BfsDirected.Bfs | analysis/src/bfs_directed.rs:91-150 | the same with the directions chosen by workload |
| BfsDirected.DirectionsAgree | analysis/src/bfs_directed.rs:12-40 | correct results differ in parents only, so no depth depends on the directions |
| StoredSearch.SearchStored | analysis/src/csr.rs:182-224 | the search steps from vertex to vertex exactly where a stored edge of a listed kind joins their slots, in the configured direction |
| StoredSearch.SearchById | analysis/src/bfs_directed.rs:91-150 | snapshot and search together: from the node with an id, bounded shortest distances over the stored edges that count: all without a filter, else those whose kind one of the listed tags stands for, from source to target or back; parents one level up, the deepest level, nothing exactly when an id is missing |
| SearchLaws.WiderFilterNearer | analysis/src/bfs_directed.rs:271-276 | a filter that lets more through loses no slot and lengthens no distance |
| SearchLaws.EveryTagIsNoFilter | analysis/src/bfs_directed.rs:271-276 | a filter that lists every tag gives the unfiltered depths |
| SearchLaws.EmptyFilterStays | analysis/src/bfs_directed.rs:271-276 | an empty filter reaches the start and nothing else |
| SearchLaws.BackwardMirrorsForward | analysis/src/bfs_directed.rs:194-268 | forward from one slot and backward from another, each search finds the other equally far away |
| MultiSource.ClosedIsReached | analysis/src/closure.rs:49-93 | a set closed under edges that holds the seeds holds all they reach |
| Closure.Closure | analysis/src/closure.rs:49-93 | exactly the nodes reached from a live seed by at least one matching edge, either direction |
| GpuBfs.VisitStep | analysis/src/gpu_bfs.rs:35-43 | one thread's first atomic marks exactly its reached targets |
| GpuBfs.QueueStep | analysis/src/gpu_bfs.rs:40-43 | a newly visited node enters the next frontier |
| GpuBfs.Launch | analysis/src/gpu_bfs.rs:21-45 | under any interleaving a launch expands the frontier by one level and flags whether it grew |
| GpuBfs.FrontiersStep | analysis/src/gpu_bfs.rs:173-193 | levels keep reached exactly the successors of expanded nodes |
| GpuBfs.ReachableGpu | analysis/src/gpu_bfs.rs:139-197 | exactly the nodes reached from a seed by at least one edge |
| GpuBfs.BallStep | analysis/src/gpu_bfs.rs:116-134 | a level turns the ball of radius d into that of radius d + 1 |
| GpuBfs.ReachableBounded | analysis/src/gpu_bfs.rs:83-137 | exactly the nodes within the bound of a seed, seeds included, also when it stops early |
| GpuCochange.CpuCounts | analysis/src/co_change.rs:181-188 | the nested loops count every pair of every commit |
| GpuCochange.TableHasRoom | analysis/src/gpu_cochange.rs:91-96 | a table of that size always has an empty slot |
| GpuCochange.ProbeStops | analysis/src/gpu_cochange.rs:49-56 | a probe meets fewer than capacity occupied slots |
| GpuCochange.KeyAbsent | analysis/src/gpu_cochange.rs:50-51 | an empty slot on the probe path means the key is nowhere in the table |
| GpuCochange.ClaimKeepsTable | analysis/src/gpu_cochange.rs:50-51 | claiming that slot keeps keys distinct and probe paths without gaps |
| GpuCochange.AddKeepsCounts | analysis/src/gpu_cochange.rs:51-52 | an atomic add keeps stored count plus what is owed equal to the final count |
| GpuCochange.StartKeeps | analysis/src/gpu_cochange.rs:45-48 | starting on the next partner keeps the run's invariant and makes progress |
| GpuCochange.FoundKeeps | analysis/src/gpu_cochange.rs:50-51 | meeting the own key keeps them |
| GpuCochange.MissKeeps | analysis/src/gpu_cochange.rs:50-55 | meeting another key keeps them |
| GpuCochange.ClaimKeeps | analysis/src/gpu_cochange.rs:50-51 | winning the compare-and-swap keeps them |
| GpuCochange.AddKeeps | analysis/src/gpu_cochange.rs:51-52 | the add keeps them |
| GpuCochange.Cooccur | analysis/src/gpu_cochange.rs:31-58 | every interleaving ends, each counted pair in exactly one slot with its exact count |
| GpuCochange.AllPairsTotal | analysis/src/gpu_cochange.rs:82-87 | the counts add up to the sum of C(size, 2) over the commits |
| GpuCochange.CountsFit | analysis/src/gpu_cochange.rs:115-117 | no count exceeds the number of positions, so 32 bits do not wrap |
| GpuCochange.CountPairs | analysis/src/gpu_cochange.rs:82-87 | the checked sum is the number of pairs, or refused exactly when a 64-bit step overflows |
| GpuCochange.CapacityLeast | analysis/src/gpu_cochange.rs:91-92 | the capacity is the smallest power of two that is at least 1024 and twice the pairs |
| Masks.MaskIsRemainder | analysis/src/gpu_cochange.rs:96 | bitwise conjunction with a power of two less one is the remainder by it |
| GpuCochange.MaskedSlot | analysis/src/gpu_cochange.rs:48-55 | the masked hash and the masked successor of a slot are the slots probed |
| GpuCochange.OwnerArray | analysis/src/gpu_cochange.rs:98-104 | every position is assigned the commit whose slice holds it |
| GpuCochange.DecodeTable | analysis/src/gpu_cochange.rs:135-143 | reading the table lists each counted pair once with its count |
| GpuCochange.CooccurrenceGpu | analysis/src/gpu_cochange.rs:66-144 | sizing, launch and decoding together: every pair once with its exact 32-bit count; nothing exactly when a size is refused |
| GpuCochange.TableMatchesLoops | analysis/src/gpu_cochange.rs:152-183 | the triples and the nested loops' map are the same |
| CoChange.TogetherBounded | analysis/src/co_change.rs:169-188 | two nodes change together at most as often as either changes |
| CoChange.CommitNodes | analysis/src/co_change.rs:157-167 | the nodes of a commit's files, each once, ascending |
| CoChange.BumpPairs | analysis/src/co_change.rs:181-188 | adds one to every ascending pair of the commit and nothing else |
| CoChange.CountCommits | analysis/src/co_change.rs:156-189 | per-node totals over all commits, pair counts over those with at most 200 nodes |
| CoChange.ComputeCoChanges | analysis/src/co_change.rs:137-224 | exactly the pairs at or above the support, with right totals and confidence between 0 and 1; none less confident than a later one, nor changed less often together than a later one of equal confidence |
| CoChange.TouchingKeeps | analysis/src/co_change.rs:231-247 | dropping the pairs without a seed keeps the others as often as they were, and the ranking |
| CoChange.CoChangesForNodes | analysis/src/co_change.rs:231-247 | the full result with the pairs dropped neither of whose nodes is a seed, each other pair exactly as often and in the same order, so ranked by confidence, then count |
| CoChangeTable.RowPairs | analysis/src/gpu_cochange.rs:28-30 | a commit's row adds each ascending pair of its nodes once |
| CoChangeTable.CommitRows | analysis/src/co_change.rs:156-179 | the rows of the commits with at most 200 nodes form exactly the pairs that changed together |
| CoChangeTable.CountByTable | analysis/src/gpu_cochange.rs:3-10 | rows and table together list each such pair once with its count, nothing exactly when a size is refused |
| CoChangeTable.TableIsPairMap | analysis/src/gpu_cochange.rs:3-10 | the triples are the pair map from which the reported pairs are read |
| Hll.RhoRange | analysis/src/hll.rs:49-60 | for every 64-bit hash the value is r up to 52 exactly when 2 to the r - 1 divides the hash shifted by 12 bits and 2 to the r does not, and 53 exactly when nothing is left after the shift |
| Hll.Index | analysis/src/hll.rs:50 | masking the hash gives its remainder by 4096 |
| Hll.RhoLifts | analysis/src/hll.rs:49-60 | a hash raises a register above k exactly when it is the register modulo 4096 and 2 to the k divides the shifted hash, zero counting for 52 |
| Hll.HllSketch.AddHash | analysis/src/hll.rs:49-60 | a register is above k afterwards exactly when it was or the hash is the register modulo 4096 with k trailing zeros after the shift |
| Hll.HllSketch.Merge | analysis/src/hll.rs:62-72 | register-wise maximum; reports exactly whether a register grew |
| Hll.SketchUnique | analysis/src/hll.rs:47-60 | a set has one sketch |
| Hll.SketchUnion | analysis/src/hll.rs:62-72 | merging two sketches gives the sketch of the union |
| Hll.RoundCovers | analysis/src/hll.rs:138-153 | after k in-place rounds a sketch covers all nodes within k hops |
| Hll.ChangedFar | analysis/src/hll.rs:138-153 | a round changes a sketch only when some node reaches another farther away than the hops covered |
| Hll.SettledExact | analysis/src/hll.rs:150-152 | after a round without change every sketch is that of the reachable set |
| Hll.CoveredExact | analysis/src/hll.rs:135-153 | so it is when the reachable set lies within the rounds made |
| Hll.Propagate | analysis/src/hll.rs:138-153 | sketches are of sets between the k-hop ball and the reachable set; at most 64 rounds, and at most one more than the largest distance has edges |
| Hll.Direction | analysis/src/hll.rs:130-153 | for every node the sketch of a set between its ball of the rounds made and all it reaches; exact when settled or near; unsettled only after 64 rounds, on a graph with a distance above 63 |
| Hll.ApproximateReachability | analysis/src/hll.rs:116-173 | a register of a node is above k exactly when some node of a set has a hash with that remainder by 4096 and k trailing zeros after the shift, where the set lies between the ball of the rounds made and all the node reaches, and is the latter when settled or near; for descendants forward and ancestors backward, in at most 64 rounds |
| Shuffle.ShuffleWithSeed | analysis/src/communities.rs:418-430 | the in-place swaps of the 64-bit generator, as a function of the seed |
| Shuffle.PickIsHighBits | analysis/src/communities.rs:427 | the swap partner is the remainder of the state's bits above the lowest 33 |
| Shuffle.ShuffledPermutes | analysis/src/communities.rs:417-430 | for every seed the result is a permutation |
| Shuffle.EveryNodeVisited | analysis/src/communities.rs:239-241 | the visiting order holds exactly the node numbers |
| Modularity.MoveSum | analysis/src/communities.rs:268-294 | what moving one node changes in any symmetric pair sum |
| Modularity.MoveChange | analysis/src/communities.rs:268-294 | a move changes modularity by the computed gain plus the node's self-loop over m, for weights of any sign: the gain is exact without self-loops |
| Modularity.SigmaMove | analysis/src/communities.rs:304-308 | how community totals change with a move |
| Modularity.ModularityByCommunity | analysis/src/communities.rs:366-371 | modularity as the sum over communities of internal share less squared degree share |
| Tallies.Accumulate | analysis/src/communities.rs:252-257 | the map of weights towards each listed label, absent labels unlisted |
| LocalMoves.ChoiceStep | analysis/src/communities.rs:296-301 | one candidate keeps the choice right for the candidates seen |
| LocalMoves.Choose | analysis/src/communities.rs:266-302 | stays unless some candidate gains, or loses at most epsilon with a smaller label; then the largest gain with the smallest label |
| LocalMoves.NeighbourWeights | analysis/src/communities.rs:252-263 | the weights are the node's ties to whole communities |
| LocalMoves.Decide | analysis/src/communities.rs:249-304 | the chosen community by true modularity gains |
| LocalMoves.Visit | analysis/src/communities.rs:248-311 | moves the node exactly when attracted, to its target, with totals still exact |
| LocalMoves.AcceptedMove | analysis/src/communities.rs:296-311 | an accepted move loses at most epsilon beyond the node's self-loop over m, and gains more than that when its gain is positive |
| LocalMoves.LabelRises | analysis/src/communities.rs:296-301 | exactly when an accepted move fails to raise modularity and does not lower the label, and exactly when it does not do so at a loss of at most epsilon |
| LocalMoves.Totals | analysis/src/communities.rs:232-237 | every community's total degree, for labels up to the largest |
| LocalMoves.VisitKeeps | analysis/src/communities.rs:296-311 | a visit loses at most epsilon, unless a self-loop weighs against the total, and introduces no label |
| LocalMoves.Pass | analysis/src/communities.rs:245-312 | visits the nodes in order, each moving exactly when attracted and to its target |
| LocalMoves.PhaseDeterministic | analysis/src/communities.rs:239-317 | over the reals the phase has one outcome for each visiting order, hence for each seed |
| LocalMoves.Run | analysis/src/communities.rs:207-320 | for weights of any sign the outcome is that of passes in the seed's order until one moves nothing or the limit; at most epsilon lost a visit unless a self-loop weighs against the total; labels come from the given ones; no improvement means nothing changed and every node is settled |
| Coarsening.Renumber | analysis/src/communities.rs:329-341 | numbers labels by first appearance, contiguously, keeping the partition |
| Coarsening.RenumbersUnique | analysis/src/communities.rs:329-341 | which has one outcome |
| Coarsening.GroupedPairSum | analysis/src/communities.rs:343-356 | a partition of groups sums the same pairs as the partition of nodes it stands for |
| Coarsening.CoarseDegree | analysis/src/communities.rs:346-356 | a super-node's degree is its community's total degree |
| Coarsening.CoarseTotal | analysis/src/communities.rs:346-356 | total weight is kept, internal weight as self-loops |
| Coarsening.CoarseQuality | analysis/src/communities.rs:322-327 | every partition of super-nodes has the modularity of its lift |
| Coarsening.Coarsen | analysis/src/communities.rs:328-364 | the super-graph holds exactly the summed weights between communities, lists exactly the pairs of communities some edge entry joins, and is symmetric again |
| Communities.CallsCarryWeights | analysis/src/communities.rs:178-181 | edges of the eight kinds other than `Calls` and `UnresolvedCall` weigh nothing and join nothing |
| Communities.SingleCall | analysis/src/communities.rs:176-202 | two slots between which one edge is the only possible call have its weight, in both directions, when it is of one of those two kinds, and else none |
| Communities.BuildAdjacency | analysis/src/communities.rs:156-205 | live slots in ascending order are compacted to positions; weights are the summed `Calls` and `UnresolvedCall` edges between two of them in either direction, no self-loops, edges with a missing end skipped; rows list exactly the pairs such an edge joins |
| Communities.ReportedIsLess | analysis/src/communities.rs:405-412 | the reported score is modularity less half its internal share |
| Communities.ReportedChange | analysis/src/communities.rs:405-412 | what a move changes in the reported score |
| Communities.ComputeModularity | analysis/src/communities.rs:372-415 | computes the reported score, zero for a graph without weight |
| Communities.RelabelledQuality | analysis/src/communities.rs:118-128 | modularity depends on the partition only |
| Communities.FaithfulCoarsen | analysis/src/communities.rs:99-116 | through all levels, partitions of level nodes score as partitions of original nodes |
| Communities.SpreadLabels | analysis/src/communities.rs:90-97 | every original node takes the label of the level node that owns it |
| Communities.MergeGroups | analysis/src/communities.rs:107-112 | the groups partition the original nodes again |
| Communities.Level | analysis/src/communities.rs:80-117 | a level is the phase from single nodes, lifted to original nodes and coarsened; it keeps partition, groups and score bound, and goes on only with fewer nodes |
| Communities.Levels | analysis/src/communities.rs:69-117 | the labels of a run of levels, stopped by the limit of 10 or by a level that ends it; without negative weights whole runs lose at most levels times passes times nodes epsilons against single nodes |
| Communities.Louvain | analysis/src/communities.rs:58-145 | over any stored graph: the run's labels renumbered contiguously by first appearance, single nodes for a graph without weight, the reported score, and without negative weights the modularity bound |
| SameSeed.SameMoves | analysis/src/communities.rs:248-311 | whether and where a node moves depends on the neighbours named and their weights, not on the order of rows |
| SameSeed.CoarseAlike | analysis/src/communities.rs:343-363 | super-graphs read from maps in different orders name the same neighbours with the same weights |
| SameSeed.RunsAgree | analysis/src/communities.rs:69-117 | two runs of levels with one seed find the same labels whatever order the maps are read in |
| SameSeed.CallsDecide | analysis/src/communities.rs:58-145 | two calls on graphs with the same slots and the same edges of those two kinds, with one resolution and seed, give the same assignment, count and score |
| SameSeed.OtherKindsIgnored | analysis/src/communities.rs:176-202 | dropping every edge of the other eight kinds leaves the result as it is |
| SameSeed.SameResult | analysis/src/communities.rs:58-145 | two calls with one graph, resolution and seed give the same assignment, count and score |
| LouvainLimits.LosingMoveRaisesLabel | analysis/src/communities.rs:296-301 | a graph and a seed on which the first visit from single nodes raises the label and lowers modularity, by a third of 2 to the power -52 |
| LouvainLimits.ReportedMayFall | analysis/src/communities.rs:405-412 | a graph and a seed on which the phase from single nodes raises modularity by three eighths and lowers the reported score by an eighth |
| GpuPagerank.PiNonNegative | analysis/src/gpu_pagerank.rs:3-12 | updates are never negative although the kernel subtracts |
| GpuPagerank.PiTotalPositive | analysis/src/gpu_pagerank.rs:127-131 | the total is positive for every positive damping, and for damping zero exactly when a node with rank has successors but not all nodes |
| GpuPagerank.RanksAtZero | analysis/src/gpu_pagerank.rs:95-134 | with damping zero ranks are defined after k rounds exactly when there is a walk of k jumps, and positive exactly where one ends |
| GpuPagerank.RanksDefined | analysis/src/gpu_pagerank.rs:95-134 | for damping from zero to one ranks are defined exactly for positive damping or with such a walk |
| GpuPagerank.CycleDecides | analysis/src/gpu_pagerank.rs:95-134 | with damping zero, from as many rounds as nodes on, ranks are defined exactly when jumps form a cycle |
| GpuPagerank.NoJumps | analysis/src/gpu_pagerank.rs:127-131 | no ranks after a round where each node has no successors or all nodes |
| GpuPagerank.LoopAndAlone | analysis/src/gpu_pagerank.rs:127-131 | a graph on which one round is defined and two are not |
| GpuPagerank.NextIsDistribution | analysis/src/gpu_pagerank.rs:127-131 | normalised ranks are a probability distribution for damping from zero to one |
| GpuPagerank.RanksAreDistribution | analysis/src/gpu_pagerank.rs:95-134 | after any number of iterations ranks are a distribution, and for positive damping they are defined |
| GpuPagerank.PiAddsUp | analysis/src/gpu_pagerank.rs:3-12 | the update adds up what nodes send: times the out-degree the damped rank along an edge, times the node count the damped rank without successors, times the node count what damping leaves otherwise |
| PagerankFlow.SharesExist | analysis/src/gpu_pagerank.rs:3-12 | the shares the next lemmas speak of exist for every graph with a node |
| PagerankFlow.OneNodeSends | analysis/src/gpu_pagerank.rs:3-12 | more rank at one node raises an update by d over its out-degree along an edge, by d over n without successors, by (1 - d) over n where it has successors but no edge |
| PagerankFlow.SharesAddUp | analysis/src/gpu_pagerank.rs:3-12 | a node without successors sends d of its rank in all; any other a share for each row that lists it and a jump for each that does not |
| PagerankFlow.SimpleEdges | analysis/src/gpu_pagerank.rs:5 | without parallel edges the shares along the edges make up d of the rank |
| PagerankFlow.TotalPassedOn | analysis/src/gpu_pagerank.rs:127-131 | the total before normalisation in closed form from ranks, out-degrees and the number of rows that list each node |
| PagerankFlow.RanksStart | analysis/src/gpu_pagerank.rs:84-85 | ranks start at one over the node count |
| PagerankFlow.RanksNext | analysis/src/gpu_pagerank.rs:95-134 | a round divides what is sent to each node by all that is sent, and is undefined exactly when that is zero |
| PagerankFlow.HubRanks | analysis/src/gpu_pagerank.rs:95-134 | on three nodes with edges 0 to 1, 0 to 2 and back, one round with damping 0.85 gives 0.625, 0.1875, 0.1875 |
| GpuPagerank.Decomposition | analysis/src/gpu_pagerank.rs:3-12 | constant plus predecessor sum is the three-case update, for every graph |
| GpuPagerank.BaseFromMasses | analysis/src/gpu_pagerank.rs:100-112 | the host's two sums give the constant |
| GpuPagerank.Thread | analysis/src/gpu_pagerank.rs:38-47 | a thread computes its target's three-case update: the sum of any amounts that, times the out-degree or the node count, are what each case says |
| GpuPagerank.Launch | analysis/src/gpu_pagerank.rs:27-48 | threads in any order compute every update |
| GpuPagerank.PagerankGpu | analysis/src/gpu_pagerank.rs:70-135 | for any damping and any number of iterations the ranks are the three-case iteration from the uniform distribution; for damping from zero to one they are undefined exactly when the damping is zero and there is no walk of as many jumps as iterations |
| GpuPagerank.ReverseCsr | analysis/src/analysis/algorithms.rs:1886-1907 | fails exactly when a live slot is not below the live count; otherwise rows list each predecessor once, out-degrees count every edge, and the kernel's needs are met |
| GpuPagerank.FitIsCompact | analysis/src/analysis/algorithms.rs:1886-1907 | in slot order every live slot is below the count exactly when no slot is missing |
| GpuPagerank.RemovalFits | analysis/src/analysis/algorithms.rs:1886-1907 | one removal from a graph without gaps keeps that exactly when the last slot is removed |
| ModulePaths.ModuleOfMember | analysis/src/index.rs:203-212 | a segment without colons has the rest as its module; without separator the module is empty |
| ModulePaths.LessAtDifference | analysis/src/index.rs:187-194 | the order the range is scanned in is dictionary order: decided at the first place where two strings differ, or by a proper prefix |
| ModulePaths.BumpRange | analysis/src/index.rs:187-194 | in dictionary order the strings between a prefix and the prefix with its last character bumped are exactly those that start with it |
| ModulePaths.RangeIsDescendants | analysis/src/index.rs:176-198 | the scanned range is exactly the paths that start with the prefix and a separator |
| Index.FitsDetermines | analysis/src/index.rs:25-42 | indices that describe the same nodes are equal, up to order within a list |
| Index.InsertKeepsFit | analysis/src/index.rs:84-102 | inserting a new node keeps the three indices right |
| Index.RemoveKeepsFit | analysis/src/index.rs:108-132 | removing a node with its old data keeps them right and leaves no empty bucket |
| Index.RepeatedInsert | analysis/src/index.rs:80-102 | a repeated insert adds nothing to the sets and one more entry to the list |
| Index.Indices.InsertNode | analysis/src/index.rs:84-102 | the exact effect on all three maps |
| Index.Indices.RemoveNode | analysis/src/index.rs:108-132 | the exact effect on all three maps |
| Index.Indices.Rebuild | analysis/src/index.rs:138-146 | in any order the result describes the live nodes |
| Index.CodeGraph.AddNode | analysis/src/graph.rs:221-247 | adding or overwriting keeps indices and nodes in step |
| Index.CodeGraph.RemoveNode | analysis/src/graph.rs:397-416 | removing keeps them in step |
| Index.CodeGraph.UpdateMetadata | analysis/src/graph.rs:485-504 | replacing metadata evicts the old keys |
| Index.CodeGraph.RebuildIndices | analysis/src/graph.rs:472-474 | recomputing maintained indices changes nothing, up to order within a list |
| Index.Replay | analysis/src/graph.rs:105-113 | after any sequence of changes the maintained maps are those of a rebuild, up to order within a list |
| Index.NodesInModule | analysis/src/index.rs:169-200 | each live node whose module is the prefix or inside it, exactly once, and no other |
| Index.KindNameLookup | analysis/src/index.rs:148-159 | each node with that kind and name, exactly once |
| Index.EmptyPrefix | analysis/src/index.rs:203-206 | what the empty prefix selects, and a node it does not |
| Telemetry.CivilNext | src/telemetry.rs:512-525 | every day number gives a valid date, and the next number the next date |
| Telemetry.CountOfCivil | src/telemetry.rs:512-525 | counting days from 1970-01-01 to the date gives the number back, for every integer |
| Telemetry.DayNumberInjective | src/telemetry.rs:512-525 | different valid dates have different counts |
| Telemetry.CivilOfCount | src/telemetry.rs:512-525 | every valid date comes from exactly one day number |

## Left out

- CUDA contexts, memory copies, kernel compilation and device probing; a missing device is not modelled.
- Weak memory: kernel steps are sequentially consistent single reads, writes and atomics.
- Floating point: rounding, NaN and the non-associativity of sums; Louvain and PageRank are over the reals.
- Communities.Louvain: labels are unbounded naturals, not 32-bit; node ids attached to labels are not modelled.
- Communities.Levels: the bound on whole runs is for non-negative weights; with negative ones `Modularity.MoveChange` still gives what each move changes exactly.
- GpuPagerank.PagerankGpu: for damping outside zero to one, when a total is zero is not said in terms of the graph; where a total is zero the model stops, without the source's not-a-number values; the refusal of node counts beyond 32 bits is not modelled.
- GpuScc.SccGpu: the casts of node and edge counts to 32 bits are not modelled.
- GpuDominators.DominatorsGpu: the device's refusal is not modelled; only the size check is.
- Dominators.Build: takes a dominator tree as a map, because the library's own algorithm is not visible.
- Telemetry.CivilNext: integers are unbounded; 64-bit overflow of extreme day numbers is not modelled.
- Hll.ApproximateReachability: the cardinality estimate and its bias corrections are not modelled.
- Partition.ComputePartition: parts are compared by their smallest members, which decides because parts are disjoint and ascend.
- Revision stamps, edges and neighbour touching in the graph's mutations.
- `parse_git_log` and `fetch_git_history`; commits are given as lists of file names.
- Louvain's `NodeId` output, resolution defaults and the cached estimates of other metrics.
- Source-language analyses, persistence, file watching, telemetry transport and configuration.
