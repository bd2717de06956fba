# Clustering of silicon cells in traccc, modelled in Dafny

This project models the three clustering paths of the traccc
clusterization code and proves what each of them computes.

- **1-D sparse connected-component labelling** (`sparse_ccl_1d` and the
  host algorithm `sparse_ccl_1d_algorithm`). Cells are sorted by module and
  channel0. Each cell is joined to the earlier cells it touches (same
  module, channel0 at most one apart) through a union-find over a label
  array. A second pass turns roots into dense cluster ids, and the host
  algorithm groups cell indices into one bucket per id. The model proves
  the following:
  - the ids are the connected components of the adjacency relation,
    numbered in order of each component's first cell;
  - the buckets partition the cell indices;
  - channel1 plays no part.
- **DBSCAN with a Gower distance** (`DBSCANGowerAlgorithm`). The distance
  is the mean absolute per-dimension difference of two feature vectors.
  Points with at least `minPts` neighbours within `eps` are core points. A
  breadth-first expansion from every unvisited core point opens the next
  cluster id, and points too sparse to be core become noise (0). The model
  proves the usual DBSCAN guarantees:
  - no core point is noise;
  - every neighbour of a core point is clustered;
  - every clustered point is a core point or a neighbour of a core point
    with its id, so a point far from every core point is noise;
  - core points within `eps` of each other share an id;
  - core points that share an id are density-connected through core points;
  - ids run without gaps from 1.
- **Gap-threshold 1-D clustering** (`cluster_1d`). Hits are sorted by
  position. The first hit gets id 0, and the id goes up by one wherever the
  gap to the previous hit exceeds the threshold. The model proves the
  following:
  - the sort gives an ordered permutation of the positions;
  - two hits share an id exactly when no gap between them exceeds the
    threshold;
  - ids are non-decreasing and contiguous;
  - the last id counts the big gaps.

Files:

| file | module | models |
|---|---|---|
| `cells.dfy` | `Cells` | the cell record, the `channel0_only_order` comparator, the ordering preconditions |
| `sparse_ccl_1d.dfy` | `SparseCcl1dDetails` | `find_root`, `make_union`, `is_adjacent_1d`, `is_far_enough_1d`, `sparse_ccl_1d`, and the connected-component specification |
| `sparse_ccl_1d_algorithm.dfy` | `SparseCcl1dAlgorithm` | the host algorithm's call operator (bucketing by label) |
| `wrappers.dfy` | `Wrappers` | `Option`, which stands for a NaN distance |
| `dbscan_gower.dfy` | `DbscanGower` | `gower_distance`, `cluster` |
| `clustering_1d.dfy` | `Clustering1D` | `cluster_1d` |

The body of `sparse_ccl_1d` and its helpers lives in
`core/include/traccc/clusterization/impl/sparse_ccl_1d.ipp`, which is not
part of this model: only the declarations and doc comments in
`sparse_ccl_1d.hpp` are available. Those functions are therefore modelled
after their documented contracts and after the SparseCCL scheme they cite:
- labels start as their own index;
- each cell scans backwards over earlier cells, stops at the first that is
  far enough, and unions with every adjacent one;
- a union hangs the higher root under the lower;
- a second pass replaces each root by a running count and each other entry
  by its parent's final id.

The model table below therefore cites the declarations. `is_far_enough_1d`
is modelled as "different module, or channel0 more than one above the
earlier cell", which is what its comment (no absolute value, because the
cells are sorted) and the adjacency test imply.

## Model

| member | source | states |
|---|---|---|
| Cells.Channel0OnlyOrderIsStrict | core/src/clusterization/sparse_ccl_1dalgorithm.cpp:27-32 | the comparator is irreflexive, asymmetric and transitive, and cells it does not separate agree on module and channel0 |
| Cells.OrderedOnIsSorted | core/src/clusterization/sparse_ccl_1dalgorithm.cpp:25-34 | order checked on neighbouring cells gives the order of every pair, and with it that each module's cells are contiguous |
| SparseCcl1dDetails.AdjacentIsSymmetric | core/include/traccc/clusterization/details/sparse_ccl_1d.hpp:43-52 | 1-D adjacency is symmetric and reflexive |
| SparseCcl1dDetails.FarEnoughIsSound | core/include/traccc/clusterization/details/sparse_ccl_1d.hpp:54-65 | on sorted cells, once an earlier cell is far enough from the current one, no cell at or before it is adjacent, so the backward scan may stop |
| SparseCcl1dDetails.FarEnoughExcludesAdjacent | core/include/traccc/clusterization/details/sparse_ccl_1d.hpp:54-65 | far enough and adjacent never hold together |
| SparseCcl1dDetails.FindRoot | core/include/traccc/clusterization/details/sparse_ccl_1d.hpp:24-31 | without modifying the table, returns the root of `e`'s tree, which is its own parent and is reached from `e` by parent links |
| SparseCcl1dDetails.MakeUnion | core/include/traccc/clusterization/details/sparse_ccl_1d.hpp:33-41 | hangs the higher of the two roots under the lower; afterwards both entries have the returned lower root as their root, and every other tree keeps its root |
| SparseCcl1dDetails.UnionOnlyJoins | core/include/traccc/clusterization/details/sparse_ccl_1d.hpp:33-41 | a union only joins trees: entries that shared a root still do, the two entries now do, and two entries share a root afterwards exactly when they did before or both lay in the two merged trees |
| SparseCcl1dDetails.LeaderIsLowest | core/include/traccc/clusterization/details/sparse_ccl_1d.hpp:67-76 | the leader of a cell is the lowest index connected to it, and no lower index is connected to the leader |
| SparseCcl1dDetails.CanonicalLabelPartition | core/include/traccc/clusterization/details/sparse_ccl_1d.hpp:67-76 | two cells get the same cluster id exactly when a chain of adjacent cells joins them |
| SparseCcl1dDetails.CanonicalLabelDense | core/include/traccc/clusterization/details/sparse_ccl_1d.hpp:67-76 | every id is below the number of clusters, and every id below it is used |
| SparseCcl1dDetails.SparseCcl1d | core/include/traccc/clusterization/details/sparse_ccl_1d.hpp:67-76 | on sorted cells writes one label per cell and returns the number of clusters; the labels are the connected components numbered in order of first cell |
| SparseCcl1dDetails.JoinAdjacentCells | core/include/traccc/clusterization/details/sparse_ccl_1d.hpp:54-76 | after the union scan with early exit, every pair of adjacent cells shares a root and every root is connected to its whole tree |
| SparseCcl1dDetails.ResolveLabels | core/include/traccc/clusterization/details/sparse_ccl_1d.hpp:67-76 | the second pass gives every cell the number of roots below its own root, and returns the number of roots |
| SparseCcl1dDetails.ResolveStep | core/include/traccc/clusterization/details/sparse_ccl_1d.hpp:67-76 | a root resolves to itself and adds one to the count of roots; any other entry points to a lower index with the same root and leaves the count unchanged |
| SparseCcl1dDetails.ResolveEntry | core/include/traccc/clusterization/details/sparse_ccl_1d.hpp:67-76 | one step of the second pass: after it, entry `i` also holds the dense id of its root, the entries above it are untouched, and the returned count is the number of roots up to `i` |
| SparseCcl1dDetails.ResolveAdvance | core/include/traccc/clusterization/details/sparse_ccl_1d.hpp:67-76 | giving a root the count of roots below it, or any other entry its parent's id, extends the resolved prefix by one |
| SparseCcl1dDetails.SameRootIffConnected | core/include/traccc/clusterization/details/sparse_ccl_1d.hpp:67-76 | after the union scan, two cells share a root exactly when they are connected |
| SparseCcl1dDetails.RootIsLeader | core/include/traccc/clusterization/details/sparse_ccl_1d.hpp:67-76 | after the union scan, each cell's root is the lowest index of its component, and the roots are exactly those lowest indices |
| SparseCcl1dDetails.CountRootsIsCountLeaders | core/include/traccc/clusterization/details/sparse_ccl_1d.hpp:67-76 | the number of roots below any index equals the number of components that start below it |
| SparseCcl1dDetails.MergeKeepsRootsConnected | core/include/traccc/clusterization/details/sparse_ccl_1d.hpp:33-41 | a union of two adjacent cells keeps every root joined to its tree by a chain |
| SparseCcl1dDetails.MergeKeepsSharedRoot | core/include/traccc/clusterization/details/sparse_ccl_1d.hpp:33-41 | entries that shared a root before a union still share one after it |
| SparseCcl1dDetails.ConnectedSymmetric | core/include/traccc/clusterization/details/sparse_ccl_1d.hpp:43-52 | connectivity through adjacent cells is symmetric |
| SparseCcl1dDetails.ConnectedTransitive | core/include/traccc/clusterization/details/sparse_ccl_1d.hpp:43-52 | connectivity through adjacent cells is transitive |
| SparseCcl1dAlgorithm.Cluster | core/src/clusterization/sparse_ccl_1dalgorithm.cpp:20-50 | on cells ordered by module and channel0, returns exactly one bucket per cluster, holding the indices of that cluster's cells |
| SparseCcl1dAlgorithm.IndicesWithLabelSpec | core/src/clusterization/sparse_ccl_1dalgorithm.cpp:45-47 | a bucket holds exactly the indices with its label, in strictly increasing order |
| SparseCcl1dAlgorithm.BucketsPartition | core/src/clusterization/sparse_ccl_1dalgorithm.cpp:42-47 | each index sits in the bucket of its label and in no other, buckets are strictly increasing, and the bucket sizes add up to the number of cells |
| SparseCcl1dAlgorithm.SameBucketIffSameLabel | core/src/clusterization/sparse_ccl_1dalgorithm.cpp:45-47 | two indices share a bucket exactly when they carry the same label |
| SparseCcl1dAlgorithm.ClustersAreComponents | core/src/clusterization/sparse_ccl_1dalgorithm.cpp:36-47 | a cluster holds exactly the cells connected to any one of its members |
| SparseCcl1dAlgorithm.ClustersCoverCells | core/src/clusterization/sparse_ccl_1dalgorithm.cpp:39-47 | every cell is in the cluster of its own id, no cluster is empty, and the cluster sizes add up to the number of cells |
| SparseCcl1dAlgorithm.ConnectedIgnoresChannel1 | core/include/traccc/clusterization/sparse_ccl_1dalgorithm.hpp:21-24 | connectivity is the same for two cell sequences that agree on module and channel0 |
| SparseCcl1dAlgorithm.ClustersIgnoreChannel1 | core/include/traccc/clusterization/sparse_ccl_1dalgorithm.hpp:21-24 | changing channel1 or the signal of any cell leaves the ids, the cluster count and the clusters unchanged |
| DbscanGower.GowerDistance | core/include/traccc/clusterization/impl/dbscan_gower_algorithm.cpp:7-14 | the accumulating loop computes the mean absolute per-dimension difference, undefined (NaN) for vectors without dimensions |
| DbscanGower.SumAbsDiffProperties | core/include/traccc/clusterization/impl/dbscan_gower_algorithm.cpp:7-14 | the summed differences are non-negative, symmetric, zero against itself, and at most the dimension count on features in [0, 1] |
| DbscanGower.GowerIsDissimilarity | core/include/traccc/clusterization/impl/dbscan_gower_algorithm.cpp:7-14 | on non-empty vectors of one length the distance is defined, non-negative, symmetric and zero against itself, and at most 1 on features in [0, 1] |
| DbscanGower.GowerOfEmptyIsUndefined | core/include/traccc/clusterization/impl/dbscan_gower_algorithm.cpp:9-13 | with no dimensions the distance is 0/0, i.e. NaN |
| DbscanGower.WithinIsSymmetric | core/include/traccc/clusterization/impl/dbscan_gower_algorithm.cpp:29-31 | on rectangular features, "within eps" is symmetric |
| DbscanGower.NeighboursMembers | core/include/traccc/clusterization/impl/dbscan_gower_algorithm.cpp:27-32 | the neighbour list holds exactly the points within eps, in both directions |
| DbscanGower.SelfIsNeighbour | core/include/traccc/clusterization/impl/dbscan_gower_algorithm.cpp:27-32 | a point is in its own neighbour list exactly when it has dimensions (so its distance is defined) and eps is not negative |
| DbscanGower.FindNeighbours | core/include/traccc/clusterization/impl/dbscan_gower_algorithm.cpp:27-32 | the scan over all points returns exactly the points within eps, in index order |
| DbscanGower.Cluster | core/include/traccc/clusterization/impl/dbscan_gower_algorithm.cpp:16-61 | returns one label per point, a DBSCAN labelling: every label is noise or an id in 1..n; no core point is noise and every core point is clustered; every point within eps of a core point is clustered; every clustered point is core or within eps of a core point with its id; core points within eps share an id; core points that share an id are density-connected through core points; ids are used without gaps from 1 |
| DbscanGower.VisitPoint | core/include/traccc/clusterization/impl/dbscan_gower_algorithm.cpp:24-58 | one outer step keeps the scan invariant and only moves labels forward: an already classified point leaves the labels and the id unchanged; an unclassified sparse point becomes noise and nothing else changes; an unclassified core point gets the current id, every label the step changes now holds that id, and the next id is one higher |
| DbscanGower.GrowCluster | core/include/traccc/clusterization/impl/dbscan_gower_algorithm.cpp:37-58 | an unclassified core point opens the current id, is labelled with it, and its expansion runs to completion; every changed label holds that id, and the scan invariant holds with the next id |
| DbscanGower.ExpandCluster | core/include/traccc/clusterization/impl/dbscan_gower_algorithm.cpp:42-56 | the queue expansion terminates with the queue empty; every label it changes now holds the open id and was unclassified or noise; afterwards every point within eps of a clustered core point is clustered, every clustered point is core or within eps of a core point with its id, and every core point of the open cluster is density-connected to the point that opened it |
| DbscanGower.DequeueOne | core/include/traccc/clusterization/impl/dbscan_gower_algorithm.cpp:42-56 | one pass of the queue loop: the dequeued point's label becomes the open id when it was noise or unclassified, and no other label changes; the new queue is the rest of the old one, followed by the point's whole neighbour list when it was unclassified and core; the expansion invariants are kept, and either one point stops being unclassified or the queue gets shorter |
| DbscanGower.FinishedLabelling | core/include/traccc/clusterization/impl/dbscan_gower_algorithm.cpp:22-60 | once every point is classified and the scan invariants hold, the labels have all the properties `Cluster` promises |
| DbscanGower.SameIdCoresConnected | core/include/traccc/clusterization/impl/dbscan_gower_algorithm.cpp:37-58 | core points whose clusters were opened from the same point are density-connected to each other |
| DbscanGower.UnreachedIsNoise | core/include/traccc/clusterization/impl/dbscan_gower_algorithm.cpp:33-35 | in any DBSCAN labelling, a point that is not core and lies within eps of no core point is noise |
| DbscanGower.CoresWithinShareId | core/include/traccc/clusterization/impl/dbscan_gower_algorithm.cpp:42-56 | in any DBSCAN labelling, two core points within eps of each other are clustered with one id |
| DbscanGower.IdsHaveNoGaps | core/include/traccc/clusterization/impl/dbscan_gower_algorithm.cpp:58 | in any DBSCAN labelling, an id above 1 has its predecessor in use |
| DbscanGower.EveryClusterHasCore | core/include/traccc/clusterization/impl/dbscan_gower_algorithm.cpp:37-40 | in any DBSCAN labelling, every cluster holds a core point |
| DbscanGower.IsolatedPointIsNoise | core/include/traccc/clusterization/impl/dbscan_gower_algorithm.cpp:16-61 | for two close points and one far point with minPts 2, every DBSCAN labelling is [1, 1, 0]: the close pair is cluster 1 and the far point is noise |
| DbscanGower.CoreConnectedSymmetric | core/include/traccc/clusterization/impl/dbscan_gower_algorithm.cpp:42-56 | density-connection through core points within eps is symmetric |
| DbscanGower.CoreConnectedTransitive | core/include/traccc/clusterization/impl/dbscan_gower_algorithm.cpp:42-56 | density-connection through core points within eps is transitive |
| DbscanGower.MarkNoiseStep | core/include/traccc/clusterization/impl/dbscan_gower_algorithm.cpp:33-35 | marking a non-core unclassified point as noise keeps the invariants |
| DbscanGower.PromoteNoiseStep | core/include/traccc/clusterization/impl/dbscan_gower_algorithm.cpp:43-44 | promoting dequeued noise to the open id keeps the invariants |
| DbscanGower.ClaimStep | core/include/traccc/clusterization/impl/dbscan_gower_algorithm.cpp:45-55 | claiming an unclassified point and queueing the neighbours of a core point keeps the invariants |
| DbscanGower.CloseClusterStep | core/include/traccc/clusterization/impl/dbscan_gower_algorithm.cpp:57-58 | once the queue is empty, core points within eps of a clustered core point share its id |
| DbscanGower.CountUnclassifiedUpdate | core/include/traccc/clusterization/impl/dbscan_gower_algorithm.cpp:44-46 | claiming a point removes one from the unclassified count and promoting noise leaves it, which bounds the expansion |
| DbscanGower.AdvancedToIsTransitive | core/include/traccc/clusterization/impl/dbscan_gower_algorithm.cpp:42-56 | two expansions that each only write one id compose into one that only writes that id |
| Clustering1D.SortByPosition | core/src/clusterization/clustering1D.cpp:15-18 | sorts the hits in place by position, keeping the multiset of hits |
| Clustering1D.SinkInto | core/src/clusterization/clustering1D.cpp:15-18 | one insertion step extends the sorted prefix by one hit, keeping the multiset of hits and leaving the hits after it untouched |
| Clustering1D.PermutationKeepsPositions | core/src/clusterization/clustering1D.cpp:15-18 | a permutation of the hits is a permutation of their positions |
| Clustering1D.Cluster1d | core/src/clusterization/clustering1D.cpp:12-34 | the early return on empty input (line 12) is stated only trivially, as the empty array being unchanged; on non-empty input the hits end sorted by position, as a permutation of the input positions, with every id overwritten by the gap id of its position |
| Clustering1D.AssignIds | core/src/clusterization/clustering1D.cpp:20-33 | the labelling pass keeps every position and gives every hit its gap id |
| Clustering1D.FirstIdIsZero | core/src/clusterization/clustering1D.cpp:20-21 | the first hit gets id 0 |
| Clustering1D.IdStep | core/src/clusterization/clustering1D.cpp:24-33 | a hit shares its predecessor's id exactly when the gap is within the threshold, and otherwise gets one more |
| Clustering1D.IdsNonDecreasing | core/src/clusterization/clustering1D.cpp:20-33 | ids never decrease along the sorted hits |
| Clustering1D.IdsContiguous | core/src/clusterization/clustering1D.cpp:20-33 | every id from 0 to a hit's id is taken by some hit at or before it |
| Clustering1D.IdCountsBigGaps | core/src/clusterization/clustering1D.cpp:20-33 | a hit's id is the number of gaps up to it that exceed the threshold, so the last id counts all such gaps |
| Clustering1D.SameIdIffNoBigGap | core/src/clusterization/clustering1D.cpp:24-33 | two hits share an id exactly when no gap between them exceeds the threshold: clusters are maximal runs of close hits |

## Left out

- The body of `sparse_ccl_1d.ipp` is not part of this model. The union-find and the two scans follow the header's documented contracts and the SparseCCL scheme it cites, so the exact statements of that file cannot be compared.
- SparseCcl1dAlgorithm.Cluster: the `is_contiguous_on` / `is_ordered_on` checks (lines 25 and 34 of `sparse_ccl_1dalgorithm.cpp`) are `assert`s in the source. They are the precondition `OrderedOn(cells)` here, not run-time checks. The `Sorted` precondition of `SparseCcl1dDetails.SparseCcl1d` follows from it through `Cells.OrderedOnIsSorted`.
- The 32-bit `unsigned int` width of labels, channels and module indices, the `int` width of DBSCAN ids, and the `int cluster_id` of `cluster_1d` (whose increment could overflow in the source on more than 2^31 - 1 big gaps), are not modelled; they are unbounded naturals and integers.
- Floating point: feature values, positions, the threshold and eps are exact reals. Rounding in the distance, the mean and the position differences is not captured. The NaN of an empty feature vector is modelled as an undefined distance that is never within eps.
- DbscanGower.Cluster: requires all feature vectors to have one length. The source reads the second vector at every index of the first and has undefined behaviour when it is shorter.
- DbscanGower.Cluster: the result is characterised by the DBSCAN properties above, not as a function of the inputs. Which cluster a border point joins when two clusters reach it, and the exact numbering, are therefore not stated.
- Clustering1D.SortByPosition: `std::sort` is modelled by an insertion sort. Only what `std::sort` promises is stated (sorted, a permutation); since the sort is unstable, the order of hits at equal positions is left open.
- Clustering1D.Cluster1d: `cells` is a `std::vector` of records. It is modelled as an array of immutable records, and each id write replaces the whole record with its id changed.
- The orchestration in `core/src/clusterization/clusterization_algorithm.cpp` (feature extraction, label conversion, measurement creation) is not modelled. It calls code that is not part of this model. It fixes eps = 0.3 and minPts = 5 (line 29), which `DbscanGower.Params` takes as parameters.
- DbscanGower.Cluster: the queue loop's body and the branch that opens a cluster are separate methods (`DequeueOne`, `GrowCluster`). This keeps each proof small; it does not change the order of the writes.
- The body of the second pass's loop in `SparseCcl1dDetails.ResolveLabels` is likewise a separate method (`ResolveEntry`), for the same reason.
- Logging, memory resources, `main` of `clustering1D.cpp` and console output: I/O with no effect on the results.
