# PASE_ANN IVF-Flat core, modelled in Dafny

This project models the in-memory IVF-Flat (inverted file, flat vectors)
index of PASE_ANN. Floats are abstracted to `real`, and pages live in an
arena indexed by position. The model has six parts:

- **Pages** (`page.dfy`): how many records fit on an 8 KB page beside its
  forward pointer (`calcTuplesSize`), how many vectors with a 4-byte id each
  fit on a data page (`calcVectorCount`), and where the id region starts
  (`getEndTuples`). Also the page records: `Page`, `CentroidTuple`, and data
  pages of 4-byte words.
- **Data page chains** (`data_chain.dfy`): the first half of `addCentroid`,
  which packs a cluster's vectors and ids into a fresh chain of data pages.
  It also covers how `search` walks such a chain. The round trip is proved:
  reading a chain back yields exactly the members that were stored.
- **The index** (`ivf_index.dfy`): the constructor, the catalog of centroid
  tuples on a chain of centroid pages, `addCentroid`, `train` and `add`.
- **Search** (`ivf_search.dfy`, `sorting.dfy`):
  - the coarse pass over the catalog pages;
  - ranking the clusters and selecting the closest;
  - gathering their members;
  - re-ranking those members and keeping the top `neighbourCount`;
  - `findNearestVectors` and `findNearestVectorIds`.

  `std::sort` is not stable. So the sort is specified only by sortedness
  and by being a permutation of its input, and the re-ranking's guarantee
  holds whatever order ties take. The model's sort is still one fixed
  function, however, so which of several equally distant clusters is
  selected is the model's choice (see Left out).
- **k-means** (`sampling.dfy`, `clustering.dfy`):
  - seeding by `kMeansSample`, both plain and k-means++, with the random
    generator replaced by a stream of drawn indices;
  - `assignPoints`, where the first nearest centroid wins;
  - `computePoints`: componentwise means, plus the shift of the centroids;
  - the epoch loop with its tolerance test;
  - the final membership lists.
- **Distances and recall** (`distance.dfy`, `recall.dfy`):
  - the reference kernels `fvecL2sqrRef`, `fvecNormL2sqrRef` and
    `fvec_inner_product_ref`, and their scalar fallbacks;
  - `squaredDistance`;
  - the recall counter `intersection`.

Three places differ from what their authors evidently intended: the
constructor's dimension check, the id stride of `addCentroid` and `search`,
and the coarse loop. For each one the model keeps the code as written next to
a corrected definition (see Findings). The rest of the model uses the
corrected definitions.

## Model

| member | source | states |
|---|---|---|
| Page.TuplesSize | src/page.hpp:15-17 | the record count is the largest n with n records fitting in the 8192-byte page minus the 8-byte pointer |
| Page.VectorCount | src/page.hpp:19-21 | the vector count is the largest number of vectors, each with its 4-byte id, that fit in the page's tuple bytes |
| Page.EndTuples | src/page.hpp:27-29 | the id region starts inside the page, and behind it there is room for one 4-byte id per vector |
| Page.VectorCountAntitone | src/page.hpp:19-21 | a larger dimension never gives more vectors per page |
| Page.NewPage | src/page.hpp:10-25 | a fresh page holds exactly calcTuplesSize blank records and has no next page |
| Page.RegressionValues | src/page.hpp:6-21 | a 40-byte centroid tuple gives 204 tuples per page; a data page has 2046 words; dimension 128 gives 15 vectors and an id region at word 1920 |
| Page.UnitStrideFits | src/page.hpp:19-29 | with ids one word apart, the last id of a page that holds a vector is still inside the page |
| Distance.L2SqrRef | src/calc_distance.hpp:12-20 | the loop returns the sum of squared differences over the first d components |
| Distance.NormL2SqrRef | src/calc_distance.hpp:22-28 | the loop returns the sum of squares over the first d components |
| Distance.InnerProductRef | src/calc_distance.hpp:30-36 | the loop returns the sum of componentwise products over the first d components |
| Distance.L2Sqr | src/calc_distance.hpp:251-253 | the scalar fallback returns the reference squared distance, which is never negative |
| Distance.InnerProduct | src/calc_distance.hpp:255-257 | the scalar fallback returns the reference inner product, which is the same with its arguments swapped |
| Distance.NormL2Sqr | src/calc_distance.hpp:259-261 | the scalar fallback returns the reference squared norm, which equals the vector's inner product with itself and is never negative |
| Distance.SumSqDiffSymmetric | src/calc_distance.hpp:12-20 | the squared distance is symmetric in its two vectors |
| Distance.SumSqDiffZeroIff | src/calc_distance.hpp:12-20 | the squared distance is zero exactly when the first d components agree |
| Distance.NormIsDistanceToOrigin | src/calc_distance.hpp:12-28 | the squared norm is the squared distance to the zero vector |
| Distance.NormIsSelfInnerProduct | src/calc_distance.hpp:22-36 | the squared norm is the inner product of the vector with itself |
| Distance.DotSymmetric | src/calc_distance.hpp:30-36 | the inner product is symmetric |
| Distance.ZeroDimension | src/calc_distance.hpp:12-36 | with d = 0 all three reference kernels return 0 |
| Distance.SquaredDistance | src/clustering.hpp:43-55 | reads x's components against a y at least as long; never negative; zero exactly when y starts with x |
| Sorting.SortByDist | src/pase.hpp:166-169 | the result is in ascending distance and is a permutation of the input |
| DataChain.LayoutForValid | src/page.hpp:19-29 | the layout record the chain code uses is valid exactly when the page arithmetic leaves room for a vector and for every id |
| DataChain.Splice | src/pase.hpp:58-59 | std::copy then memcpy: the id word holds the id, the copied words hold the vector, and every other word is unchanged |
| DataChain.WriteMemberEffect | src/pase.hpp:57-60 | writing a member into slot s stores exactly that vector and id there, and leaves every other slot's vector and id as they were |
| DataChain.PageSlotSplit | src/pase.hpp:56-69 | member i lies on page PageOf(i) of the chain, at slot SlotOf(i) below the capacity, with i = page * capacity + slot |
| DataChain.ChainLengthIsQuotient | src/pase.hpp:62-69 | a chain of n members has n / capacity + 1 pages; when n is a multiple of the capacity the last page is empty |
| DataChain.ChainLengthBounds | src/pase.hpp:62-69 | the pages before the last are full, and the last holds fewer than capacity members |
| DataChain.BuildChain | src/pase.hpp:50-70 | the loop appends ChainLength fresh pages, each linked to the next and the last to none; member i sits in its slot on its page; the old arena is untouched |
| DataChain.Walk | src/pase.hpp:178-189 | the read-back loop never returns more than the vectorCount it is asked for, and every vector it returns has the layout's dimension; DataChain.WalkLaidOutChain proves it returns exactly the members a chain was built from |
| DataChain.WalkLaidOutChain | src/pase.hpp:178-189 | walking a laid-out chain for vectorCount members reads back exactly the members, in order, with their ids |
| DataChain.WalkExtend | src/pase.hpp:50-51 | appending pages to the arena does not change what an existing chain reads back |
| Ivf.NewIndexAsWritten | src/pase.hpp:26-30 | the constructor fails, with the vector-too-big error, exactly when dimension > calcTuplesSize |
| Ivf.AsWrittenAcceptsFullPage | src/pase.hpp:26-30 | dimension 2046 passes the check, yet no vector fits on a page and the index invariant fails |
| Ivf.AsWrittenIdsOverrun | src/pase.hpp:59-60 | with ids written 4 words apart and dimension 1, the id of slot 256 lands on word 2047, beyond the 2046 words of the page |
| Ivf.AsWrittenFitsAt128 | src/pase.hpp:59-60 | at dimension 128 the ids, 4 words apart, still end inside the page (last id at word 1976) |
| Ivf.AsWrittenInvIffLayoutFits | src/pase.hpp:26-30 | the constructor as written yields an index satisfying the invariant exactly when ids 4 words apart fit the page, so at such dimensions (128 among them) every operation of the model applies to the index the source builds |
| Ivf.NewIndex | src/pase.hpp:26-30 | corrected constructor: fails exactly when no vector fits (or the dimension is 0); otherwise an empty index that satisfies the invariant |
| Ivf.NewIndexNarrowsAsWritten | src/pase.hpp:26-30 | every dimension the corrected constructor accepts, the written one accepts too |
| Ivf.CentroidsArePrefix | src/pase.hpp:72-87 | the catalog is the leading tuples of the centroid pages, read in page order |
| Ivf.AppendCentroid | src/pase.hpp:72-87 | the catalog grows by exactly the new tuple, on a fresh page when the last is full; the shape of the catalog is kept |
| Ivf.AddCentroid | src/pase.hpp:46-88 | the invariant is kept; the catalog grows by one tuple holding the centroid and the member count; the new cluster reads back as the vectors paired with their ids; every earlier cluster reads back as before; the centroid may be longer than the dimension, as the source allows |
| Ivf.MembersSurviveGrowth | src/pase.hpp:46-88 | a cluster whose tuple is unchanged reads back the same members after the arena grows |
| Ivf.AddClusters | src/pase.hpp:94-96 | one addCentroid per cluster in order: cluster c reads back as its points paired with its ids, and earlier clusters are untouched |
| Ivf.Train | src/pase.hpp:90-97 | fails exactly when kMeans fails, and otherwise holds the kMeans clusters in cluster order |
| Ivf.Add | src/pase.hpp:99-110 | fails exactly when the cluster list has the wrong size, and otherwise leaves the index unchanged |
| IvfSearch.CoarseFrom | src/pase.hpp:156-164 | the coarse loop from a page on, with or without the decrement: every tuple it reads is a tuple of the catalog pages, and with the decrement it reads at most clustersLeft; IvfSearch.CoarsePrefix and IvfSearch.CoarseWholePages pin down what each variant reads |
| IvfSearch.CoarseWholePages | src/pase.hpp:156-164 | while clustersLeft stays at least one page's worth, the loop as written reads every tuple of every page |
| IvfSearch.CoarseAsWrittenSmallCatalog | src/pase.hpp:156-164 | while the catalog fits on one page, the loop as written reads exactly the written tuples |
| IvfSearch.CoarseAsWrittenReadsBlank | src/pase.hpp:156-164 | once the catalog spans two pages and the last is not full, the loop as written reads a blank tuple past the written ones |
| IvfSearch.CoarseAsWrittenAt205 | src/pase.hpp:156-164 | with 205 clusters the loop as written reads 408 tuples, and tuple 205 is blank |
| IvfSearch.CoarsePrefix | src/pase.hpp:156-164 | with the decrement, the loop reads exactly the first clustersLeft tuples of the pages |
| IvfSearch.CoarseReadsCatalog | src/pase.hpp:156-164 | the corrected coarse loop reads the first clusterCount tuples of the catalog |
| IvfSearch.Ranked | src/pase.hpp:156-164 | each read cluster is paired with its squared distance over min(query size, dimension) components |
| IvfSearch.Select | src/pase.hpp:166-174 | picks clusterCountToSelect distinct clusters of the catalog, and no unpicked cluster is strictly closer than a picked one |
| IvfSearch.Nearest | src/pase.hpp:191-205 | neighbourCount candidates, counted with multiplicity, in ascending distance; no candidate left out is strictly closer than one returned |
| IvfSearch.Search | src/pase.hpp:138-206 | neighbourCount members of the selected clusters, nearest first, with none left out strictly closer |
| IvfSearch.FindNearestVectors | src/pase.hpp:113-123 | neighbourCount vectors, drawn with multiplicity from the vectors stored in the selected clusters, nearest first, and no stored vector left out is strictly closer than one returned |
| IvfSearch.NearestVectors | src/pase.hpp:119-121 | dropping the ids from a nearest-first answer leaves a nearest-first answer over the candidates' vectors |
| IvfSearch.FindNearestVectorIds | src/pase.hpp:125-135 | neighbourCount ids; paired with the vectors found, they are the search answer: members of the selected clusters, nearest first, none left out strictly closer |
| IvfSearch.ExactMatchFirst | src/pase.hpp:191-205 | when a candidate equals the query on the index's dimension, the first result does too |
| IvfSearch.Gather | src/pase.hpp:176-189 | the members of the chosen clusters' chains, cluster after cluster, each of the index's dimension; IvfSearch.GatherPermutation and IvfSearch.SelectAllIsExhaustive prove the order of clusters does not matter and that choosing all gathers every stored member |
| IvfSearch.GatherPermutation | src/pase.hpp:176-189 | gathering the same clusters in another order gathers the same members |
| IvfSearch.SelectAllIsExhaustive | src/pase.hpp:171-189 | selecting every cluster makes the candidates all stored members, in some order |
| Sampling.DedupSpec | src/clustering.hpp:78-85 | the accepted draws are distinct and are exactly the indices drawn |
| Sampling.DistinctBounded | src/clustering.hpp:78-85 | distinct indices below n number at most n |
| Sampling.SampleFrom | src/clustering.hpp:76-106 | the rejection loop returns the first clusterCount distinct draws, copied from points, plus the k-means++ weights; it runs out exactly when the stream has too few distinct draws |
| Sampling.KMeansSample | src/clustering.hpp:63-109 | clusterCount 0 gives no centroids; otherwise the centroids are the points at the first clusterCount distinct draws, or there is no sample when the stream has fewer distinct indices |
| Sampling.TooFewPoints | src/clustering.hpp:76-86 | asking for more centroids than points never succeeds |
| Sampling.AddDistances | src/clustering.hpp:102-105 | every weight grows by the point's squared distance to the new centroid |
| Sampling.WeightsNeverDecrease | src/clustering.hpp:102-105 | a point's weight never decreases as centroids are added |
| Sampling.WeightsPositive | src/clustering.hpp:89 | every weight is at least the 1e-6 start value |
| Clustering.Scan | src/clustering.hpp:121-129 | the inner loop either keeps the starting minimum and label, or ends on a scanned centroid with its squared distance, and no scanned centroid is strictly below the final minimum; Clustering.ScanFindsFirstNearest proves that from the sentinel it ends on the first nearest centroid |
| Clustering.ScanFindsFirstNearest | src/clustering.hpp:121-129 | starting from the sentinel, the scan ends on the lowest-indexed nearest centroid and its squared distance |
| Clustering.FirstNearestUnique | src/clustering.hpp:121-129 | there is only one first nearest centroid |
| Clustering.AssignPoints | src/clustering.hpp:111-138 | from the sentinel, every point gets the label of its first nearest centroid; with no centroids nothing changes |
| Clustering.Accumulate | src/clustering.hpp:149-156 | one running sum of the points' width and one count per cluster; Clustering.AccumulateSumsGroups proves they are each cluster's componentwise sum and size |
| Clustering.AccumulateSumsGroups | src/clustering.hpp:149-156 | the running sums and counts are the componentwise sums and sizes of the clusters |
| Clustering.ShiftZeroIff | src/clustering.hpp:158-167 | the squared shift is never negative, and is zero exactly when no centroid moved |
| Clustering.ConvergedIsRootBelow | src/clustering.hpp:168-196 | the test on the squared shift agrees with comparing its square root against tol |
| Clustering.ComputePoints | src/clustering.hpp:140-170 | each centroid becomes the mean of its points; fails on an empty point set or an empty cluster (the lowest one); the shift is zero exactly when nothing moved |
| Clustering.Epochs | src/clustering.hpp:188-198 | at most maxEpochs epochs; only the last shift may be converged; stopping early means it was; after an epoch every point is labelled with its nearest centroid and every centroid is its cluster's mean |
| Clustering.Memberships | src/clustering.hpp:204-207 | one point list and one id list per cluster; Clustering.MembershipsPartition proves the lists partition the points by label in increasing index order |
| Clustering.MembershipsPartition | src/clustering.hpp:204-207 | the lists partition the point indices by label, in increasing order, each vector paired with its own index |
| Clustering.Iterate | src/clustering.hpp:177-207 | the loop's outcome: one list per seed, labels in range, lists built from the final labels, the stop rule; with no epochs the seeds and label 0 |
| Clustering.KMeans | src/clustering.hpp:172-210 | fails with DrawsExhausted exactly when the draws run out, with NoPoints exactly on no points, and otherwise only when an epoch leaves a cluster empty; on success as Iterate, from the k-means++ seeds |
| Clustering.DuplicatePointsLeaveClusterEmpty | src/clustering.hpp:121-164 | two equal points seeded as two clusters both take centroid 0, so cluster 1 is empty and the first epoch fails |
| Clustering.KMeansShape | src/clustering.hpp:172-210 | clusterCount lists and centroids of the points' width, and each cluster has as many ids as vectors |
| Clustering.SettledClustersNearest | src/clustering.hpp:188-207 | after an epoch, every vector listed in cluster c has c as its first nearest centroid |
| Recall.Intersection | src/utils.cpp:7-18 | the u_int32 count of the first topK ground truth ids found among the predictions, wrapping at 2^32 |
| Recall.HitsIsIntersection | src/utils.cpp:11-16 | with distinct ground truth ids, the count is the size of the intersection of the predicted ids with the first topK ground truth ids |
| Recall.HitsCountsPositions | src/utils.cpp:12-16 | the count is the number of positions whose ground truth id was predicted |
| Recall.HitsDependOnlyOnSet | src/utils.cpp:10-11 | reordering or repeating predictions does not change the count |
| Recall.PerfectRecall | src/utils.cpp:7-18 | when every one of the first n ground truth ids is predicted, the count is n |

## Left out

- Non-float element types: for `T` other than float the source converts to float and, in `search`, takes a square root. The root is monotone, so ranking by squared distance is the same. The int paths and the truncation when centroids are converted back to `T` are not modelled.
- Distance.InnerProduct: the scalar fallback (calc_distance.hpp:256) and the aarch64 branch (calc_distance.hpp:225) call `fvecInnerProductRef`, and the aarch64 `fvecL2sqr` (calc_distance.hpp:211) calls `fvecL2sqr_ref`; neither name is declared anywhere, the reference kernels being `fvec_inner_product_ref` and `fvecL2sqrRef`. As written those builds do not compile; the model follows the evident intent and calls the declared reference kernels.
- Float arithmetic: sums, means and distances are exact `real`s. Rounding, summation order, the SIMD and NEON kernels and `sqrtf` are not modelled. The tolerance test `sqrt(shift) < tol` is stated on the squared shift, and Clustering.ConvergedIsRootBelow shows the two agree.
- The `FLT_MAX` sentinel is an explicit `Infinity` bound, so a distance equal to `FLT_MAX` is not modelled.
- Randomness: the clock-seeded `mt19937` and `discrete_distribution` are replaced by a finite stream of drawn indices, and the generator is not modelled. When the stream runs out before enough distinct indices are drawn, sampling reports it. The source would keep drawing, and never stops when clusterCount exceeds the number of points.
- Sampling.KMeansSample: every drawn index must be below the number of points (and so does Clustering.KMeans). This excludes two source behaviours. First, the `thread_local` distribution is built once (clustering.hpp:92) and reassigned after every pick (clustering.hpp:105), so the first k-means++ pick of a later call draws from the previous call's final weights over the previous call's point count; with fewer points now, that index can lie past `points`, which is undefined behaviour. Second, with no points and clusterCount at least 1, plain sampling computes `gen() % 0` (clustering.hpp:79), which is a crash, and k-means++ sampling draws index 0 of the empty point set.
- Sampling.KMeansSample: the k-means++ weights are computed and proved, but nothing about the draws' dependence on them is stated, because the draws are an input.
- The thread pool in `assignPoints`: each task writes only its own point's slot, so the model is sequential.
- Clustering.ComputePoints: an empty cluster makes the source divide 0 by 0 and store NaN; the model returns an `EmptyCluster` error instead. `points.at(0)` on no points is a `NoPoints` error.
- Clustering.KMeans: where an epoch leaves a cluster empty, the source stores a NaN centroid, gets a NaN shift (never below tol) and carries on; the model stops with `EmptyCluster` instead, so it says nothing about the run after that epoch.
- Clustering.ComputePoints: the reset of `minSquaredDist` to the sentinel is not a separate output; every epoch of Clustering.Epochs starts from the sentinel instead.
- u_int32 labels and counts: labels and counts are unbounded `nat`. The id lists convert indices to u_int32, and Clustering.MembershipsPartition is stated for at most 2^32 points.
- Destructors, `new` and `delete`: pages live in arenas indexed by position, and links are `Option<nat>`.
- The per-point assignment in `add` is an unfinished loop with an empty body in the source. Like the source, the model stores nothing there.
- IvfSearch.Search: the source indexes past its vectors when clusterCountToSelect exceeds the clusters ranked, or neighbourCount exceeds the candidates, and it reads `dimension` components of the query (pase.hpp:192) even when the query is shorter. This undefined behaviour is excluded by the preconditions, which ask for enough clusters and candidates and a query of at least `dimension` components.
- IvfSearch.Search: when clusters at the same coarse distance straddle the clusterCountToSelect cut, the model's insertion sort keeps the lower catalog position, while `std::sort` (pase.hpp:167-169) may put either first. The source may then gather the other tied cluster, and the search's guarantee is stated only for the model's choice. IvfSearch.Select's own contract holds for any tie order; the re-ranking's guarantee does not depend on ties.
- Ivf.AddCentroid: every vector must have exactly `dimension` components. With a longer or shorter vector the copy at pase.hpp:58 can step past the `endTuples` test at pase.hpp:62, so the source writes beyond the page, and the search, which reads `dimension` words per member, no longer reads back what was stored. That case is excluded by the precondition.
- Ivf.Train: the points must have exactly `dimension` components, for the same reason as Ivf.AddCentroid, and a cluster count of 0 is allowed only with no points, as for Clustering.KMeans.
- Clustering.KMeans: a cluster count of 0 with points is excluded by the precondition; there the source increments `newPoints[clusterId]` of an empty vector (clustering.hpp:151), or pushes onto `data.clusters[pointsId[i]]` of an empty list (clustering.hpp:205), which is undefined behaviour.
- Search ranks clusters by their catalog position, which identifies the tuple the source points to.
- IvfSearch.Ranked: it ranks exactly the first clusterCount catalog tuples, as the corrected coarse loop does. Besides the blank-tuple case of Findings, the loop as written also differs when clusterCount is below the number of catalog tuples and these span several pages: it then ranks up to clusterCount written tuples from every page (for example 20 from each of the two pages of a 304-centroid catalog), which the model does not.
- Ivf.NewIndex: besides the full-page case, it also rejects dimension 0. At that dimension `addCentroid` starts a new page for every member, while `search` reads up to 2046 members from each page.
- The parser, the timers and printing, the benchmark tests and the PostgreSQL client scripts are outside the index core.

## Findings

| source | as written | input that shows it | evidently intended | confidence | as-written member | corrected member |
|---|---|---|---|---|---|---|
| src/pase.hpp:27 | refuses only `dimension > calcTuplesSize()` | dimension 2046: accepted, but `calcVectorCount(2046) == 0`, so the id region starts at word 0; a copied vector never ends there, no new page is started, and the second member is copied past the end of the page | refuse every dimension for which no vector fits on a page | not executed | Ivf.AsWrittenAcceptsFullPage | Ivf.NewIndex |
| src/pase.hpp:60 | `nextIdPtr += 4` on a `u_int32_t*` puts ids 4 words apart, while `calcVectorCount` reserves one word per id | dimension 1: 1023 vectors per page, and the id of slot 256 is written at word 2047 of a 2046-word page | ids one word apart (`nextIdPtr += 1`, or a byte pointer) | not executed | Ivf.AsWrittenIdsOverrun | Ivf.NewIndex |
| src/pase.hpp:156-164 | `clustersLeft` is never decreased, so every page contributes min(its tuples, clusterCount) entries | 205 clusters: page 0 gives 204 tuples, page 1 gives all 204 of its tuples; 408 entries, of which tuple 205 is a blank tuple with no data chain | decrease `clustersLeft` by the tuples read, so exactly clusterCount tuples are ranked | not executed | IvfSearch.CoarseAsWrittenReadsBlank | IvfSearch.CoarseReadsCatalog |
