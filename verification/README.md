# Sensor-fusion time-to-collision core, modelled in Dafny

This project models the estimation core of a camera/LiDAR collision-warning
pipeline. It covers:

- the robust statistics (`getMedianFromVector`, `getMedianFromQueue`);
- the LiDAR time-to-collision (`computeTTCLidar`);
- the camera time-to-collision (`getKeyPointDistanceRatios`, `computeTTCCamera`);
- assigning LiDAR points to shrunk bounding boxes (`clusterLidarWithROI`);
- filtering correspondences inside a box (`clusterKptMatchesWithROI`);
- matching bounding boxes across frames by voting (`matchBoundingBoxes`);
- from `matchDescriptors`, the k-nearest-neighbour ratio filter;
- from `detKeypointsHarris`, the non-maximum suppression loop.

All arithmetic is exact (`real`, unbounded `int`). The C++ conversions the
code relies on are written out in `Common`:

- integer `/` and `%` truncate toward zero;
- assigning a double to an `int` truncates;
- turning a `cv::Point2f` into the `cv::Point` that `Rect::contains` takes
  uses cvRound, which rounds halves to even.

Reads through `operator[]` outside a vector are undefined behaviour in C++;
the model makes them explicit results (`None`, `OutOfRangeRead`). Key points
are looked up through `std::vector::at`, which throws `std::out_of_range` for
a bad index; the model requires valid correspondence indices instead (see
"Left out"). Three OpenCV primitives become parameters of the model:

- `cv::norm` of a point difference (`Distance`);
- `KeyPoint::overlap` (`Overlap`);
- the projection of a LiDAR point to a pixel (`project`).

Modules, one per file:

| module | file | models |
|---|---|---|
| `Common` | common.dfy | OpenCV value types, frames, TTC outcome, C++ conversions, subsequences |
| `Sorting` | sorting.dfy | `std::sort` as insertion sort, order statistics |
| `Statistics` | statistics.dfy | `getMedianFromVector`, `std::priority_queue<float>`, `getMedianFromQueue` |
| `LidarTtc` | lidar_ttc.dfy | `computeTTCLidar` |
| `CameraTtc` | camera_ttc.dfy | `getKeyPointDistanceRatios`, `computeTTCCamera` |
| `RoiClustering` | roi_clustering.dfy | `clusterLidarWithROI`, `clusterKptMatchesWithROI` |
| `BoxMatching` | box_matching.dfy | `matchBoundingBoxes` |
| `Matching2D` | matching2d.dfy | KNN ratio filter, Harris non-maximum suppression |

The code behaves as follows where a reader might expect otherwise:

- **Median of an even-sized range.** `getMedianFromVector` averages
  `vec[mid-1]` and `vec[mid]` with `mid = start + (end-start)/2`. That is the
  lower pair of the two central samples, not the central pair. For a
  two-sample range it reads `vec[-1]`.
  - The camera estimator therefore has an undefined result for exactly two
    ratios.
  - The box filter's median step is undefined for exactly two candidates.
  - The box filter's quartile reads, whose results are never used, are
    undefined for further small counts (see "Left out").
- **Shrinking is not monotone.** The shrunk rectangle's members are `int`s,
  so the floating corner and size are truncated. A larger shrink factor can
  therefore admit a pixel that a smaller factor excluded.
  - `ShrinkNotMonotone` exhibits this.
  - `GrownBoxCanMissEdge` shows that the box grown by -0.10 can lose a column
    of the original box.
- **Ties in box association.** Both reductions walk `std::map`s in
  ascending key order and replace the best only on a strictly larger count.
  Ties therefore go to the lowest box ID, deterministically, not to the
  first-seen candidate.
- **Camera ratio pairs.** The pair loops run `i` over `[0, n-1)` and `j`
  over `[1, n)`. So both orders of a pair are visited, and so are the self
  pairs (i, i). A self pair is rejected whenever the distance of a point to
  itself is 0, because its current distance is then below 100 pixels.
- **KNN ratio test.** The filter keeps a best match when `d0/d1 >= 0.8`.
  This is the reverse of the usual ratio test, so clearly distinctive
  matches are dropped.

## Model

| member | source | states |
|---|---|---|
| Common.CDiv | src/camFusion_Student.cpp:267 | C++ integer division rounds toward zero: the remainder has the sign of the dividend and is smaller than the divisor |
| Common.CRem | src/camFusion_Student.cpp:269 | C++ `%` is the dividend minus the truncated quotient times the divisor, so it carries the dividend's sign and is never a full divisor |
| Common.TruncToInt | src/matching2D_Student.cpp:192 | storing a float response in an `int` truncates toward zero, to within one of the value |
| Common.Round | src/camFusion_Student.cpp:185 | the Point2f to Point conversion rounds to the nearest integer, halves to the even one |
| Sorting.Insert | src/camFusion_Student.cpp:265 | inserting into a sorted sequence keeps it sorted and adds exactly that element |
| Sorting.Sort | src/camFusion_Student.cpp:265 | `std::sort` yields a sorted permutation of its input |
| Sorting.SortedUnique | src/camFusion_Student.cpp:265 | two sorted permutations of the same multiset are equal, so the sorted copy is fully determined |
| Sorting.SortPermutationInvariant | src/camFusion_Student.cpp:265 | sorting forgets the input order |
| Sorting.CountsOfSort | src/camFusion_Student.cpp:265 | sorting keeps the number of samples below and at-or-below every value |
| Sorting.SortedIndexIsOrderStat | src/camFusion_Student.cpp:271 | in a sorted sequence, index k holds a k-th smallest sample |
| Sorting.OrderStat | src/camFusion_Student.cpp:265-271 | every non-empty sample set has a k-th smallest value for each valid k |
| Sorting.OrderStatUnique | src/camFusion_Student.cpp:265-271 | the k-th smallest value is unique |
| Sorting.OrderStatOfSorted | src/camFusion_Student.cpp:265-271 | the k-th smallest of a sorted sequence is its k-th entry |
| Sorting.OrderStatPermutationInvariant | src/camFusion_Student.cpp:265-271 | order statistics do not depend on sample order |
| Statistics.MedianFromVector | src/camFusion_Student.cpp:263-278 | odd range size: the median is the order statistic at `mid`, defined exactly when `mid` is in range; even size: the mean of the order statistics at `mid-1` and `mid`, defined exactly when both are in range |
| Statistics.MedianPermutationInvariant | src/camFusion_Student.cpp:263-265 | the by-value copy is sorted, so the median does not depend on the caller's order |
| Statistics.FullRangeMedianDefined | src/camFusion_Student.cpp:266-275 | over the whole vector the median is defined exactly when the size is neither 0 nor 2 |
| Statistics.FullRangeOddIsTrueMedian | src/camFusion_Student.cpp:269-272 | for an odd size the result is a sample with at most half the samples strictly below and at most half strictly above it |
| Statistics.FullRangeEvenIsLowerPair | src/camFusion_Student.cpp:273-276 | for an even size of at least 4 the result averages the order statistics n/2-2 and n/2-1 (the lower central pair) |
| Statistics.MedianOfFourIsLowerPair | src/camFusion_Student.cpp:267-275 | on four distinct samples the result is the mean of the two smallest, not of the middle two |
| Statistics.MedianOfConstant | src/camFusion_Student.cpp:263-278 | a defined median of all-equal samples is that value |
| Statistics.MedianNonNegative | src/camFusion_Student.cpp:263-278 | a defined median of non-negative samples is non-negative |
| Statistics.TopIsMaximum | src/camFusion_Student.cpp:295-302 | `top()` of a non-empty priority queue is one of its elements and no element exceeds it |
| Statistics.Push | src/camFusion_Student.cpp:321 | `push` adds exactly the new element and grows the queue by one |
| Statistics.Pop | src/camFusion_Student.cpp:323 | `pop` removes exactly one copy of the maximum |
| Statistics.PopN | src/camFusion_Student.cpp:285-291 | popping `n` times removes the `n` largest elements |
| Statistics.Remaining | src/camFusion_Student.cpp:285-293 | after popping `size/2` elements at least one remains, and at least two when the remaining count is even |
| Statistics.MedianFromQueue | src/camFusion_Student.cpp:281-305 | the branch is chosen by the parity of the remaining size: odd gives the largest remaining element, even the mean of the two largest remaining; undefined only for an empty queue |
| Statistics.QueueMedianOrderStats | src/camFusion_Student.cpp:285-304 | the queue median is the order statistic at `rem-1` (odd `rem`), or the mean of those at `rem-2` and `rem-1` (even `rem`) |
| Statistics.QueueMedianOfFive | src/camFusion_Student.cpp:281-305 | on a full queue of five the result is the third smallest, the true median |
| Statistics.QueueMedianOfThree | src/camFusion_Student.cpp:281-305 | on three elements one pop leaves two, so the result is the mean of the two smallest rather than the middle element |
| LidarTtc.XValues | src/camFusion_Student.cpp:319 | the forward distances of a point cloud, one per point, in order |
| LidarTtc.LeastX | src/camFusion_Student.cpp:314-320 | the running minimum is at most 1e8, at most every x, and is either 1e8 or one of the x values |
| LidarTtc.PushPopKeepsSmallest | src/camFusion_Student.cpp:321-323 | pushing onto a full heap then evicting its maximum keeps only values no larger than any discarded one |
| LidarTtc.PushPopAbove | src/camFusion_Student.cpp:321-323 | a value at or above the maximum of a full heap is pushed and evicted again, and the kept values stay the smallest |
| LidarTtc.PushPopBelow | src/camFusion_Student.cpp:321-323 | a value below the maximum of a full heap displaces the maximum, and the kept values stay the smallest |
| LidarTtc.StepKeepsSmallest | src/camFusion_Student.cpp:316-323 | a scan step keeps the heap at `min(n, 5)` elements, holding all samples while there are at most five and the smallest ones afterwards |
| LidarTtc.ScanStep | src/camFusion_Student.cpp:316-323 | one loop iteration extends the running minimum and the heap invariant from the first `i` points to the first `i+1` |
| LidarTtc.ScanMinX | src/camFusion_Student.cpp:314-333 | one scan yields the minimum x (1e8 for no points) and a heap of the `min(n,5)` values drawn from the cloud with nothing discarded below anything kept |
| LidarTtc.ClosureTtc | src/camFusion_Student.cpp:345-346 | the constant-velocity model: TTC times the closing distance equals `currMin * dT`, positive while closing, negative while receding, a division by zero when the minimum did not change |
| LidarTtc.ComputeTTCLidar | src/camFusion_Student.cpp:307-348 | with `useMedian = false`, TTC is the closure model applied to the two frames' minima and `dT = 1/frameRate` |
| LidarTtc.ClosureExample | src/camFusion_Student.cpp:345-346 | 20 m to 19 m at 10 Hz gives 1.9 s |
| CameraTtc.CurrPoints | src/camFusion_Student.cpp:143-151 | the current-frame key point of every correspondence, in order |
| CameraTtc.PrevPoints | src/camFusion_Student.cpp:144-152 | the previous-frame key point of every correspondence, in order |
| CameraTtc.PairRatio | src/camFusion_Student.cpp:158-161 | an accepted pair's ratio scales the previous distance to the current one and is positive |
| CameraTtc.RowFrom | src/camFusion_Student.cpp:145 | the inner loop from index j visits (i, j), ..., (i, n-1): each once, in increasing order |
| CameraTtc.VisitedPairs | src/camFusion_Student.cpp:140-145 | the two loops visit exactly the pairs with i in [0, n-1) and j in [1, n), each once, in (i, j) order: (n-1)^2 pairs |
| CameraTtc.AcceptedAmongExact | src/camFusion_Student.cpp:158 | filtering a run of pairs keeps exactly its pairs that pass the distance test, in their run order |
| CameraTtc.AcceptedAmongAppend | src/camFusion_Student.cpp:140-158 | filtering two runs one after the other gives the filtered first run followed by the filtered second |
| CameraTtc.AcceptedPairs | src/camFusion_Student.cpp:140-158 | the visited pairs that pass the distance test, in visiting order: only such pairs, every such pair, strictly ascending |
| CameraTtc.AcceptedPairsUnique | src/camFusion_Student.cpp:140-158 | any strictly ascending listing of exactly the accepted visited pairs is that list, so its order and multiplicity are fixed |
| CameraTtc.RatiosOfAppend | src/camFusion_Student.cpp:162 | ratios pushed for two runs of pairs, one after the other, are the ratios of the joined run |
| CameraTtc.RatiosCons | src/camFusion_Student.cpp:145-163 | one inner iteration puts the pair's ratio in front of the later ratios exactly when the pair is accepted |
| CameraTtc.RatiosConcat | src/camFusion_Student.cpp:140-165 | one outer iteration puts its row's ratios in front of those of the later rows |
| CameraTtc.InnerRatios | src/camFusion_Student.cpp:145-165 | the inner loop from index j pushes one ratio per accepted pair (i, j'), j' >= j, in increasing j': the k-th ratio is that of the k-th accepted pair |
| CameraTtc.InnerRatiosSound | src/camFusion_Student.cpp:145-165 | one inner iteration keeps every ratio traceable to an accepted pair of the row and leaves no accepted pair out |
| CameraTtc.RowThenRestSound | src/camFusion_Student.cpp:140-166 | one outer iteration keeps every ratio traceable to an accepted visited pair, leaves none out, and adds at most n-1 ratios |
| CameraTtc.OuterRatios | src/camFusion_Student.cpp:140-166 | the outer loop from index i pushes one ratio per accepted visited pair of rows i and later, in visiting order: the k-th ratio is that of the k-th such pair |
| CameraTtc.DistanceRatios | src/camFusion_Student.cpp:137-167 | `distRatios` holds, position by position, the ratios of the accepted visited pairs in visiting order, so exactly one per accepted pair; at most (n-1)^2 ratios |
| CameraTtc.NoRatiosIffNoAcceptedPair | src/camFusion_Student.cpp:140-167 | the ratio list is empty exactly when no visited pair passes the distance filter |
| CameraTtc.SelfPairsRejected | src/camFusion_Student.cpp:158 | a correspondence paired with itself never passes when its current point is at distance zero from itself |
| CameraTtc.SingleMatchNoRatios | src/camFusion_Student.cpp:140 | with one correspondence the outer loop is empty |
| CameraTtc.ScaleTtc | src/camFusion_Student.cpp:257-258 | TTC times `(1 - ratio)` is `-dT`, positive for a growing scale, negative for a shrinking one, a division by zero at ratio 1 |
| CameraTtc.ComputeTTCCamera | src/camFusion_Student.cpp:238-261 | NaN exactly when no ratio survives; an out-of-range read exactly for two ratios; otherwise the scale model on the middle order statistic (odd count) or the lower central pair (even count) |
| CameraTtc.TtcFromRatios | src/camFusion_Student.cpp:244-258 | from the collected ratios: NaN exactly when there are none; an out-of-range read exactly for two; otherwise the scale model on the middle order statistic (odd count) or the lower central pair (even count) |
| CameraTtc.MedianCases | src/camFusion_Student.cpp:254 | the full-range median is undefined exactly for 0 or 2 samples, the middle order statistic for odd counts, the lower central pair for even counts |
| CameraTtc.OddMedianIsMiddleOrderStat | src/camFusion_Student.cpp:254 | for an odd number of ratios the median is the order statistic n/2 |
| CameraTtc.ComputeTTCCameraFromMatches | src/camFusion_Student.cpp:238-249 | from correspondences: NaN exactly when no visited pair of matched key points passes the distance filter |
| RoiClustering.InsideContains | src/camFusion_Student.cpp:46 | a pixel inside an inner rectangle is inside the outer one |
| RoiClustering.ShrinkAxis | src/camFusion_Student.cpp:40-43 | factor 0 leaves an axis unchanged; a factor in [0,1] keeps it within the original |
| RoiClustering.Shrink | src/camFusion_Student.cpp:39-43 | factor 0 is the identity; a factor in [0,1] gives a rectangle inside the original |
| RoiClustering.ShrinkNotMonotone | src/camFusion_Student.cpp:40-43 | after truncation, factor 0.2 admits a pixel that factor 0.18 excludes |
| RoiClustering.GrownBoxCanMissEdge | src/camFusion_Student.cpp:175-180 | growing by the float -0.10 can move the box away from a pixel the original contains |
| RoiClustering.ShrunkRois | src/camFusion_Student.cpp:36-43 | one shrunk rectangle per box, in box order |
| RoiClustering.Enclosing | src/camFusion_Student.cpp:35-51 | exactly the boxes whose shrunk rectangle contains the pixel, in ascending order |
| RoiClustering.SoleEncloserIsSingleEntry | src/camFusion_Student.cpp:54-57 | a box is the only encloser exactly when the enclosing list is that one box |
| RoiClustering.Owner | src/camFusion_Student.cpp:35-58 | a point goes to box b exactly when b is the only shrunk box containing its pixel |
| RoiClustering.OwnedPoints | src/camFusion_Student.cpp:21-58 | the points a box receives are, in order, exactly the points it solely encloses |
| RoiClustering.AssignedPoints | src/camFusion_Student.cpp:21-58 | the points assigned to any box keep the cloud order |
| RoiClustering.EachPointInOneBox | src/camFusion_Student.cpp:54-58 | the boxes together receive each assigned point exactly once: their counts sum to the number of assigned points |
| RoiClustering.TotalOwnedStep | src/camFusion_Student.cpp:54-58 | one more point raises the number of points received by boxes below `nb` by one exactly when its owner is among them |
| RoiClustering.AssignPoint | src/camFusion_Student.cpp:54-58 | one point is appended to its sole encloser and to no other box; ids, rectangles and matches are untouched |
| RoiClustering.AssignPointStep | src/camFusion_Student.cpp:21-58 | the loop invariant of the point loop survives one more point |
| RoiClustering.ClusterLidarWithROI | src/camFusion_Student.cpp:15-61 | every box keeps its id, rectangle and matches, and its point list is extended by exactly the points it solely encloses, in cloud order |
| RoiClustering.Candidates | src/camFusion_Student.cpp:181-192 | the candidates are the correspondences at the ascending positions whose two key points lie in the grown box, one entry per such position, in match order |
| RoiClustering.Displacements | src/camFusion_Student.cpp:189-190 | one displacement per candidate, in order |
| RoiClustering.InBandIsUpperBound | src/camFusion_Student.cpp:226 | for non-negative values the band test reduces to `d <= 3.5 * median` |
| RoiClustering.Accepted | src/camFusion_Student.cpp:220-230 | the accepted candidates are those at the ascending positions whose displacement lies in the band, one entry per such position, in candidate order |
| RoiClustering.AcceptedIsUpperBound | src/camFusion_Student.cpp:220-230 | with a metric distance a candidate is accepted exactly when its displacement is at most 3.5 medians |
| RoiClustering.ClusterKptMatchesWithROI | src/camFusion_Student.cpp:170-234 | undefined exactly for 0 or 2 candidates; otherwise the box keeps everything but its matches, which are extended by the accepted candidates |
| RoiClustering.AppendedMatches | src/camFusion_Student.cpp:211-230 | the median is non-negative, every added match is an input match, and a candidate is added exactly when its displacement is at most 3.5 medians |
| BoxMatching.ContainingIDs | src/camFusion_Student.cpp:364-378 | the IDs of the boxes containing the key point, one entry per containing box, in box order |
| BoxMatching.ContainingIDsBelow | src/camFusion_Student.cpp:364-378 | after the first n boxes, one ID per containing box among them, in box order |
| BoxMatching.Bump | src/camFusion_Student.cpp:388 | `boxIDMap[p][c]++` raises that count by one and no other |
| BoxMatching.VoteRow | src/camFusion_Student.cpp:386-389 | the inner loop adds, for the previous ID, one vote per occurrence of each current ID |
| BoxMatching.VoteGrid | src/camFusion_Student.cpp:384-390 | the nested loops add `count(p) * count(c)` votes to every pair |
| BoxMatching.CastVotes | src/camFusion_Student.cpp:357-390 | after all correspondences every count equals the reference tally, and stored counts are positive |
| BoxMatching.BestUnique | src/camFusion_Student.cpp:398-405 | at most one ID has the largest count with the lowest ID among ties |
| BoxMatching.MinExists | src/camFusion_Student.cpp:394 | a non-empty key set has a smallest key, where `std::map` iteration starts |
| BoxMatching.SortedKeys | src/camFusion_Student.cpp:394 | `std::map` iterates its keys exactly once each in ascending order |
| BoxMatching.Scan | src/camFusion_Student.cpp:398-405 | the strict `>` scan ends on a largest count, at the first key holding it |
| BoxMatching.Best | src/camFusion_Student.cpp:396-405 | an empty map gives (-1,-1); otherwise the lowest ID with the largest count, and that count |
| BoxMatching.NominateStepEntry | src/camFusion_Student.cpp:406-408 | one previous box adds exactly its own nomination, with its count, and changes no other entry |
| BoxMatching.NominateEntry | src/camFusion_Student.cpp:394-410 | after the first reduction `q` is stored under `c` exactly when `q` nominates `c` |
| BoxMatching.NominateKeeps | src/camFusion_Student.cpp:394-410 | entries of previous boxes outside the walk are left alone |
| BoxMatching.NominateValue | src/camFusion_Student.cpp:406-408 | a nomination is stored with the nominator's vote count |
| BoxMatching.AssignStep | src/camFusion_Student.cpp:425-426 | one current box writes its best nominator, unless that is the sentinel -1 |
| BoxMatching.AssignKeys | src/camFusion_Student.cpp:413-428 | after the second reduction a previous ID is a key exactly when it was before or some current box picks it |
| BoxMatching.AssignKeeps | src/camFusion_Student.cpp:413-428 | an old entry no current box picks is left alone |
| BoxMatching.AssignValues | src/camFusion_Student.cpp:413-428 | a picked previous ID ends up mapped to a current box that picks it |
| BoxMatching.BoxVotes | src/camFusion_Student.cpp:355-390 | `boxIDMap` holds exactly the reference tally, with positive stored counts |
| BoxMatching.BoxNominations | src/camFusion_Student.cpp:394-410 | every current box in `reverseboxIDMap` has a nominator |
| BoxMatching.NominatorsOfEntry | src/camFusion_Student.cpp:406-408 | a nominator of c is stored with its count for c |
| BoxMatching.NominationsAreNominators | src/camFusion_Student.cpp:394-410 | `reverseboxIDMap[c]` is exactly the nominators of c with their counts |
| BoxMatching.PickedIsPaired | src/camFusion_Student.cpp:413-428 | the second reduction picks exactly the mutual-best pairs |
| BoxMatching.PairingIsOneToOne | src/camFusion_Student.cpp:357 | a previous box has at most one partner and a current box has at most one |
| BoxMatching.MatchBoundingBoxes | src/camFusion_Student.cpp:351-430 | the caller's map is extended, never cleared |
| BoxMatching.MatchKeys | src/camFusion_Student.cpp:351-430 | a previous ID is a key of the result exactly when it was before or it has a partner |
| BoxMatching.MatchPartner | src/camFusion_Student.cpp:351-430 | a paired previous box maps to its partner |
| BoxMatching.MatchKeeps | src/camFusion_Student.cpp:351-430 | an old entry of a box without a partner is left unchanged |
| BoxMatching.PairedIsMutualBest | src/camFusion_Student.cpp:358-428 | a pair is supported by at least one correspondence; c has the most votes of p (lowest ID on ties); p has the most votes for c among c's nominators (lowest ID on ties); neither is -1 |
| BoxMatching.RowBest | src/camFusion_Student.cpp:396-408 | the box a previous box nominates has a positive count and outvotes every other current box (lowest ID on ties) |
| BoxMatching.ColumnBest | src/camFusion_Student.cpp:413-427 | the previous box picked for c outvotes every other nominator of c (lowest ID on ties) |
| Matching2D.KeptQueries | src/matching2D_Student.cpp:47-54 | exactly the queries whose two best distances pass the test, ascending |
| Matching2D.Selected | src/matching2D_Student.cpp:47-54 | the appended matches are the first neighbours of the passing queries, one each, in query order |
| Matching2D.SelectedBelowEntry | src/matching2D_Student.cpp:47-54 | the i-th appended match is the first neighbour of the i-th passing query |
| Matching2D.KnnRatioFilter | src/matching2D_Student.cpp:41-54 | the loop appends exactly the selected matches to the caller's list |
| Matching2D.RatioKeptIffFar | src/matching2D_Student.cpp:49-50 | with a positive second distance a query passes exactly when `d0 >= 0.8 * d1` |
| Matching2D.DistinctiveMatchDropped | src/matching2D_Student.cpp:43-53 | a best match closer than 0.8 times the second best is dropped |
| Matching2D.AtMostOnePerQuery | src/matching2D_Student.cpp:47-54 | the list only grows, keeps its old prefix and gains at most one match per query |
| Matching2D.NmsInsert | src/matching2D_Student.cpp:200-218 | a candidate overlapping nothing is appended; otherwise the first overlapping entry with a lower response is replaced; otherwise the list is unchanged |
| Matching2D.NmsStepShape | src/matching2D_Student.cpp:200-218 | a step grows the list by one exactly when nothing overlaps, never shrinks it, and keeps every other entry |
| Matching2D.RowCandidates | src/matching2D_Student.cpp:190-198 | a row yields exactly the key points of its pixels whose truncated response exceeds 100, in strictly increasing column order, so one per such pixel |
| Matching2D.RowOrderStep | src/matching2D_Student.cpp:190-192 | appending the key point of the next column keeps the row in strictly increasing column order |
| Matching2D.CornersAppendPixel | src/matching2D_Student.cpp:190-198 | one more column adds exactly its key point when it is strong |
| Matching2D.Candidates | src/matching2D_Student.cpp:188-198 | the scan yields exactly the key points of the strong pixels, in strict row-then-column order, so one per strong pixel |
| Matching2D.ScanOrderStep | src/matching2D_Student.cpp:188-190 | the rows above followed by the next row stay in strict scan order |
| Matching2D.CornersAppendRow | src/matching2D_Student.cpp:188-198 | one more row adds exactly its strong pixels' key points |
| Matching2D.CandidatesUnique | src/matching2D_Student.cpp:188-198 | any listing of exactly the strong pixels' key points in strict scan order is the scan's list, so order and multiplicity are fixed |
| Matching2D.DetectHarris | src/matching2D_Student.cpp:186-221 | the list never shrinks, grows by at most one per candidate, and holds only old key points and corner key points |
| Matching2D.WeakPixelIgnored | src/matching2D_Student.cpp:192-193 | no key point is produced at a pixel whose truncated response is at most 100, and every candidate's response exceeds 100 |

## Left out

- Floating point: all arithmetic is exact. The model does not cover float
  and double rounding, NaN propagation or infinities. The division
  by zero `1 / frameRate` is excluded by `frameRate != 0`, and the others
  become `ZeroDenominator`.
- ComputeTTCLidar: requires `frameRate != 0.0`; the source would divide by zero into an infinity.
- ComputeTTCCamera: requires `frameRate != 0.0` for the same reason.
- TtcFromRatios: requires `frameRate != 0.0` for the same reason.
- ComputeTTCCameraFromMatches: requires at least one correspondence, because the source's `kptMatches.end() - 1` on an empty vector is undefined.
- ComputeTTCCameraFromMatches: requires every correspondence's `queryIdx` and `trainIdx` to index the key point lists (`ValidMatches`). In the source a bad index makes `.at()` (camFusion_Student.cpp:143-144, 151-152) throw `std::out_of_range`; exceptions are not modelled. With one correspondence the loops read nothing, so there the source would not throw at all.
- ClusterKptMatchesWithROI: requires valid correspondence indices (`ValidMatches`), as do its helpers Candidates, Displacements, Accepted and AppendedMatches. In the source a bad index makes `.at()` (lines 183-184, 223-224) throw `std::out_of_range`; exceptions are not modelled.
- MatchBoundingBoxes: requires valid correspondence indices (`ValidMatches`), as do the vote and pairing members built on it. In the source a bad index makes `.at()` (lines 360-361) throw `std::out_of_range`; exceptions are not modelled.
- KnnRatioFilter: requires two neighbours per query, because the source reads `matchArr[1]` unconditionally.
- DetectHarris: states the length bounds and where each key point comes from, not the exact final list. The exact effect of each candidate is stated by NmsInsert.
- ClusterKptMatchesWithROI: does not model the quartiles, mean and IQR (lines 208-213). Their values are never used. Their reads can also go out of range for small candidate counts, which the model does not report.
- MatchBoundingBoxes: its own contract only says the caller's map is extended. The full result is in MatchKeys, MatchPartner and MatchKeeps.
- Shrink: computes with exact reals using the single-precision factor. It does not model the double rounding of `factor * width / 2.0` before truncation.
- Projection of LiDAR points (`P_rect * R_rect * RT * X`, the homogeneous divide and the truncation into `cv::Point`, lines 18-33): matrix algebra, taken as the `project` parameter.
- `cv::norm` and `KeyPoint::overlap`: OpenCV geometry, taken as parameters.
- The `useMedian = true` branch of computeTTCLidar is dead code (the flag is a constant `false`). `getMedianFromQueue` is modelled on its own.
- `show3DObjects` (lines 64-135): rendering and file output.
- `std::cout` diagnostics, timing with `cv::getTickCount`, and visualisation.
- From matching2D_Student.cpp, the following are left out because they are OpenCV wrappers:
  - matcher construction and the FLANN type conversion (lines 13-36);
  - the `SEL_NN` branch;
  - `descKeypoints`, `detKeypointsShiTomasi`, `detKeypointsModern`;
  - `cornerHarris`, `normalize` and `convertScaleAbs`.
- wrapper.cpp: the driver loop over configurations.
- camFusion.hpp: declarations only.
