# Sliding-window sketches: a verified model

This project models the sliding-window sketch engine in `internal/promsketch` and the partition
mapper in `internal/cluster/hash`, and proves what they promise over all inputs and all runs.

| File | What it models |
|---|---|
| `Numbers.dfy`, `Wrappers.dfy` | absolute value, minimum, maximum, powers of two; optional values |
| `Stream.dfy` | samples, segments of the stream, ordering and counting |
| `Cascade.dfy`, `CascadePass.dfy`, `CascadeBounds.dfy` | the bucket shape of exponential histograms as a numeral, its increment, the backward merge pass that computes it, and the bounds the shape gives |
| `ExpoRuns.dfy` | whole runs of inserts and window changes: suffix partition, expiry, the window error bound |
| `ExpoHistogramCount.dfy`, `ExpoHistogramKLL.dfy`, `KLLWitnesses.dfy` | the two histogram classes over that shape, their queries and coverage tests, and the runs on which these fail |
| `FiniteSums.dfy`, `MomentSketches.dfy`, `ExpoHistogramUnivOptimized.dfy`, `MomentAnswers.dfy`, `MomentWitnesses.dfy` | the second-moment histogram: exact maps, merge rule, conversion to sketches and the stretches behind them, queries and the samples they answer with, and a run on which a query fails |
| `CountSketchUniv.dfy`, `TopKHeap.dfy`, `UnivMon.dfy` | count sketch, top-k heap and the universal sketch built from them |
| `SketchPool.dfy` | the sketch pool with deferred cleaning |
| `SketchContent.dfy`, `SmoothBuckets.dfy`, `NormThinning.dfy`, `SmoothHistogram.dfy` | what a pooled sketch holds and how sketches are subtracted, the bucket list, its thinning by norms, and the smooth histogram over them |
| `SketchNorms.dfy`, `ReboundWitness.dfy`, `SketchAnswers.dfy` | when real norms shrink with the suffix, a run on which they do not, and what real sketches in the histogram answer after a subtraction |
| `RealFacts.dfy`, `RingStream.dfy`, `RingFit.dfy`, `EfficientSum.dfy` | the ring of rounded counters |
| `SeriesIndex.dfy` | the series index by label hash and by id |
| `Partitioner.dfy` | partition ownership and replica choice |

Floats are exact reals, 64-bit integers unbounded integers; the one place where width decides a
property, the 8-bit counters of the ring, is modelled with an arbitrary result of an overflowing
conversion. Hash functions are arbitrary functions. A KLL sketch is the multiset of values it has
absorbed. Where a Go object changes its fields the model is a class. The histograms, the sketches
and the ring carry a ghost history, and `Valid()` ties their concrete fields to a specification
function of that history, so that a lemma about histories is a statement about every reachable
state.

Shape of the arguments: `Cascade` proves the increment on levels keeps shape and samples,
`CascadePass` that the flat backward pass computes it; `ExpoRuns` lifts this to runs; the classes
refine it. The second-moment histogram is tied to a recursive merge pass in the same way. `UnivMon` composes the
contracts of the count sketch and the heap objects, and its final sum is exact whenever no heap
overflows and no key is spoiled by collisions. The pool's methods are atomic steps, so its
invariant holds over every interleaving; the smooth histogram is proved on top of a pool object.

What the proofs found out about the code:

- The window error bound holds if and only if the window is not negative (`WindowErrorBound`).
- `ExpoHistogramKLL.Cover` accepts an interval whose samples are gone if and only if the interval
  starts at the oldest held time and the last sample dropped has that same time (`CoverIsSound`);
  `TieIsLost` is such a run, and strictly increasing times rule it out (`CoverIsSafe`).
- `QueryIntervalMergeKLL` answers an interval inside one bucket from the next bucket exactly when
  its start is nearer to the end of that bucket (`IntervalAccuracy`); after inserts at 0, 1 and 2
  the query [1, 1] returns the sample at 2 (`NextBucketAnswers`).
- `QueryIntervalMergeCount` counts too few samples if and only if times repeat so that more samples
  of the interval lie before the start bucket than samples outside it lie in the end buckets
  (`IntervalAccount`); three inserts at one time are counted as one (`TieIsUndercounted`).
- `ExpoHistogramUnivOptimized.QueryIntervalMergeUniv` panics if and only if there is no map bucket,
  which is before the first update, or the end is looked up among the sketches and the start past
  them: `univs[from_bucket]` is then read beyond the list. That is so for the interval at the very
  end of a lone sketch, and for an interval from a map to a gap between maps (`EndOfSketch`,
  `EndInGap`); `PanickingRun` gets there by updates. When start and end straddle sketches and
  maps, every map enters the answer whatever the end is.
- The sum over an answer that the smooth histogram got by subtraction counts a key of bottom layer
  b >= 2 not once but 2^b - 1 times, because heaps between its first and its bottom layer are
  re-estimated from counters that `update_optimized` did not write for that key. For keys that
  the hash functions keep apart it is exact if and only if no key of the interval reaches layer 2
  (`AnswerOfRun`); one key fed twice already shows it (`LoneRun`).
- `calcCard` counts a key whose count is at most a hundredth of the first layer's norm twice or not
  at all, by its next hash bit, because only the first layer keeps its norm (`CardSum`).
- Merging sketches in the second-moment histogram leaves no mergeable pair when norms do not grow
  towards the newest (`SketchPassIsTight`), but can leave one otherwise, as a merged sketch keeps
  the norm of the older one (`StaleNormStaysMergeable`).
- Thinning leaves a list whose norm drops over any two buckets if and only if no norm rebounds
  (`ThinIff`). Norms that shrink with the suffix never do; the signed counters have that property
  on runs without opposite signs in a counter (`OneSignedIsMonotone`) and lose it when two keys
  cancel (`CancellingKeysBreakIt`): six updates then leave a list that does not drop (`ReboundRun`).
- The ring counter's bits always fit 8 bits if and only if 127 * T >= 1 (`BitsAlwaysFit`).
- `del` asks of its callers that an id is not repeated on one hash with one of them in the unique
  entry (`RemainingIsOthers`, `RepeatedIdSurvives`); the index never builds such a state
  (`IdsAreUnique`).
- `NewPartitionMapper` accepts ranges that start below zero (`BelowZero`); it documents nothing
  about them.

## Model

| member | source | states |
|---|---|---|
| CascadePass.RunIsFullIff | internal/promsketch/ExponentialHistogram.go:490 | the floating-point test on a run length holds exactly from ceil(k/2) + 2 on |
| Cascade.AddIsCanonical | internal/promsketch/ExponentialHistogram.go:483-510 | carrying buckets level by level keeps the canonical power-of-two shape |
| Cascade.AddKeepsSamples | internal/promsketch/ExponentialHistogram.go:483-510 | the cascade loses, duplicates and reorders no sample; the new one comes last |
| Cascade.DropIsCanonical | internal/promsketch/ExponentialHistogram.go:458-472 | cutting any prefix of expired buckets off a canonical list leaves a canonical list, and exactly the remaining buckets |
| CascadePass.ScanInside | internal/promsketch/ExponentialHistogram.go:486-488 | at index i neighbours are of equal size exactly while the pass is inside the current run |
| CascadePass.ScanQuiet | internal/promsketch/ExponentialHistogram.go:489-501 | leaving a run that is not full: nothing merges and the pass stands one deep in the next level |
| CascadePass.ScanCarry | internal/promsketch/ExponentialHistogram.go:489-501 | leaving a full run: its two oldest buckets merge into one of the next size, which counts towards the next run |
| CascadePass.ScanEnd | internal/promsketch/ExponentialHistogram.go:504-510 | the merge after the loop completes the pass: one backward pass carries out the whole cascade |
| Cascade.SizeCounts | internal/promsketch/ExponentialHistogram.go:483-510 | with T = ceil(k/2) + 2 each size below the largest occurs T - 2 or T - 1 times, the largest between 1 and T - 1 times, other sizes never |
| Cascade.SizesDescend | internal/promsketch/ExponentialHistogram.go:483-510 | sizes are powers of two and do not increase from oldest to newest |
| CascadeBounds.FewBuckets | internal/promsketch/ExponentialHistogram.go:483-510 | at most T - 1 buckets per level, and 2^(levels - 1) is at most the number of samples held |
| CascadeBounds.OldestIsSmall | internal/promsketch/ExponentialHistogram.go:483-510 | k times (oldest bucket - 1) is at most twice everything newer: the step from shape to error |
| ExpoRuns.RunInvariant | internal/promsketch/ExponentialHistogram.go:457-513 | in every reachable state, over any interleaving of inserts and window changes, the shape is canonical and the buckets partition a contiguous suffix of the stream in order |
| ExpoRuns.DroppedAreOld | internal/promsketch/ExponentialHistogram.go:458-472 | with non-decreasing times and a fixed window every sample ever dropped is older than the window that ends at the newest sample |
| ExpoRuns.WindowErrorBound | internal/promsketch/ExponentialHistogram.go:457-513 | after any run with non-decreasing times the total T of all bucket sizes and the exact number E of samples in the window satisfy T >= E and k * (T - E) <= 2 * E, if and only if the window is not negative |
| ExpoRuns.WindowIsHeld | internal/promsketch/ExponentialHistogram.go:458-472 | a sample inside the window is still in some bucket |
| CountHistogram.ExpoHistogramCount.constructor | internal/promsketch/ExponentialHistogram.go:446-455 | a new histogram is the start of a run with its window |
| CountHistogram.ExpoHistogramCount.Update | internal/promsketch/ExponentialHistogram.go:457-513 | expiry, append and the in-place merge pass leave exactly the buckets of the run extended by this sample, with counts, sizes and end times |
| CountHistogram.ExpoHistogramCount.CountExpired | internal/promsketch/ExponentialHistogram.go:459-467 | stops at the first bucket whose newest time reaches the cutoff |
| CountHistogram.ExpoHistogramCount.MergeRuns | internal/promsketch/ExponentialHistogram.go:483-510 | the backward pass over the flat list computes the level-by-level carry |
| CountHistogram.ExpoHistogramCount.MergeNext | internal/promsketch/ExponentialHistogram.go:491-494 | one merge sums counts and sizes and takes over the newer end time |
| CountHistogram.ExpoHistogramCount.Cover | internal/promsketch/ExponentialHistogram.go:515-527 | true exactly when the interval starts inside the window that ends at the newest inserted sample |
| CountHistogram.ExpoHistogramCount.CoverIsSound | internal/promsketch/ExponentialHistogram.go:515-527 | a covered interval has lost no sample |
| CountHistogram.ExpoHistogramCount.BucketTotalIsAccurate | internal/promsketch/ExponentialHistogram.go:457-513 | the window error bound on the concrete bucket list, if and only if the window is not negative |
| CountHistogram.ExpoHistogramCount.FewConcreteBuckets | internal/promsketch/ExponentialHistogram.go:483-510 | s_count is at most (T - 1) times the number of levels, which is logarithmic in the total |
| CountHistogram.ExpoHistogramCount.QueryIntervalMergeCount | internal/promsketch/ExponentialHistogram.go:541-585 | returns the number of samples in the buckets from the last one spanning t1 to the last one spanning t2, which for the times of two held samples accounts for the exact count as below, and in a strictly increasing stream is at least it and at most the two end bucket sizes minus 2 more; not found exactly when empty |
| CountHistogram.IntervalAccount | internal/promsketch/ExponentialHistogram.go:541-585 | for two held samples of any non-decreasing stream that number is the exact count plus the samples of the end buckets outside the interval less those of the interval before the start bucket; so it is at least the exact count if and only if the latter are not more than the former, and never exceeds it by more than the two end bucket sizes minus 2 |
| CountHistogram.NoneSpans | internal/promsketch/ExponentialHistogram.go:541-563 | a time inside no bucket is looked up in the oldest one |
| CountHistogram.TieIsUndercounted | internal/promsketch/ExponentialHistogram.go:541-585 | a run of three inserts at one time whose query for that time counts one |
| CountHistogram.IntervalSandwich | internal/promsketch/ExponentialHistogram.go:541-585 | for two held samples and strictly increasing times that number is at least the exact count and exceeds it by at most the two end bucket sizes minus 2 |
| KLLHistogram.ExpoHistogramKLL.constructor | internal/promsketch/ExponentialHistogram.go:82-92 | a new histogram is the start of a run with its window |
| KLLHistogram.ExpoHistogramKLL.UpdateWindow | internal/promsketch/ExponentialHistogram.go:94-99 | only the window changes; the change becomes part of the run |
| KLLHistogram.ExpoHistogramKLL.Update | internal/promsketch/ExponentialHistogram.go:101-170 | the four parallel slices describe exactly the buckets of the extended run: values absorbed, largest and smallest time, size |
| KLLHistogram.ExpoHistogramKLL.MergeRuns | internal/promsketch/ExponentialHistogram.go:132-167 | the backward pass over the four slices computes the level-by-level carry |
| KLLHistogram.ExpoHistogramKLL.MergeNext | internal/promsketch/ExponentialHistogram.go:138-146 | one merge keeps the four slices describing the same buckets |
| KLLHistogram.ExpoHistogramKLL.Cover | internal/promsketch/ExponentialHistogram.go:172-186 | true exactly when the held times reach from mint to maxt |
| KLLHistogram.ExpoHistogramKLL.CoverIsSound | internal/promsketch/ExponentialHistogram.go:172-186 | over every run with non-decreasing times and window changes an accepted interval has lost no sample, if and only if its start is not the oldest held time with the last dropped sample at that same time |
| KLLHistogram.ExpoHistogramKLL.CoverIsSafe | internal/promsketch/ExponentialHistogram.go:172-186 | hence nothing is lost for strictly increasing times or a start after the oldest held time |
| KLLWitnesses.TieIsLost | internal/promsketch/ExponentialHistogram.go:172-186 | a concrete run with equal times on which Cover accepts an interval whose first samples are gone |
| KLLHistogram.FromBucketInRange | internal/promsketch/ExponentialHistogram.go:255-263 | in every reachable non-empty state rounding the start bucket up never leaves the list |
| KLLHistogram.ExpoHistogramKLL.ChooseBuckets | internal/promsketch/ExponentialHistogram.go:238-273 | the loop and its corrections choose the specified start and end bucket, both in range |
| KLLHistogram.ExpoHistogramKLL.MergeRange | internal/promsketch/ExponentialHistogram.go:275-281 | merging the chosen buckets gives the values of one contiguous stretch of the stream |
| KLLHistogram.ExpoHistogramKLL.QueryIntervalMergeKLL | internal/promsketch/ExponentialHistogram.go:229-286 | for every t1 and t2 all indexing is in range and the answer holds exactly the values of one stretch of held samples; nil exactly when empty |
| KLLHistogram.IntervalAccuracy | internal/promsketch/ExponentialHistogram.go:229-286 | for the times of two held samples a <= b the answer starts with the bucket of a if and only if a is at most as far from its first sample as from its last, otherwise right after it, and ends with the bucket of b, or with the next one when it starts after b; so it misses the interval exactly when one bucket holds both and a is nearer to its end |
| KLLHistogram.StartInBucket | internal/promsketch/ExponentialHistogram.go:238-263 | the same side for any time inside a bucket, repeated times included: the oldest bucket around it decides |
| KLLHistogram.EndInBucket | internal/promsketch/ExponentialHistogram.go:246-259 | an end inside a bucket: the oldest one around it |
| KLLHistogram.StartInNoBucket | internal/promsketch/ExponentialHistogram.go:238-263 | a start inside no bucket: the oldest sample, or right after the first bucket when that one is over and not a single instant |
| KLLHistogram.EndInNoBucket | internal/promsketch/ExponentialHistogram.go:246-259 | an end inside no bucket: the last bucket when it is after everything, else the first |
| KLLWitnesses.NextBucketAnswers | internal/promsketch/ExponentialHistogram.go:229-286 | a concrete run of three samples on which that happens: the query for the second sample is answered with the third |
| MomentHistogram.MergeMaps | internal/promsketch/exponential_univmon_optimized.go:40-48 | key by key sum of two frequency maps |
| MomentHistogram.CalcL22 | internal/promsketch/exponential_univmon_optimized.go:217-223 | recomputes the second moment of the samples behind the map |
| MomentHistogram.EnergyOfMerge | internal/promsketch/exponential_univmon_optimized.go:294-301 | merging two buckets at least adds and at most doubles their second moments |
| MomentHistogram.EnergyOfExtension | internal/promsketch/exponential_univmon_optimized.go:269-275 | the incremental update 2v + 1 is exact |
| MomentHistogram.PassConserves | internal/promsketch/exponential_univmon_optimized.go:291-305 | the merge pass keeps every sample in order and never lowers the total second moment |
| MomentHistogram.PassIsTight | internal/promsketch/exponential_univmon_optimized.go:291-305 | after the pass no adjacent pair is mergeable: k times its l22 exceeds the sum over all newer buckets |
| MomentHistogram.PassIsDominated | internal/promsketch/exponential_univmon_optimized.go:291-305 | after the pass every bucket above unit size has k * l22 at most twice the sum over newer buckets |
| MomentHistogram.MapsAfterIsBalanced | internal/promsketch/exponential_univmon_optimized.go:247-305 | expiry, insertion and pass together keep the two-sided invariant and all unexpired samples |
| MomentHistogram.ConvertedIsNotNewest | internal/promsketch/exponential_univmon_optimized.go:307-335 | a map large enough to be converted is never the newest, so a map bucket always remains |
| MomentHistogram.EnergyDecays | internal/promsketch/exponential_univmon_optimized.go:291-305 | (k+1)^m * S_2m <= k^m * S_0 for the sums of l22 from index 2m and 0 |
| MomentHistogram.FewMaps | internal/promsketch/exponential_univmon_optimized.go:291-305 | hence (k+1)^m <= k^m * S_0 whenever there are more than 2m maps |
| MomentSketches.SketchPassConserves | internal/promsketch/exponential_univmon_optimized.go:337-351 | merging sketches keeps the total of their sizes |
| MomentSketches.PassKeepsSizes | internal/promsketch/exponential_univmon_optimized.go:337-351 | behind the merged sketches are the same samples in the same order, and their sizes are right |
| MomentSketches.PassKeepsTimes | internal/promsketch/exponential_univmon_optimized.go:337-351 | with non-decreasing times a merged sketch starts at its first and ends at its last sample |
| MomentSketches.SketchPassIsTight | internal/promsketch/exponential_univmon_optimized.go:337-351 | when no older sketch is lighter than a newer one the pass leaves no mergeable pair |
| MomentSketches.StaleNormStaysMergeable | internal/promsketch/exponential_univmon_optimized.go:337-351 | concrete norms for which it does leave one, since a merged sketch keeps the older norm |
| MomentSketches.SketchPassIsDominated | internal/promsketch/exponential_univmon_optimized.go:337-351 | a sketch that was merged has k times its norm at most the sum over everything newer |
| MomentSketches.ExpiredSketchesAreOld | internal/promsketch/exponential_univmon_optimized.go:230-237 | with non-decreasing times expiry drops only samples before the cutoff and stops at a sketch that reaches it |
| MomentHistogram.ExpiredMapsAreOld | internal/promsketch/exponential_univmon_optimized.go:248-255 | the same for maps |
| MomentHistogram.TrackUpdate | internal/promsketch/exponential_univmon_optimized.go:225-356 | over a run with non-decreasing times, window changes included, sketches and maps together hold a contiguous end of the stream in order through expiry, insertion, merges and conversion, and every sample no longer held was before the cutoff of some update |
| MomentHistogram.ToSketch | internal/promsketch/exponential_univmon_optimized.go:314-329 | the sketch made from a map gets the size and times of the map |
| MomentHistogram.ExpoHistogramUnivOptimized.constructor | internal/promsketch/exponential_univmon_optimized.go:74-107 | empty buckets, the unit size 1 and the conversion limit computed from the sketch dimensions |
| MomentHistogram.ExpoHistogramUnivOptimized.UpdateWindow | internal/promsketch/exponential_univmon_optimized.go:109-113 | only the window changes |
| MomentHistogram.ExpoHistogramUnivOptimized.InsertSample | internal/promsketch/exponential_univmon_optimized.go:267-288 | a newest bucket below unit size absorbs the sample, otherwise a new one does; map and l22 stay exact |
| MomentHistogram.ExpoHistogramUnivOptimized.MergeMapBuckets | internal/promsketch/exponential_univmon_optimized.go:291-305 | the loop with its running sum computes the specified pass |
| MomentHistogram.ExpoHistogramUnivOptimized.Update | internal/promsketch/exponential_univmon_optimized.go:225-356 | the exact new maps and sketches; the two-sided invariant holds after it, and the sketches and maps still hold the end of the stream; the total of all sizes is the old one minus what expired plus 1, through merges and conversion |
| MomentHistogram.ExpoHistogramUnivOptimized.LostWasCutOff | internal/promsketch/exponential_univmon_optimized.go:225-356 | in every reachable state with non-decreasing times a sample in no sketch and no map was before the cutoff of some update |
| MomentHistogram.ExpoHistogramUnivOptimized.WindowIsHeld | internal/promsketch/exponential_univmon_optimized.go:225-356 | hence with a fixed window every sample in the window that ends at the newest one is still in a sketch or a map |
| MomentHistogram.ExpoHistogramUnivOptimized.GetTotalBucketSizes | internal/promsketch/exponential_univmon_optimized.go:423-432 | the stored sizes add up to the samples behind the maps and the sketch sizes |
| MomentHistogram.ExpoHistogramUnivOptimized.MapCountIsLogarithmic | internal/promsketch/exponential_univmon_optimized.go:291-305 | the logarithmic bound in every reachable state |
| MomentHistogram.ExpoHistogramUnivOptimized.QueryIntervalMergeUniv | internal/promsketch/exponential_univmon_optimized.go:434-552 | panics exactly without a map bucket, or when the end is looked up among the sketches and the start past them; otherwise the answer is the one of the two looked up and rounded places: a live sketch, merged sketches, sketches with every map, or the exact histogram of the chosen maps, with the sizes of new sketches |
| MomentAnswers.AnswerExtent | internal/promsketch/exponential_univmon_optimized.go:434-552 | in every reachable state with strictly increasing times, for the times of two held samples a <= b: the answer is made of the held samples from the bucket of a on if and only if a is at most as far from its first sample as from its last, otherwise from right after it, up to the end of the bucket of b, or of the next sketch when it starts after b in a sketch, or of everything when it goes from sketches into maps; it panics exactly when b is in a sketch and the answer would start with the maps |
| MomentAnswers.StartIs | internal/promsketch/exponential_univmon_optimized.go:438-483 | the side of the start for any time inside one bucket only, from the times of its first and last sample |
| MomentAnswers.EndIs | internal/promsketch/exponential_univmon_optimized.go:446-475 | an end inside one bucket only is looked up there |
| MomentAnswers.PlaceOfGap | internal/promsketch/exponential_univmon_optimized.go:438-470 | a time inside no bucket is looked up in the oldest one |
| MomentWitnesses.EndOfSketch | internal/promsketch/exponential_univmon_optimized.go:490-503 | with one sketch the query for the very end of it panics, unless a map spans that time or it is after the newest sample |
| MomentWitnesses.EndInGap | internal/promsketch/exponential_univmon_optimized.go:490-503 | an end between two maps makes the query panic exactly when its start is looked up past the sketches |
| MomentWitnesses.PanickingRun | internal/promsketch/exponential_univmon_optimized.go:225-505 | for every k a run of updates and one window change that leads to such a query, with a map bucket present |
| CountSketch.MedianOfThree | internal/promsketch/utils.go:192-200 | one of the three, with one not above and one not below it |
| CountSketch.AloneIsExact | internal/promsketch/CountSketchUniv.go:144-150 | in a row without collision the signed counter is the exact total of the key |
| CountSketch.EstimateIsExact | internal/promsketch/CountSketchUniv.go:158-178 | a key without collision in at least two of the three rows is estimated exactly |
| CountSketch.NewCountSketchUniv | internal/promsketch/CountSketchUniv.go:33-67 | refuses non-positive dimensions, otherwise caps the rows at 3 and the columns at 2048, keeps the hash functions and starts clean with exact norms |
| CountSketch.CountSketchUniv.UpdateString | internal/promsketch/CountSketchUniv.go:144-150 | counters absorb the update and l2 of every row stays the sum of its squared counters |
| CountSketch.CountSketchUniv.UpdateStringNoL2 | internal/promsketch/CountSketchUniv.go:152-156 | counters absorb the update; l2 is left alone |
| CountSketch.CountSketchUniv.UpdateAndEstimateString | internal/promsketch/CountSketchUniv.go:180-208 | the same with the norm kept exact, and the estimate after the update |
| CountSketch.CountSketchUniv.UpdateAndEstimateStringNoL2 | internal/promsketch/CountSketchUniv.go:210-235 | counters absorb the update, and the estimate after it |
| CountSketch.CountSketchUniv.EstimateStringCount | internal/promsketch/CountSketchUniv.go:158-178 | the median of the signed counters at the key's own positions |
| CountSketch.CountSketchUniv.PositionAndSign | internal/promsketch/CountSketchUniv.go:130-142 | a column in range and a sign of 1 or -1 per row, fixed by the seeded hashes |
| CountSketch.CountSketchUniv.CleanCountSketchUniv | internal/promsketch/CountSketchUniv.go:69-78 | the doubling copy clears every counter; norms are exact again |
| TopK.TopKHeap.Find | internal/promsketch/heap.go:54-61 | an index of the key, or -1 exactly when it is absent |
| TopK.TopKHeap.UpdateOrderDown | internal/promsketch/heap.go:140-166 | sifting down keeps the items and repairs the heap, or reports that the item did not move |
| TopK.TopKHeap.UpdateOrderUp | internal/promsketch/heap.go:168-179 | sifting up keeps the items and restores heap order |
| TopK.TopKHeap.UpdateOrder | internal/promsketch/heap.go:134-138 | one changed count at any index is put back in order |
| TopK.TopKHeap.Insert | internal/promsketch/heap.go:117-132 | heap order, distinct keys and length at most k; append, replace the smallest, or leave the heap alone |
| TopK.TopKHeap.Update | internal/promsketch/heap.go:103-115 | a present key takes the new count, an absent one is inserted; order, distinct keys and length are kept |
| TopK.InsertKeepsLargest | internal/promsketch/heap.go:117-132 | inserting a new key keeps a choice of the k largest of everything seen |
| TopK.RunKeepsLargest | internal/promsketch/heap.go:103-132 | over any run in which each key comes once the heap holds the k largest items, none left out larger than one kept |
| UnivMon.FindBottomLayerNum | internal/promsketch/UnivMon.go:141-150 | the last layer reached: bits 1..l of the hash are all 1 exactly for the layers up to the result |
| UnivMon.SplitByBit | internal/promsketch/UnivMon.go:299-307 | twice the half with the bit set plus the signed sum is the plain sum |
| UnivMon.GSumExact | internal/promsketch/UnivMon.go:273-311 | with exact heaps and thresholds that keep the same keys in every layer the backward recursion equals the sum of g over the kept keys, for any hash, g and number of layers |
| UnivMon.CardSum | internal/promsketch/UnivMon.go:273-311 | with the cardinality threshold in the first layer only, a key of count c with (100 c)^2 at most the squared norm is left out when its next hash bit is 0 and counts twice when it is 1 |
| UnivMon.ThresholdIs | internal/promsketch/UnivMon.go:280-281 | a count is above int64(0.01 * norm) exactly when 100 times it is above the norm |
| UnivMon.FeedKeepsExact | internal/promsketch/UnivMon.go:154-165 | a heap with room stays exact when the exact new count of a key is fed in |
| UnivMon.UnivSketch.constructor | internal/promsketch/UnivMon.go:65-104 | pyramid dimensions and heap sizes, everything clean |
| UnivMon.UnivSketch.Uniform | internal/promsketch/UnivMon.go:38-63 | the same dimensions and heap size in every layer, everything clean, for either update |
| UnivMon.UnivSketch.SeparateIsClear | internal/promsketch/UnivMon.go:154-197 | keys that the hash functions keep apart in two rows of every layer they reach leave a clear state while the heaps have room |
| UnivMon.UnivSketch.Update | internal/promsketch/UnivMon.go:154-165 | exactly the layers down to the bottom take the update in counters and heap, the others stay |
| UnivMon.UnivSketch.UpdateOptimized | internal/promsketch/UnivMon.go:169-197 | only the first and bottom counters take the update; heaps of the layers between take the bottom estimate |
| UnivMon.UnivSketch.Process | internal/promsketch/UnivMon.go:236-244 | either update keeps the sketch valid: exact totals always, exact heaps while there is room and no spoiling collision |
| UnivMon.UnivSketch.Insert | internal/promsketch/exponential_univmon_optimized.go:324-328 | hashing, bottom layer, positions and update of one key together keep the sketch valid, add the weight to its exact counts, give every counter the share the hash functions fix and log hashed positions only |
| UnivMon.UnivSketch.FedAddsShare | internal/promsketch/UnivMon.go:169-197 | an update adds to each counter an amount fixed by the hash functions, whatever the counters were |
| UnivMon.UnivSketch.StaysValid | internal/promsketch/UnivMon.go:154-197 | totals and, in clear states, heaps stay exact over one update of either kind |
| UnivMon.UnivSketch.Free | internal/promsketch/UnivMon.go:106-113 | every layer is clean with exact norms and an empty heap |
| UnivMon.UnivSketch.CalcGSumHeuristic | internal/promsketch/UnivMon.go:273-311 | the loop computes the recursion; in a clear state it is the exact sum of g over all keys of positive count, and for cardinality that sum with small keys left out or counted twice by their next hash bit, small against the norm read off the first layer |
| UnivMon.UnivSketch.CalcL1 | internal/promsketch/UnivMon.go:317-319 | in a clear state with positive counts the sum of all weights |
| UnivMon.UnivSketch.CalcSquares | internal/promsketch/UnivMon.go:321-323 | likewise the sum of all squared weights, before the square root |
| UnivMon.UnivSketch.CalcCard | internal/promsketch/UnivMon.go:337-339 | likewise one for each large key and two for each small one whose next hash bit is 1 |
| SketchPools.SketchPool.constructor | internal/promsketch/SmoothHistogram.go:97-101 | every slot clean and free |
| SketchPools.SketchPool.FindGap | internal/promsketch/SmoothHistogram.go:169-192 | finds slot 0 when free, else the last slot of the first gap, else the one after all taken slots, in range |
| SketchPools.SketchPool.Reserve | internal/promsketch/SmoothHistogram.go:155-196 | an index in range outside the bitmap, growing the pool exactly when it is full; older slots keep their contents |
| SketchPools.SketchPool.GetUnivSketch | internal/promsketch/SmoothHistogram.go:153-201 | a clean slot that no bucket holds and that is not waiting to be cleaned; it grows by one slot exactly when all are taken |
| SketchPools.SketchPool.Enqueue | internal/promsketch/SmoothHistogram.go:212-231 | the slot goes from its bucket to the queue; bitmap and contents stay |
| SketchPools.SketchPool.Receive | internal/promsketch/SmoothHistogram.go:121-137 | a worker takes the oldest queued slot; nothing else changes |
| SketchPools.SketchPool.CleanSlot | internal/promsketch/SmoothHistogram.go:203-210 | the slot is cleaned and its bit cleared; it was held by no bucket |
| SketchPools.SketchPool.PutUnivSketch | internal/promsketch/SmoothHistogram.go:212-231 | gives a slot up, waiting while the queue is full; sketches of live buckets stay as they are; -1 is ignored |
| SketchContent.SubtractAbsorbs | internal/promsketch/SmoothHistogram.go:355-366 | the difference of two nested sketches is the sketch of the samples between their starts |
| SketchContent.Subtract | internal/promsketch/SmoothHistogram.go:355-373 | the loops over layers, rows and columns compute the counter-wise difference, and every heap keeps its keys with the counts read off the new counters |
| SketchContent.Reestimate | internal/promsketch/SmoothHistogram.go:367-373 | same keys in the same order, each count the median estimate from the given counters |
| SketchAnswers.Build | internal/promsketch/SmoothHistogram.go:238-253 | a clean real sketch fed the keys of a run by the optimized update has the exact counts, its logs hold hashed updates of these keys only, and any content the histogram takes for these samples has its counters |
| SketchAnswers.EstimateIsKnown | internal/promsketch/SmoothHistogram.go:367-373 | for a key undisturbed in two rows the re-estimate is its exact count where the layer is its first or bottom one and 0 elsewhere, hence exact if and only if the layer keeps its counters or it does not occur |
| SketchAnswers.ReestimatedHeap | internal/promsketch/SmoothHistogram.go:367-373 | re-estimating an exact heap of the older bucket gives exactly the keys of that layer with what the layer knows of them |
| SketchAnswers.MultiplicityIs | internal/promsketch/UnivMon.go:273-311 | a key of bottom layer b counts 2^b - 1 times in the sum of a subtracted answer, once when b is 0 |
| SketchAnswers.AnswerSum | internal/promsketch/UnivMon.go:273-311 | the backward recursion over such heaps is the sum over all keys between the two starts of that multiple of g |
| SketchAnswers.AnswerIsExact | internal/promsketch/UnivMon.go:273-311 | for a positive statistic it is the exact sum if and only if no key between the two starts reaches layer 2 |
| SketchAnswers.HeapsOfRun | internal/promsketch/SmoothHistogram.go:355-373 | a real sketch fed a run whose keys its hash functions keep apart in two rows, with room in its heaps, gives exactly such heaps when subtracted and re-estimated |
| SketchAnswers.SubtractedIsAnswer | internal/promsketch/SmoothHistogram.go:355-373 | two real sketches of a run and of its end, with the same hash functions, subtract to the sketch of the samples in between |
| SketchAnswers.AnswerOfRun | internal/promsketch/SmoothHistogram.go:355-373 | so both statements hold of the answer over real sketches, under conditions on the hash functions and the stream alone |
| SketchAnswers.TwoSketches | internal/promsketch/SmoothHistogram.go:233-253 | the updates themselves build both sketches |
| SketchAnswers.LoneKey | internal/promsketch/UnivMon.go:273-311 | a lone key of bottom layer b >= 2 and weight n makes it (2^b - 1) * g(n) |
| SketchAnswers.LoneRun | internal/promsketch/SmoothHistogram.go:303-393 | two samples of one key whose hash reaches layer 2, fed by the updates: every answer for the first one sums to (2^b - 1) * g(1) |
| SmoothHistogram.NearestIsFirstMinimum | internal/promsketch/SmoothHistogram.go:316-327 | the scan keeps the first bucket at minimal distance |
| SmoothHistogram.NearestIsMonotone | internal/promsketch/SmoothHistogram.go:316-327 | with ordered start times and t1 <= t2 the start bucket is not after the end bucket |
| NormThinning.ThinningStep | internal/promsketch/SmoothHistogram.go:257-278 | one thinning step settles one more pair of neighbours and leaves the rest of the list as it was |
| NormThinning.ThinIff | internal/promsketch/SmoothHistogram.go:257-278 | for any norms at all the kept list drops by the factor over any two steps if and only if no step ends at a bucket that is close again to the one before |
| NormThinning.ReboundIsKept | internal/promsketch/SmoothHistogram.go:257-278 | norms 4, 3, 2, 3, 2, 1 with beta 0.5, for which it does not |
| ReboundWitness.ReboundRun | internal/promsketch/SmoothHistogram.go:233-297 | a run of six updates over two keys whose counters cancel that leads to these norms and leaves 4, 3, 3, 2, 1 |
| ReboundWitness.ClashIsSetting | internal/promsketch/CountSketchUniv.go:130-150 | real hash functions under which two keys share a first-layer column with opposite signs in two rows give this run |
| NormThinning.FallingNeverRebounds | internal/promsketch/SmoothHistogram.go:257-278 | norms that never rise along the list meet the condition |
| NormThinning.NormsDescend | internal/promsketch/SmoothHistogram.go:257-278 | the buckets of a run have such norms when on this run a later suffix never weighs more than an earlier one |
| NormThinning.NormsDecay | internal/promsketch/SmoothHistogram.go:257-278 | on a list that drops, the norm at bucket 2m is at most (1 - beta/2)^m times the first one |
| SketchNorms.OneSignedIsMonotone | internal/promsketch/CountSketchUniv.go:144-150 | the first-layer norm never grows on later suffixes of a run in which no counter takes contributions of opposite signs |
| SketchNorms.NoClashIsOneSigned | internal/promsketch/CountSketchUniv.go:130-150 | that is so when no two keys of the run share a first-layer column with opposite signs in a row |
| SketchNorms.CancellingKeysBreakIt | internal/promsketch/CountSketchUniv.go:144-150 | two keys that cancel in two rows make the sketch of both lighter than that of the second alone |
| SmoothHistogram.SmoothHistogramUnivMon.FewBuckets | internal/promsketch/SmoothHistogram.go:257-278 | as an update leaves the list, the norm falls at least geometrically along it, so its length is logarithmic in the ratio of norms |
| SmoothHistogram.SmoothHistogramUnivMon.constructor | internal/promsketch/SmoothHistogram.go:88-119 | no bucket, one clean pooled sketch |
| SmoothHistogram.SmoothHistogramUnivMon.FeedAll | internal/promsketch/SmoothHistogram.go:234-253 | after one new bucket on a clean slot, every bucket holds exactly the samples since its start |
| SmoothHistogram.SmoothHistogramUnivMon.LastClose | internal/promsketch/SmoothHistogram.go:258-267 | the furthest bucket reachable over buckets close in norm |
| SmoothHistogram.SmoothHistogramUnivMon.RemoveRange | internal/promsketch/SmoothHistogram.go:271-277 | deleting a range gives exactly its slots back and disturbs no other bucket |
| SmoothHistogram.SmoothHistogramUnivMon.Sparsify | internal/promsketch/SmoothHistogram.go:257-278 | exactly the survivors stay; neighbours were neighbours before or are close in norm; no bucket is close to the second one after it if and only if no norm rebounds; first and last stay |
| SmoothHistogram.SmoothHistogramUnivMon.CountExpired | internal/promsketch/SmoothHistogram.go:280-287 | stops at the first bucket that started at most two windows ago; all before it are older |
| SmoothHistogram.SmoothHistogramUnivMon.DropExpired | internal/promsketch/SmoothHistogram.go:280-295 | only buckets older than two windows leave, the first one kept is younger; what was settled about the others stays so |
| SmoothHistogram.SmoothHistogramUnivMon.Update | internal/promsketch/SmoothHistogram.go:233-297 | feeding, thinning and expiry together: every bucket holds exactly the samples since its start, slots are not shared, with the norms after feeding exactly the survivors stay but the expired ones, the norm drops over any two of them unless a fed norm rebounds, which none does when norms shrink with the suffix on this run, and the oldest bucket leaves only when it is more than two windows old |
| SmoothHistogram.SmoothHistogramUnivMon.Background | internal/promsketch/SmoothHistogram.go:121-137 | no step of a background worker is noticed by any bucket |
| SmoothHistogram.SmoothHistogramUnivMon.ChooseBuckets | internal/promsketch/SmoothHistogram.go:304-337 | start and end bucket with all corrections |
| SmoothHistogram.SmoothHistogramUnivMon.MergeRange | internal/promsketch/SmoothHistogram.go:355-383 | the merged counters at every layer, row and column are those of a sketch fed only the samples in between; its heaps are copied, or re-estimated from these counters after a subtraction |
| SmoothHistogram.EndFollows | internal/promsketch/SmoothHistogram.go:329-337 | the end is the first bucket nearest to t1 when that is neither the start bucket nor the newest one, the next bucket when it is the start bucket, and now exactly when the start bucket is the newest one, or the end would be the newest one and t2 is at least as near to 0 as to its age |
| SmoothHistogram.SmoothHistogramUnivMon.QueryIntervalMergeUniv | internal/promsketch/SmoothHistogram.go:303-393 | in every reachable state with ordered times and t1 <= t2 the answer starts with the first bucket nearest to t2 and ends as just said, strictly later; it has the counters of a direct build over the samples in between, all of them within the two starting times and none strictly between them left out, and the heaps copied or re-estimated |
| RingStream.Telescopes | internal/promsketch/sum.go:111-119 | T times all bits plus the remainder is the exact sum of x / R, whatever the rounding did |
| RingFit.CarryInRange | internal/promsketch/sum.go:113-117 | while the bits fit, the remainder stays in [0, T) |
| RingFit.BitsAlwaysFit | internal/promsketch/sum.go:114 | the stored bits fit int8 for all samples up to R if and only if 127 * T >= 1 |
| RingFit.NarrowOverflows | internal/promsketch/sum.go:114 | for a smaller T a concrete stream of at most two samples whose bit does not fit |
| RingStream.WindowIdentity | internal/promsketch/sum.go:111-119 | T * B + y is the exact window sum plus the remainder from before the window |
| RingFit.WindowBound | internal/promsketch/sum.go:111-119 | T * B + y is never below the exact sum of x / R over the last item_window_size samples and exceeds it by less than T |
| RingStream.WindowTotalIsItsOwn | internal/promsketch/sum.go:111-119 | the exact window sum used in the bound is that of the last item_window_size samples themselves |
| RingStream.RingStep | internal/promsketch/sum.go:112-118 | the ring position about to be written is that of the sample leaving the window |
| RingCounter.EfficientSum.constructor | internal/promsketch/sum.go:33-70 | a zero ring of item_window_size entries |
| RingCounter.EfficientSum.InsertSmallError | internal/promsketch/sum.go:111-119 | ring, B and y are those of the stream extended by the sample; B is the sum of all stored bits |
| RingCounter.EfficientSum.Insert | internal/promsketch/sum.go:137-144 | the same, and the newest time |
| RingCounter.EfficientSum.QuerySmallError | internal/promsketch/sum.go:121-124 | the answer, within R * (T/2 + 2^(-v-1)) of exact while the bits fit, and then less than R * T/2 from exact with the correction added, on either side |
| SeriesIndex.LookupPlaced | internal/promsketch/promsketches.go:172-188 | storing a series changes the answer for its own labels only |
| SeriesIndex.LookupOthers | internal/promsketch/promsketches.go:190-216 | removing an id changes the answer for the labels of that series only |
| SeriesIndex.RemainingIsOthers | internal/promsketch/promsketches.go:190-216 | deletion keeps exactly the other series, if and only if the head's id is not repeated behind it |
| SeriesIndex.RepeatedIdSurvives | internal/promsketch/promsketches.go:172-216 | two series stored under one id and one hash: deleting the id leaves the second one to be found |
| SeriesIndex.SketchSeriesHashMap.Get | internal/promsketch/promsketches.go:158-170 | lookup in the one map from labels to series |
| SeriesIndex.SketchSeriesHashMap.Set | internal/promsketch/promsketches.go:172-188 | update of the one map; labels stay distinct per hash and conflict lists non-empty behind a unique entry |
| SeriesIndex.SketchSeriesHashMap.Del | internal/promsketch/promsketches.go:190-216 | removal from the one map, promoting the first conflict when the unique entry goes |
| SeriesIndex.SketchSeries.constructor | internal/promsketch/promsketches.go:346-365 | an empty index with separate stripes |
| SeriesIndex.SketchSeries.GetById | internal/promsketch/promsketches.go:234-245 | lookup by id; nothing without stripes |
| SeriesIndex.SketchSeries.GetByHash | internal/promsketch/promsketches.go:247-256 | lookup by hash and labels; nothing without stripes |
| SeriesIndex.SketchSeries.IdsAreUnique | internal/promsketch/promsketches.go:674-696 | two entries have the same id exactly when they are the same entry |
| SeriesIndex.SketchSeries.GetOrCreate | internal/promsketch/promsketches.go:674-696 | the series of the labels, or a new one with the next id; found by hash and by id afterwards, all other answers unchanged |
| Partitioner.NewPartitionMapper | internal/cluster/hash/partitioner.go:34-75 | accepts exactly the node lists whose ranges are below the total, apart and complete; otherwise the error is justified by the nodes |
| Partitioner.AssignNode | internal/cluster/hash/partitioner.go:52-65 | one range is mapped, or the first out-of-range or doubly assigned partition is reported |
| Partitioner.ExactlyOneOwner | internal/cluster/hash/partitioner.go:51-72 | each partition below the total has exactly one owner, the mapped one |
| Partitioner.BelowZero | internal/cluster/hash/partitioner.go:53-64 | partitions below zero are mapped exactly when some range starts there |
| Partitioner.NegativeStartIsAccepted | internal/cluster/hash/partitioner.go:53-57 | a range that starts at -1 is accepted |
| Partitioner.PartitionMapper.GetPrimaryNode | internal/cluster/hash/partitioner.go:84-88 | the owner, nil exactly for unowned partitions |
| Partitioner.PartitionMapper.GetNodesForPartition | internal/cluster/hash/partitioner.go:93-138 | nothing without an owner; otherwise the owner followed by the highest ranked other nodes, as many as asked for |
| Partitioner.ChoiceIsDetermined | internal/cluster/hash/partitioner.go:126-135 | with distinct scores the answer for given nodes is determined, whatever sort is used |
| Partitioner.ChoiceIsDistinct | internal/cluster/hash/partitioner.go:93-138 | primary first, no node twice, min(max(replicaCount, 1), nodes) entries |
| Partitioner.ChoiceIsTop | internal/cluster/hash/partitioner.go:126-135 | every replica outscores every node left out |
| Partitioner.ChoiceIsStable | internal/cluster/hash/partitioner.go:93-138 | removing a node that was not chosen leaves the answer for the same primary unchanged |

## Left out

- `ExpoHistogramDD`, `ExpoHistogramCS` and `ExpoHistogramUniv`: the same cascade loop with other bucket contents.
- Floating-point rounding and 64-bit overflow; sums and norms are exact numbers.
- The internals of KLL, DDSketch, roaring bitmaps and the hash functions; probabilistic accuracy of the sketches.
- The `sum` and `sum2` fields of count buckets, which the counting histogram never sets.
- The `min_idx` and `max_idx` fields of map buckets, which no query reads.
- `MomentHistogram.ToSketch`: a sketch bucket is its times, size and first-layer norm; its counters and heaps are not part of this class, and the norm of a sketch filled from a map is an arbitrary function of the map.
- `MomentHistogram.ExpoHistogramUnivOptimized.Update`: the same holds for conversion and merging; the norm of a merged sketch is the stale one of the older sketch, as in the original.
- `MomentHistogram.ExpoHistogramUnivOptimized.QueryIntervalMergeUniv`: the answers built from sketches, alone or with maps, are recorded as which buckets are merged, with their size and the samples behind them; nothing is claimed about the accuracy of the merged sketch. A panic is an answer of its own; the lock it leaves held is not modelled.
- `CountSketch.NewCountSketchUniv`: rows have exactly the capped number of columns here. The original takes pooled rows of 2048 columns when there are three rows and of 512 otherwise, so a sketch of fewer rows and more than 512 columns would index past its rows; nothing in the repository builds one.
- `CountSketch.CountSketchUniv.CleanCountSketchUniv`: for the same reason the columns beyond the capped number, which the original never clears, do not exist here.
- `UnivMon.UnivSketch.constructor`: more than eight layers are for the optimized update only. With the plain update the original writes the 512-column layers at columns of the 2048-column ones; their pooled rows are long enough, but freeing the sketch clears the first 512 columns only and leaves the rest behind. The plain update over more layers is that of `UnivMon.UnivSketch.Uniform`, which requires three rows or more.
- `UnivMon.UnivSketch.Process`: a sketch is fed through one of the two updates throughout; a sketch fed by both in turn has no total per layer to state.
- `SketchAnswers.AnswerSum`: it speaks of given heaps; that real sketches have them is `SketchAnswers.HeapsOfRun`, for keys kept apart in two rows and heaps with room.
- `SketchAnswers.AnswerIsExact`: the same, with `SketchAnswers.AnswerOfRun`.
- `UnivMon.UnivSketch.CalcGSumHeuristic`: exactness needs a clear state, that is no overflowing heap and no key spoiled by collisions where its counters are read; outside it only the recursion itself is stated. `calcEntropy` and the square root of `calcL2` are left out.
- `update_pyramid`, `QueryTopK` and `MergeWith` of the universal sketch, and the norm of a layer below the first, which updates do not maintain.
- `SmoothHistogram.SmoothHistogramUnivMon.FeedAll`: pooled sketches are values in the slots of the pool, fed by one function per sample: a fixed amount per key and counter, and heaps by an arbitrary function of the counters. That a real sketch fed the same keys has these counters is `SketchAnswers.Build`; no claim is made about the heaps of the pooled values.
- `SmoothHistogram.SmoothHistogramUnivMon.Update`: the norm is an arbitrary function of the sketch.
- `SmoothHistogram.SmoothHistogramUnivMon.MergeRange`: the locks are not modelled.
- `SmoothHistogram.SmoothHistogramUnivMon.QueryIntervalMergeUniv`: distances are required to be below the largest 64-bit integer, which the scan starts from. The mutex that the original leaves locked when it finds no bucket is not modelled.
- `SketchPools.SketchPool.PutUnivSketch`: the busy wait on a full channel is the loop in which background steps run; the pending count rises when the slot is queued, not before the wait.
- For a single bucket `QueryIntervalMergeKLL` hands out the live sketch itself; the model returns its contents at that time.
- `RingCounter.EfficientSum.constructor`: v and T are parameters, T positive, and so are R and the correction; their choice from epsilon with logarithms is left out.
- `RingCounter.EfficientSum.Insert`: the large-error mode, and queries over sub-intervals.
- `SeriesIndex.SketchSeries.GetOrCreate`: one call at a time; the locks and the race between the lookup and the insertion are not modelled. The number of stripes is required to be positive, since the original indexes the stripe without a check.
- Lookups by label subset, evaluation and insertion of samples into the sketches of a series.
- `Partitioner.PartitionMapper.GetNodesForPartition`: equal scores are left to the order the sort produces, so determinism and stability are stated for distinct scores; the library sort is an insertion sort. Lookup of nodes by id and of partitions by metric name add nothing to it.
- HTTP, gRPC, configuration, metrics, storage and the user interface.
