# FA-IForest: a verified model

FA-IForest scores a stream with an isolation forest that is retrained when enough features drift. This project models
its two halves and proves what they promise:

- **Detection.** Per feature, an incremental Kolmogorov-Smirnov detector (a treap with lazy range-add, read at its
  root) behind a peak-KS confirmation gate, or an EWMA detector on a normalised signal; across features, an aggregator
  that turns onsets into retraining rounds. The sorted-window detector, the sliding-window detector with re-basing and
  the offline quorum aggregator of the analysis scripts are modelled beside the deployed ones.
- **Retraining.** P scoring operators, each a state machine (cold start, STABLE, COOLDOWN, WAITING) with a backlog, a
  ring buffer and a timer, and one coordinator that assembles their trees into versioned forests, connected by FIFO
  topics; the isolation trees they train and walk; and the two AUC computations used to judge the result.

Objects that are updated in place are classes here (`Treap`, `IKS`, `IKSSW`, `VFastIKSSW`, `RingBuffer`, `HDDM_W`,
`HDDM_A`, `HDDM_A_Windowed` and the five operators); their methods are proved against step functions or sequences,
and the theorems over whole runs are lemmas about those.

## Layout

- `FlatList`, `TreapModel`, `Treap`: the treap as a tree of fields, its meaning as a flat list of (key, effective
  value), and the pointer structure that implements it.
- `PrefixSums`, `KsTree`, `ValueKs`, `IncrementalKs`, `SlidingWindowKs`, `SortedWindowKs`, `PeakGateModel`, `PeakGate`:
  the KS detectors and the gate.
- `MeanTest`, `EwmaModel`, `HddmW`, `Calibration`, `EpochRuns`, `FeatureHddmModel`, `FeatureHddm`, `HddmAModel`,
  `HddmA`: the Hoeffding detectors and the operator over one of them.
- `AggregatorModel`, `Aggregator`, `QuorumOnsets`: from onsets to rounds.
- `Messages`, `RingBuffer`, `LocalModel`, `LocalRuns`, `LocalLaws`, `LocalStreams`, `LocalPools`, `LocalProcessor`,
  `CoordinatorModel`, `Coordinator`, `Protocol`, `ProtocolPools`: the retraining protocol.
- `IsolationTree`, `SplitRules`, `TreeBuilder`: building and walking trees.
- `PairCounting`, `SearchAuc`, `Midranks`, `RankAuc`, `FprThreshold`: ROC area and threshold choice.
- `Results`, `DriftEvents`, `RealArith`, `Counting`, `SortedLists`: shared notions.

Doubles are reals; counters are unbounded. Square roots of logarithms are arbitrary constants or functions
(`MeanTest.OfRatio`, `HddmAModel.Config`); priorities, tie-break numbers, features, thresholds and permutations drawn
at random are arbitrary values; those of a tree are given per node, so that its contracts hold for every draw. The
treap's key is the detector's (value, tie-break, group); duplicate keys are allowed.
In the Hoeffding detectors rho stands for sqrt(ln(1/driftConfidence) / ln(1/warnConfidence)); their thresholds are
arbitrary functions of the best bound, of which `MeanTest.OfRatio` gives the ones of the source. Tie-break numbers are
arbitrary integers, so that keys may coincide, which is only unlikely in the source; the empty cells of a ring hold an
arbitrary element where the source has null. `analysis/Treap.py` and `analysis/IKS.py` hold the same treap and
insertion, removal and statistic as the Java classes cited below.

## Where the code and its comments or tests differ

The model follows the code.

- The batch-end gate is commented out (`src/main/java/com/leejean/flink/CoordinatorFunction.java:97-100`), so any tree
  that completes a table of one round fires (`CoordinatorModel.FiresExactly`); a test expects the gate.
- A new COMMITTED opens a COOLDOWN from any sub-state, not from STABLE alone
  (`src/main/java/com/leejean/flink/LocalProcessorFunction.java:281-290`).
- `src/main/java/com/leejean/flink/PerFeatureIKSFunction.java:84` says `ks()` throws during the warm-up; both counts
  are 0 then and it returns 0 (`IncrementalKs.IKS.Ks`).
- "The composite-key statistic exceeds the value-based one by at most 1/W" (`analysis/derisk_proxy.py:325-328`,
  `src/test/java/com/leejean/drift/IKSTest.java:17-23`) is false for repeated values: `ValueKs.BiasOneFails` gives
  two windows, `ValueKs.BiasOneExactly` the windows for which it holds, and `IncrementalKs.StatisticInRange` the bound
  that always holds.
- `analysis/derisk_proxy.py:494` speaks of edges inside [ep - agg_win, ep]; edges are evicted before new ones are
  admitted, so what is admitted at a point stays until the next, even if it lies before the window already. Both
  callers (lines 547-548 and 647-650) pass edges recorded at points of the grid they evaluate on, and on those the
  onsets are the documented ones (`QuorumOnsets.GridOnsets`). For arbitrary edges not before the first window they are
  exactly on grids whose points are at most agg_win + 1 apart (`QuorumOnsets.DocumentedExactly`); edges before the first
  window count at the first point of any grid (`QuorumOnsets.FirstPointDiffers`, with an input in
  `QuorumOnsets.FirstPointExample`).
- `src/main/java/com/leejean/tree/ITreeBuilder.java:114` and 128 speak of thresholds inside (min, max) and of one equal
  to max that leaves the right side empty; the draw is from [0, 1), so the right side never is, and the left one is
  exactly when 0 was drawn (`SplitRules.Sides`).
- The 32 bits kept of the round id suffice only below 2^32 rounds (`CoordinatorModel.RoundsConfusedExactly`,
  `CoordinatorModel.RoundsWrap`); `Protocol.RoundsOfARun` has that premise.
- The aggregator counts every onset it has not evicted, also one at a later position than the present one, so it
  follows the window rule exactly for positions that never go back (`AggregatorModel.AgreesExactlyInOrder`).

## Model

| member | source | states |
|---|---|---|
| TreapModel.SumAllMeaning | src/main/java/com/leejean/drift/Treap.java:71-77 | adding to a root adds to every effective value of its subtree and keeps aggregates, sizes and heap order right |
| TreapModel.UnlazyMeaning | src/main/java/com/leejean/drift/Treap.java:84-89 | pushing the pending delta down changes no effective value, and leaves none pending at the node |
| TreapModel.UpdateMeaning | src/main/java/com/leejean/drift/Treap.java:95-114 | recomputing a node over sound children leaves the flat list alone and makes size, maximum and minimum exact again |
| TreapModel.AggregatesExact | src/main/java/com/leejean/drift/Treap.java:95-114 | what a sound node caches is the number of its entries and the largest and smallest of their effective values, each attained and none beyond it |
| TreapModel.SplitMeaning | src/main/java/com/leejean/drift/Treap.java:123-140 | splitting cuts the flat list in two at the key, strictly smaller keys left, equal ones right; both halves are sound treaps |
| TreapModel.MergeMeaning | src/main/java/com/leejean/drift/Treap.java:147-161 | for arbitrary priorities merging concatenates the flat lists and keeps heap order and aggregates |
| TreapModel.SplitSmallestMeaning | src/main/java/com/leejean/drift/Treap.java:164-177 | the first entry comes off as a one-node treap holding its effective value; the rest keeps its order |
| TreapModel.SplitGreatestMeaning | src/main/java/com/leejean/drift/Treap.java:180-193 | the last entry comes off as a one-node treap holding its effective value; the rest keeps its order |
| TreapModel.RangeAddFromKey | src/main/java/com/leejean/drift/Treap.java:71-161 | split then merge is the identity on the flat list; with a range-add on the right half in between, exactly the entries with key >= k change |
| TreapHeap.Treap.constructor | src/main/java/com/leejean/drift/Treap.java:44-54 | a new node is a one-node treap |
| TreapHeap.SumAll | src/main/java/com/leejean/drift/Treap.java:71-77 | in place on the root object, the representation then stands for the summed tree |
| TreapHeap.Unlazy | src/main/java/com/leejean/drift/Treap.java:84-89 | in place, the representation stands for the same tree with the root delta pushed down |
| TreapHeap.Update | src/main/java/com/leejean/drift/Treap.java:95-114 | in place, the representation stands for the tree with recomputed root aggregates |
| TreapHeap.SplitKeepRight | src/main/java/com/leejean/drift/Treap.java:123-140 | pointer surgery yields two disjoint treaps on the old nodes, standing for the two halves of the split |
| TreapHeap.Merge | src/main/java/com/leejean/drift/Treap.java:147-161 | pointer surgery yields one treap on the old nodes, standing for the merged tree |
| TreapHeap.SplitSmallest | src/main/java/com/leejean/drift/Treap.java:164-177 | pointer surgery yields disjoint treaps for the first node and the rest |
| TreapHeap.SplitGreatest | src/main/java/com/leejean/drift/Treap.java:180-193 | pointer surgery yields disjoint treaps for the rest and the last node |
| TreapHeap.ValuesInOrder | src/main/java/com/leejean/drift/Treap.java:222-231 | the traversal with carried deltas lists exactly the effective values in key order and changes nothing |
| KsTree.AddMeaning | src/main/java/com/leejean/drift/IKS.java:133-157 | inserting into the treap of a sorted key sequence gives the treap of that sequence with the key inserted: every effective value is again #current - #reference up to its position |
| KsTree.RemoveMeaning | src/main/java/com/leejean/drift/IKS.java:163-188 | removing gives the treap of the sequence without the first copy of the key, unchanged if there is none |
| KsTree.RootStatistic | src/main/java/com/leejean/drift/IKS.java:195-202 | the larger of root maximum and negated root minimum is the brute-force maximum absolute prefix difference |
| PrefixSums.PeakAbsMeaning | src/main/java/com/leejean/drift/IKS.java:195-202 | that maximum is attained at some non-empty prefix and bounds all of them |
| PrefixSums.DeleteInsert | src/main/java/com/leejean/drift/IKS.java:133-188 | removing a key just inserted restores the sequence |
| PrefixSums.DeleteMeaning | src/main/java/com/leejean/drift/IKS.java:163-188 | a present key is always hit: order is kept and exactly one copy goes |
| IncrementalKs.AddToTreap | src/main/java/com/leejean/drift/IKS.java:137-156 | split, predecessor value, merge and range-add on the heap stand for the insertion |
| IncrementalKs.RemoveFromTreap | src/main/java/com/leejean/drift/IKS.java:167-187 | split, drop or put back, and merge on the heap stand for the removal |
| IncrementalKs.IKS.Add | src/main/java/com/leejean/drift/IKS.java:133-157 | the keys held gain one key in order, and the count of its group goes up by one |
| IncrementalKs.IKS.Remove | src/main/java/com/leejean/drift/IKS.java:163-188 | the keys held lose one copy of the key, and the count of its group goes down by one |
| IncrementalKs.IKS.Ks | src/main/java/com/leejean/drift/IKS.java:195-202 | an error exactly when the windows differ in size; otherwise 0 or the peak over W; a detector driven by updates never errs and, once warm, shows a statistic of the last W against the first W values |
| IncrementalKs.StatisticInRange | src/main/java/com/leejean/drift/IKS.java:195-202 | whatever the tie-breaks, a statistic of two windows lies in [0, 1], is at least the value-based KS, and exceeds it by at most max over v of min(copies in both windows) / W |
| IncrementalKs.IKS.Update | src/main/java/com/leejean/drift/IKS.java:71-105 | before W values STABLE; afterwards both windows hold W, the deque is the last W values in arrival order, and DRIFT is answered exactly when the peak over W exceeds the threshold |
| IncrementalKs.IKS.Flush | src/main/java/com/leejean/drift/IKS.java:79-90 | the warm-up buffer enters both windows under independent tie-breaks |
| IncrementalKs.IKS.Slide | src/main/java/com/leejean/drift/IKS.java:96-102 | the oldest current key leaves (its removal hits) and the new one enters |
| IncrementalKs.IKS.Reset | src/main/java/com/leejean/drift/IKS.java:108-116 | everything is forgotten |
| IncrementalKs.IKS.Rebase | src/main/java/com/leejean/drift/IKS.java:219-221 | re-basing forgets everything: the reference is rebuilt from the next W values |
| ValueKs.ValuePeakBelow | src/main/java/com/leejean/drift/IKS.java:195-202 | the composite-key peak is never below the value-based one |
| ValueKs.ValuePeakAbove | src/main/java/com/leejean/drift/IKS.java:195-202 | and never above it by more than the copies some value has in both windows |
| ValueKs.BiasAtMostOne | analysis/derisk_proxy.py:325-328 | that bound is one copy exactly when no value has two copies in both windows |
| ValueKs.BiasOneExactly | analysis/derisk_proxy.py:325-328 | the claimed 1/W bound holds for two windows under all tie-breaks exactly when no value, with its copies counted on one side, overshoots the value-based peak plus one |
| ValueKs.BiasOneFails | analysis/derisk_proxy.py:325-328 | two equal windows of one repeated value on which the claimed bound fails |
| ValueKs.PeakAtMostW | src/main/java/com/leejean/drift/IKS.java:195-202 | the peak is at most W, so the statistic at most 1 |
| SlidingWindowKs.IKSSW.constructor | analysis/IKSSW.py:6-22 | both windows hold the initial values |
| SlidingWindowKs.IKSSW.Increment | analysis/IKSSW.py:24-33 | the window moves on by one value, the reference stays, and the treap holds exactly both windows |
| SlidingWindowKs.IKSSW.Update | analysis/IKSSW.py:53-64 | the reference becomes the window, no sample is lost, and the value-based statistic is 0 |
| SlidingWindowKs.IKSSW.KS | analysis/IKSSW.py:45-51 | never fails: the peak over W, in [0, 1] and in range of the value-based KS |
| SortedWindowKs.VFastIKSSW.Increment | analysis/derisk_proxy.py:344-349 | the window moves on by one value in time order, and the sorted copy stays a sorted copy |
| SortedWindowKs.VFastIKSSW.KS | analysis/derisk_proxy.py:351-358 | reading both distributions by binary search at all points gives the value-based KS |
| SortedWindowKs.VFastIKSSW.Update | analysis/derisk_proxy.py:363-364 | after re-basing on the window the value-based KS is 0 |
| PeakGateModel.GateOverRuns | src/main/java/com/leejean/flink/PerFeatureIKSFunction.java:76-130 | over every run: confirming implies a warm detector with start and peak set; each report names where the threshold was passed and the largest statistic from there to at least confirmWin later, above the threshold and at least ksConfirm; at increasing positions onsets are at least confirmWin + windowSize apart |
| PeakGateModel.ConfirmationsOfARun | src/main/java/com/leejean/flink/PerFeatureIKSFunction.java:76-130 | every run goes through one chain of confirmations: each opens at the first warm sample above the threshold after the one before, ends at the first sample at least confirmWin later, and is reported, with the peak from opening to end, exactly when that peak is at least ksConfirm; a report re-bases the detector, a discard does not |
| PeakGateModel.OneTimeline | src/main/java/com/leejean/flink/PerFeatureIKSFunction.java:76-130 | the samples determine that chain |
| PeakGate.PerFeatureIKSFunction.ProcessElement | src/main/java/com/leejean/flink/PerFeatureIKSFunction.java:76-130 | one sample is one gate step on the statistic, for some tie-breaks, of the last W against the first W values since the re-base |
| PeakGate.PerFeatureIKSFunction.Confirm | src/main/java/com/leejean/flink/PerFeatureIKSFunction.java:90-127 | threshold, running peak, confirmation window and report on the operator state |
| MeanTest.StatusMeaning | src/main/java/com/leejean/drift/HDDM_W.java:87-106 | DRIFT and WARN exactly when the last lower end exceeds the mean of the first observation with the lowest upper end by the drift, or only the warning, distance |
| MeanTest.LowestExists | src/main/java/com/leejean/drift/HDDM_W.java:87-90 | the best (mean, bound) kept is the first observation of the run with the lowest upper end |
| MeanTest.WarnClock | src/main/java/com/leejean/drift/HDDM_W.java:97-106 | the clock is 0 outside a warning and otherwise the first sample of the unbroken sequence of WARN answers |
| MeanTest.Decide | src/main/java/com/leejean/drift/HDDM_W.java:87-106 | the comparison part of update, common to the three detectors, is one step of the test |
| EwmaModel.AverageIsWeighted | src/main/java/com/leejean/drift/HDDM_W.java:68-75 | the recursion is the weighted sum with weights lambda (1 - lambda)^age, the first value keeping the remaining weight |
| EwmaModel.BestIsLeast | src/main/java/com/leejean/drift/HDDM_W.java:87-90 | the best bound is always epsilon and the best mean the least average since the reset |
| EwmaModel.DriftMeaning | src/main/java/com/leejean/drift/HDDM_W.java:92-100 | DRIFT exactly when the average exceeds the least one so far by more than epsilon (1 + rho) |
| EwmaModel.RatioMargin | src/main/java/com/leejean/drift/HDDM_W.java:92-97 | for thresholds of a ratio rho the margin of a drift over the least average is epsilon (1 + rho) |
| EwmaModel.WarnMeaning | src/main/java/com/leejean/drift/HDDM_W.java:92-104 | WARN exactly when the average exceeds the least one so far by more than epsilon (1 + 1 / rho) and not by more than epsilon (1 + rho) |
| EwmaModel.DriftNeedsTime | src/main/java/com/leejean/drift/HDDM_W.java:63-107 | for inputs in [0, 1] a DRIFT at sample n needs 1 - (1 - lambda)^(n - 1) > epsilon (1 + rho) |
| EwmaModel.DriftPossibleExactly | src/main/java/com/leejean/drift/HDDM_W.java:63-107 | and exactly then some inputs in [0, 1] produce it |
| EwmaModel.DriftUnreachableExactly | src/main/java/com/leejean/drift/HDDM_W.java:63-107 | no inputs in [0, 1] ever produce DRIFT exactly when epsilon (1 + rho) >= 1 |
| HddmW.HDDM_W.Update | src/main/java/com/leejean/drift/HDDM_W.java:63-107 | the answer is the status of the run of averages since the reset |
| HddmW.HDDM_W.WarnTimedOut | src/main/java/com/leejean/drift/HDDM_W.java:110-117 | timed out exactly when the last warnTimeout + 1 answers were all WARN |
| HddmW.HDDM_W.Reset | src/main/java/com/leejean/drift/HDDM_W.java:120-126 | everything is forgotten |
| HddmAModel.SumSlides | src/main/java/com/leejean/drift/HDDM_A_Windowed.java:57-63 | subtracting the overwritten value and adding the new one keeps the sum of the last min(n, W) values |
| HddmAModel.ObservedMeaning | src/main/java/com/leejean/drift/HDDM_A.java:43-48 | the number of values times the mean shown is their sum, and the bound is the one of that number |
| HddmAModel.SameExactlyUpToW | src/main/java/com/leejean/drift/HDDM_A_Windowed.java:54-92 | windowed and cumulative detector answer alike on every run of at most W samples, and, bounds shrinking with the count, are shown the same exactly on those |
| HddmA.HDDM_A_Windowed.Slide | src/main/java/com/leejean/drift/HDDM_A_Windowed.java:57-63 | the ring holds the last min(n, W) values and the sum field is their sum |
| HddmA.HDDM_A_Windowed.Update | src/main/java/com/leejean/drift/HDDM_A_Windowed.java:54-92 | the answer is the status of the run of window means, bounds taken at the window size |
| HddmA.HDDM_A.Update | src/main/java/com/leejean/drift/HDDM_A.java:43-80 | the answer is the status of the run of means of all values, bounds taken at their number |
| Calibration.P99Meaning | src/main/java/com/leejean/flink/PerFeatureHDDMFunction.java:177-195 | the scale is a deviation with fewer than 99% of all below it and at least 99% at most it |
| Calibration.P99Unique | src/main/java/com/leejean/flink/PerFeatureHDDMFunction.java:177-195 | no other deviation has both shares |
| Calibration.RankInside | src/main/java/com/leejean/flink/PerFeatureHDDMFunction.java:191-194 | on a non-empty list the rank lies in 1..n, so the clamps never act |
| Calibration.MaxdevMeaning | src/main/java/com/leejean/flink/PerFeatureHDDMFunction.java:183-189 | in the other mode the scale is one of the deviations, all of which lie between 0 and it |
| Calibration.DeviationsAt | src/main/java/com/leejean/flink/PerFeatureHDDMFunction.java:121-129 | each deviation collected is the distance of a value from the mean of the values up to it |
| Calibration.ReferenceMeaning | src/main/java/com/leejean/flink/PerFeatureHDDMFunction.java:132-134 | the frozen mean times the length of the warm-up is its sum, and the scale is the larger of EPS and the estimate: a deviation with the p99 shares, or the largest |
| Calibration.SignalUnit | src/main/java/com/leejean/flink/PerFeatureHDDMFunction.java:150-151 | the signal lies in [0, 1], is 1 exactly from one scale away from the reference mean, and below that, times the scale, is the distance from it |
| Calibration.SignalsGrow | src/main/java/com/leejean/flink/PerFeatureHDDMFunction.java:132-151 | the reference is frozen: a later value adds its own signal and changes no earlier one |
| FeatureHddm.EstimateScale | src/main/java/com/leejean/flink/PerFeatureHDDMFunction.java:177-195 | loop and sorted look-up compute the scale estimate |
| FeatureHddm.PerFeatureHDDMFunction.ProcessElement | src/main/java/com/leejean/flink/PerFeatureHDDMFunction.java:118-170 | one sample is one step of the rule: silent through the warm-up, then a report and a fresh start exactly when the signals since the warm-up are judged a drift |
| FeatureHddmModel.FeatureOverRuns | src/main/java/com/leejean/flink/PerFeatureHDDMFunction.java:118-170 | over every run each report follows from the values since the last restart, and at increasing positions consecutive ones are at least the warm-up plus n apart for some n with 1 - (1 - lambda)^(n - 1) > epsilon (1 + rho) |
| FeatureHddmModel.FeatureReportsExactly | src/main/java/com/leejean/flink/PerFeatureHDDMFunction.java:118-170 | over every run a report is made at the first sample after the warm-up at which the signals since the last restart are judged a drift, with the last of them, and at no other |
| FeatureHddmModel.LastSignalMeaning | src/main/java/com/leejean/flink/PerFeatureHDDMFunction.java:132-151 | the last signal in terms of the mean of the warm-up, the estimate of its deviations and the last value |
| FeatureHddmModel.SilentFeature | src/main/java/com/leejean/flink/PerFeatureHDDMFunction.java:118-170 | with epsilon (1 + rho) >= 1 a feature is never reported |
| AggregatorModel.RefinesHistory | src/main/java/com/leejean/flink/DriftAggregatorFunction.java:65-111 | for non-decreasing positions a round is committed at an onset exactly when the refractory since the last commit is over and at least k distinct features have a later onset within aggWin up to it; its votes are their number |
| AggregatorModel.GoingBackDiffers | src/main/java/com/leejean/flink/DriftAggregatorFunction.java:72-78 | after an onset at a later position the aggregator still counts that one, and commits where the window ending at the new onset would not |
| AggregatorModel.AgreesExactlyInOrder | src/main/java/com/leejean/flink/DriftAggregatorFunction.java:65-111 | started at any point of a stream of onset positions it agrees with that rule, for all features, k and refractories, exactly when positions never go back |
| AggregatorModel.RoundsCounted | src/main/java/com/leejean/flink/DriftAggregatorFunction.java:93-106 | round ids are 1..n, each on at least k votes, and k n onsets at least were used up |
| AggregatorModel.RoundsSpaced | src/main/java/com/leejean/flink/DriftAggregatorFunction.java:80-97 | consecutive commits are at least the refractory apart, so n of them span at least (n - 1) refractories |
| Aggregator.DriftAggregatorFunction.ProcessElement | src/main/java/com/leejean/flink/DriftAggregatorFunction.java:65-111 | one onset is one step of the aggregator |
| Aggregator.DriftAggregatorFunction.Evict | src/main/java/com/leejean/flink/DriftAggregatorFunction.java:72-78 | exactly the features whose latest onset lies before the window are forgotten |
| QuorumOnsets.Run | analysis/derisk_proxy.py:489-530 | for any edges and points, the queues and counters compute the onsets of the streaks of quorums of non-empty queues |
| QuorumOnsets.QueueMeaning | analysis/derisk_proxy.py:512-522 | a queue is non-empty exactly when some edge of the feature counts |
| QuorumOnsets.QueuedOnsets | analysis/derisk_proxy.py:489-530 | on ascending edges and points these are the onsets over the edges that count at each point |
| QuorumOnsets.SameWindowExactly | analysis/derisk_proxy.py:493-495 | at a point the counted window is, for all edges, the documented one exactly when it is not the first point and at most aggWin + 1 after the one before |
| QuorumOnsets.GridOnsets | analysis/derisk_proxy.py:533-549 | when every edge is one of the evaluation points, as in both calls, the onsets are those of the documented window, whatever the spacing |
| QuorumOnsets.DocumentedExactly | analysis/derisk_proxy.py:489-530 | for ascending points, the onsets are those of the documented window for all parameters and all edges not before the first window exactly when the points are at most aggWin + 1 apart |
| QuorumOnsets.FirstPointDiffers | analysis/derisk_proxy.py:511-516 | for any points some older edge makes the onsets differ: what precedes the first window is counted at the first point |
| QuorumOnsets.FirstPointExample | analysis/derisk_proxy.py:511-516 | one edge at 0, points 100 and 101 and a window of 5: an onset at 100 in the code, none in the documented window |
| QuorumOnsets.OnsetsSpaced | analysis/derisk_proxy.py:527-529 | onsets are at least the refractory apart |
| QuorumOnsets.OnsetsPersistent | analysis/derisk_proxy.py:523-529 | each onset ends at least persist quorums in a row |
| QuorumOnsets.OnsetsExactly | analysis/derisk_proxy.py:523-529 | a point is an onset exactly when persist quorums in a row end there and the refractory since the last onset is over |
| RingBufferModule.RingBuffer.Add | src/main/java/com/leejean/tree/RingBuffer.java:36-42 | the buffer holds the newest elements in order, the oldest overwritten once full |
| RingBufferModule.RingBuffer.PeekOldest | src/main/java/com/leejean/tree/RingBuffer.java:62-72 | the element the next overwrite replaces is the oldest held |
| RingBufferModule.RingBuffer.Snapshot | src/main/java/com/leejean/tree/RingBuffer.java:76-82 | all elements held, each as often as held |
| RingBufferModule.PushLast | src/main/java/com/leejean/tree/RingBuffer.java:36-42 | overwriting keeps exactly the last capacity elements of the stream |
| LocalProcessor.LocalProcessorFunction.ProcessElement | src/main/java/com/leejean/flink/LocalProcessorFunction.java:236-316 | one data point is one step of the state machine, in state, scores and trees |
| LocalProcessor.LocalProcessorFunction.ReceiveForest | src/main/java/com/leejean/flink/LocalProcessorFunction.java:215-224 | a broadcast forest replaces the one in force and nothing else |
| LocalProcessor.LocalProcessorFunction.ReceiveRound | src/main/java/com/leejean/flink/LocalProcessorFunction.java:225-230 | a broadcast decision replaces the stored one and nothing else |
| LocalProcessor.LocalProcessorFunction.OnTimer | src/main/java/com/leejean/flink/LocalProcessorFunction.java:573-585 | a timer is one step of the state machine |
| LocalProcessor.LocalProcessorFunction.TrainIfReady | src/main/java/com/leejean/flink/LocalProcessorFunction.java:603-664 | the cold start: ring filled, then one tree per element up to the quota |
| LocalProcessor.LocalProcessorFunction.HandleCommitted | src/main/java/com/leejean/flink/LocalProcessorFunction.java:323-328 | a decision opens a COOLDOWN with its round, timer and, under d1a, an empty pool |
| LocalProcessor.LocalProcessorFunction.HandleCooldown | src/main/java/com/leejean/flink/LocalProcessorFunction.java:330-405 | one COOLDOWN sample: counted, collected, and the retraining condition tested |
| LocalProcessor.LocalProcessorFunction.RetrainAndEnterWaiting | src/main/java/com/leejean/flink/LocalProcessorFunction.java:463-530 | a full batch from the pool under the current round, then WAITING for a newer forest |
| LocalProcessor.LocalProcessorFunction.HandleWaiting | src/main/java/com/leejean/flink/LocalProcessorFunction.java:407-434 | a strictly newer forest ends the waiting and scores what was held back |
| LocalProcessor.LocalProcessorFunction.AbortCooldown | src/main/java/com/leejean/flink/LocalProcessorFunction.java:538-570 | COOLDOWN given up: the backlog is scored under the old forest, nothing is trained |
| LocalRuns.ExactlyOnceInOrder | src/main/java/com/leejean/flink/LocalProcessorFunction.java:236-316 | in every reachable state, in both pause modes, through aborts and re-entered COOLDOWNs, the emitted scores followed by the backlog are the arrivals in order; and the control invariant holds |
| LocalRuns.ControlNext | src/main/java/com/leejean/flink/LocalProcessorFunction.java:279-316 | every event keeps: a timer is set iff in COOLDOWN, a round is set iff in COOLDOWN or WAITING and is the last one opened |
| LocalRuns.OnlyLatestTimerAborts | src/main/java/com/leejean/flink/LocalProcessorFunction.java:573-585 | a timer changes anything exactly in COOLDOWN and at the expiry its latest entry set, and then leads to STABLE |
| LocalLaws.WaitingEnds | src/main/java/com/leejean/flink/LocalProcessorFunction.java:407-434 | WAITING is left only on an element: for a COOLDOWN if it consumes a COMMITTED, and otherwise to STABLE exactly when the forest in force is strictly newer than the one under which WAITING was entered |
| LocalLaws.LedgerAlways | src/main/java/com/leejean/flink/LocalProcessorFunction.java:330-378 | over every run, under either policy, the pool is the newest of the points written to it, the counters count the samples and the writes of the COOLDOWN, and the version waited for is the one in force when WAITING was entered |
| LocalLaws.ElementLaw | src/main/java/com/leejean/flink/LocalProcessorFunction.java:279-316 | under either policy an element that opens or finds a COOLDOWN ends it exactly when it is due, with a full batch for its round from the newest points of the pool, and sends nothing otherwise; where the sub-state goes in every case |
| LocalLaws.CooldownLaw | src/main/java/com/leejean/flink/LocalProcessorFunction.java:330-405 | one COOLDOWN sample: counted, written to the pool unless the legacy filter rejects it from the 50th on, and the retraining exactly when the samples and writes say so |
| LocalLaws.ScoresLaw | src/main/java/com/leejean/flink/LocalProcessorFunction.java:236-316 | exactly what an element scores, under which version and in which phase, and exactly what it leaves held back |
| LocalLaws.TimerLaw | src/main/java/com/leejean/flink/LocalProcessorFunction.java:538-585 | a COOLDOWN given up scores everything held back under the forest in force, trains and sends nothing; any other timer changes nothing |
| LocalRuns.PoolAlways | src/main/java/com/leejean/flink/LocalProcessorFunction.java:437-508 | under d1a the pool is at every moment of a COOLDOWN the last min(cN, ringBufferSize) points since its COMMITTED |
| LocalRuns.PoolElement | src/main/java/com/leejean/flink/LocalProcessorFunction.java:330-405 | an element retrains exactly when it brings the COOLDOWN to its target, with a full batch of its round on exactly those points |
| LocalRuns.CooldownCountsDown | src/main/java/com/leejean/flink/LocalProcessorFunction.java:391-404 | uninterrupted, the distance to the target min(2 cooldownSamples, max(ringBufferSize, cooldownSamples)), or min(2 cooldownSamples, ringBufferSize) with ringfull, falls by one per element, and WAITING is entered exactly at 0 |
| LocalRuns.WritesAlways | src/main/java/com/leejean/flink/LocalProcessorFunction.java:338-378 | in every reachable state the writes of a COOLDOWN are at most its samples and include the first 49, all of them under d1a |
| LocalStreams.StreamsNext | src/main/java/com/leejean/flink/LocalProcessorFunction.java:463-508 | with increasing round ids each round opens at most one COOLDOWN, and tree messages go up in (round, slot), all slots of a retraining round or none |
| LocalStreams.VersionsNext | src/main/java/com/leejean/flink/LocalProcessorFunction.java:213-231 | the forest version on the output never decreases |
| LocalPools.TrainStep | src/main/java/com/leejean/flink/LocalProcessorFunction.java:603-664 | in the cold start, from arrival ringBufferSize + 1 on, each element sends the next tree until the quota is met, trained on the newest ringBufferSize points |
| LocalPools.PoolsNext | src/main/java/com/leejean/flink/LocalProcessorFunction.java:323-508 | under d1a every event keeps: each tree sent in a retraining round was trained on the newest ringBufferSize of the first Target points from the one that consumed the COMMITTED of that round on, and each first tree on its cold-start points |
| CoordinatorModel.ReceiveMeaning | src/main/java/com/leejean/flink/CoordinatorFunction.java:74-169 | an emitted forest has exactly one tree per (subtask, slot) in order, of one round and of the sample size the forest carries, and the next version; otherwise the version stays |
| CoordinatorModel.FiresExactly | src/main/java/com/leejean/flink/CoordinatorFunction.java:74-152 | a message fires exactly when it is in range and the table with it is full, of one round and one sample size; the batch-end mark plays no part |
| CoordinatorModel.RoundsConfusedExactly | src/main/java/com/leejean/flink/CoordinatorFunction.java:132-142 | two round ids pass for one exactly when they agree in the low 32 bits |
| CoordinatorModel.RoundsWrap | src/main/java/com/leejean/flink/CoordinatorFunction.java:132-142 | two subtasks send round 0 and a forest is assembled; the second runs ahead, and exactly when its round is a multiple of 2^32 the next forest is assembled, of two different rounds |
| Coordinator.CoordinatorFunction.ProcessElement | src/main/java/com/leejean/flink/CoordinatorFunction.java:74-112 | one tree message is one step of the coordinator |
| Coordinator.CoordinatorFunction.FireForest | src/main/java/com/leejean/flink/CoordinatorFunction.java:114-169 | the slot loops and checks compute the assembly step |
| Protocol.DoKeepsInv | src/main/java/com/leejean/flink/CoordinatorFunction.java:74-169 | every action of the composed system (element, timer, onset, or a delivery from a topic) keeps the system invariant |
| Protocol.ForestsOfARun | src/main/java/com/leejean/flink/CoordinatorFunction.java:144-166 | over every run of P operators, aggregator and coordinator, forests have versions 1, 2, 3, ..., exactly one tree per (subtask, slot), and the sample size of each of them |
| Protocol.RoundsOfARun | src/main/java/com/leejean/flink/CoordinatorFunction.java:132-142 | below 2^32 rounds every forest is of one round, and rounds strictly increase from forest to forest |
| Protocol.ScoresOfARun | src/main/java/com/leejean/flink/LocalProcessorFunction.java:236-316 | over every run each operator scores its arrivals exactly once and in order, but for the backlog it holds, under emitted versions that never decrease |
| Protocol.TreesOfARun | src/main/java/com/leejean/flink/LocalProcessorFunction.java:463-508 | over every run each operator opens at most one COOLDOWN per round and sends all slots of a retraining round or none, in order |
| Protocol.LedgersOfARun | src/main/java/com/leejean/flink/LocalProcessorFunction.java:236-316 | over every run of the system every operator keeps what the laws of its steps rest on |
| ProtocolPools.DoKeepsPools | src/main/java/com/leejean/flink/LocalProcessorFunction.java:323-508 | every action of the composed system keeps the provenance of every tree, sent, stored or in a forest |
| ProtocolPools.PoolsOfARun | src/main/java/com/leejean/flink/LocalProcessorFunction.java:323-508 | over every run under d1a, each tree of each emitted forest was sent by its subtask and trained on exactly these points of that subtask: in round 0 the newest ringBufferSize at arrival ringBufferSize + 1 + slot, later the newest ringBufferSize of the first Target points of the COOLDOWN of its round |
| TreeBuilder.BuildRecursive | src/main/java/com/leejean/tree/ITreeBuilder.java:85-149 | appending to the shared node list leaves what was there and adds a subtree built for exactly the given rows, every node of which is a leaf or a split as the rows and the draws say; it can fail only on rows that lack a feature |
| SplitRules.NodesDecided | src/main/java/com/leejean/tree/ITreeBuilder.java:85-149 | with the rows whose walk passes it and its own depth, a node is a leaf exactly when they are at most one, it lies at the depth limit, its drawn feature is constant on them, or 0 was drawn; otherwise it is split at that feature, the drawn share into its range |
| SplitRules.Sides | src/main/java/com/leejean/tree/ITreeBuilder.java:113-133 | on a feature that varies the right side is never empty, and the left one exactly when 0 was drawn |
| SplitRules.DepthLimitMeaning | src/main/java/com/leejean/tree/ITreeBuilder.java:67-71 | the depth limit is the least number of levels, at least one, whose power of two reaches the sample size |
| TreeBuilder.BuiltAsDrawn | src/main/java/com/leejean/tree/ITreeBuilder.java:54-149 | what the rules make of a whole tree: every node of it, and every walk as long as its leaf lies deep |
| TreeBuilder.Partition | src/main/java/com/leejean/tree/ITreeBuilder.java:117-126 | every row goes to exactly one side, by its feature against the threshold, in order |
| TreeBuilder.FeatureRange | src/main/java/com/leejean/tree/ITreeBuilder.java:101-107 | the least and the largest value of the feature, or a failure exactly when some row does not have it |
| TreeBuilder.Subsample | src/main/java/com/leejean/tree/ITreeBuilder.java:188-210 | min(size, N) rows at distinct positions, for any random choices |
| TreeBuilder.ShuffleFirst | src/main/java/com/leejean/tree/ITreeBuilder.java:201-204 | the index array stays a permutation at every swap |
| TreeBuilder.Build | src/main/java/com/leejean/tree/ITreeBuilder.java:54-78 | an error for no data or no sample size, success when every row has the features of the first; whenever there is a tree, it is built by the draws, to the depth limit of its size, for a sample without replacement of min(size, N) rows |
| TreeBuilder.BuildFromPool | src/main/java/com/leejean/tree/ITreeBuilder.java:168-181 | the same through both sampling stages, success when all rows have the same features |
| TreeBuilder.PathLength | src/main/java/com/leejean/tree/Forest.java:70-86 | the walk ends within the depth limit and returns its depth plus the correction for the leaf it ends in |
| IsolationTree.BuildAndWalkAgree | src/main/java/com/leejean/tree/Forest.java:70-86 | in a built tree ids are positions, children come after their parents, sizes add up; each leaf size is the number of sample rows the walk brings there; leaf sizes sum to the sample size; at most 2n - 1 nodes; every walk ends in a leaf within the depth limit |
| IsolationTree.LeafSizes | src/main/java/com/leejean/tree/ITreeBuilder.java:85-149 | a leaf counts exactly the rows that walk to it |
| IsolationTree.TreeSize | src/main/java/com/leejean/tree/ITreeBuilder.java:85-149 | leaf sizes sum to the rows, and n rows give at most 2n - 1 nodes |
| IsolationTree.WalkStaysInside | src/main/java/com/leejean/tree/Forest.java:70-86 | a walk from a subtree ends in a leaf of that subtree within the remaining depth |
| SplitRules.WalkLevel | src/main/java/com/leejean/tree/Forest.java:70-86 | the edges a walk takes are the depth of the leaf it ends in |
| SearchAuc.SearchMeaning | analysis/exp2_distributed_accuracy.py:70-81 | the binary-search form is (pairs won + half the ties) / (positives x negatives), and nothing when a class is empty |
| RankAuc.ComputeAuc | analysis/analyze.py:83-116 | for any labels the computation in place yields the mid-rank formula, and on labels 0 and 1 the same as the binary-search form |
| RankAuc.FormsAgree | analysis/analyze.py:83-116 | the mid-rank formula equals the binary-search form on every 0/1-labelled input |
| RankAuc.RankFormulaMeaning | analysis/analyze.py:83-116 | on labels 0 and 1 the formula is the pair count over positives x negatives, and nothing when a class is missing |
| RankAuc.MeanRanks | analysis/analyze.py:103-112 | the rank array ends up holding, at each sample, the mean of the first and last rank of its score |
| RankAuc.RankSumMeaning | analysis/analyze.py:113-115 | the rank sum of the positives less P (P + 1) / 2 is the number of pairs won plus half the ties |
| Midranks.RankSumOfCopies | analysis/analyze.py:103-111 | the ranks of equal scores are consecutive, whatever their order among themselves |
| Midranks.ArgSortPermutes | analysis/analyze.py:103-105 | the argsort lists every position once |
| Midranks.ArgSortSorts | analysis/analyze.py:103-105 | and the scores in ascending order |
| PairCounting.AucComplement | analysis/analyze.py:83-116 | the area lies in [0, 1], and exchanging the classes complements it |
| FprThreshold.ThresholdMeaning | analysis/analyze.py:150-179 | the candidates are exactly the scores, ascending, and the threshold chosen is the lowest one whose false positive rate is nearest to the target among all of them: stopping at the first rate within the target loses nothing |
| FprThreshold.RatesMeaning | analysis/analyze.py:167-171 | the rates are the shares of negatives at or above and of positives below the threshold |

## Left out

- Kafka and Flink wiring, serialisation, checkpoints, CSV and JSON parsing, producers, dumpers, dashboards, plots.
- Floating-point rounding; the logarithms and square roots behind thresholds, c(n) and the final score 2^(-E[h]/c(n)):
  constants or functions. The depth limit is the exact logarithm rounded up.
- Probability: false-alarm rates, expected treap depth, score quality.
- Progress of the retraining protocol, which the code does not guarantee: a subtask that gives up its COOLDOWN sends no
  trees for that round, and the others wait for a later one. Duplicate delivery on a topic.
- Keyed state for more than one key per subtask, and restoring from a checkpoint.
- The legacy COOLDOWN filter's mean and deviation: its verdict from the 50th sample on is an arbitrary boolean.
- Scores themselves in the protocol: an emitted score is its point, forest version and phase; a trained tree is its
  pool (as a multiset) and sample size.
- The Kuiper statistic, p-value tables, the threshold by F1, and the other evaluation modes of the analysis scripts.
- The library calls of the analysis scripts (sorting, distinct values, binary search) are written out as functions.
- `warnTimedOut` of `HDDM_A` and `HDDM_A_Windowed`, which repeats the one of `HDDM_W`.
