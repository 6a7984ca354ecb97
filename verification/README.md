# SolProbe: verified models

SolProbe watches distributed training runs: sidecars and training callbacks deliver telemetry, a backend keeps it in
bounded stores, detectors and user-defined policies raise alerts, an agent diagnoses them with a language model, and
three on-chain programs escrow payments, hold stakes and keep reputations. This project models the algorithms and state
machines underneath in Dafny and proves what they promise.

The project has one module per file. Stores, dedup maps, callbacks and programs that the original updates in place are classes whose
methods follow the original's branches; a ghost history (everything ingested, registered, checked, logged) ties each
bounded or pruned form to the simple unbounded one, and the whole-run theorems are lemmas about that history.
`dafny verify dfyconfig.toml` checks everything.

## Main results

- **Bounded telemetry.** Ring buffers, windows, LRU eviction, dedup eviction and index pruning are invisible: each
  bounded form gives the answer of the unbounded history. The conditions this takes, 1799 seconds for policies and a
  clock that goes back at most one cooldown after a sweep for dedup maps, are proved to be exact.
- **Alerting.** An evaluation reports exactly the violations that are not in cooldown when it starts, and a violation
  is what the operator says, held over a suffix of the samples. A detector reports what a node shows unless it reported
  the same node shortly before, whatever other nodes show. Policy triggers of one key are separated by a positive
  cooldown over every run, whatever the clock does; detector alerts are under the clock condition above. Detector
  verdicts mean what they should: least squares is least, medians follow the majority, a stall is a stale step.
- **Diagnosis.** Which answer every call gets is said kind of alert by kind of alert and outcome by outcome. Every
  reused diagnosis goes back to a parsed response of the model with the same fingerprint, high
  confidence and young enough, over every run; calls to the model are bounded in every interval without a reset.
- **Money.** Lamports are conserved, vaults cover what they owe, nobody is paid twice, a job can always be wound down,
  a full slash is final, withdrawals wait.
- **Records.** The Rust reader undoes the Python writer byte by byte.

## Where the code falls short of its description

- A policy lasting longer than 1799 seconds misses violations that the whole history shows: the ring holds 1800 samples
  (`PolicyConditions.WindowLimit` is an equivalence). The z-score detector's sixty-minute window is a thirty-minute one.
- The three-sigma check across workers cannot flag anybody in a cluster of up to ten nodes; eleven is the first size at
  which it can.
- A node's very first diagnosis request is refused while the monotonic clock itself is below the cooldown, because an
  unknown node counts as served at time zero.
- The newest-first cache scan stops at the first stale entry, so it misses a usable match exactly when an older one was
  stored after it, as overlapping calls or a clock going back can cause (`DiagnosisAgent.ClockGoingBack`).
- Policies with a zero cooldown have no minimal distance between triggers.
- The detectors read the wall clock. When it is set back by more than one cooldown after a sweep, an alert can follow
  another of its key early (`Dedup.ClockLimit`).
- `close()` on the training callback, unlike `on_train_end()`, leaves the last record readable; and `on_train_end()`
  after `close()` no longer invalidates it (`RecordCodec.ClosedRecordStaysReadable`). The DiLoCo callback invalidates on
  `close()`.
- When a DiLoCo step does not fit 64 bits, the callback raises after changing its remembered fields, and readers go on
  seeing an older record until the newest steps fit again (`RecordCodec.ShownIsCurrentIff`).
- The readers' staleness check wraps for timestamps at least 2^63 ms old, which then count as fresh (release builds).
- `slash_percentage` of the staking program is checked and stored but never used.

## Model

| member | source | states |
|---|---|---|
| `MetricsStore.Store.IngestBatch` | backend/app/stores.py:79-116 | a batch goes to the node of its first GPU, without GPUs to that of its training record, else of its DiLoCo record: that node's histories end with the batch's GPU list and records, each cut to 1800 entries, its last-seen time becomes the latest of the old one and the batch's timestamps, and every other buffer stays; so after any sequence of batches every buffer holds exactly the newest 1800 entries of everything its node ever sent |
| `MetricsStore.Store.GetTrainingHistory` | backend/app/stores.py:183-190 | the answer is the tail of the node's unbounded history, cut by the ring and by the window |
| `MetricsStore.Store.GetDiLoCoHistory` | backend/app/stores.py:192-199 | the same for DiLoCo records |
| `MetricsStore.Store.GetGpuHistory` | backend/app/stores.py:157-181 | the same for GPU snapshots, none of which is empty, thinned to every k-th from the oldest at a resolution of k > 1 seconds |
| `Prelude.EveryNthAt` | backend/app/stores.py:179-180 | which snapshots down-sampling keeps: those at multiples of the resolution, all of them |
| `MetricsStore.Store.LastSeen` | backend/app/stores.py:123-137 | the newest timestamp the node ever sent, over its whole history, or nothing for an unknown node |
| `TrailingRuns.RunStartLeast` | backend/app/detectors/policy_evaluator.py:129-134 | the backward scan finds the longest trailing run: every passing suffix lies inside it |
| `TrailingRuns.RunOfLastN` | backend/app/detectors/policy_evaluator.py:218-222 | truncation caps the length of a trailing run and does nothing else to it |
| `PolicyConditions.SustainedViolation` | backend/app/detectors/policy_evaluator.py:110-139 | for each threshold operator written out (> t, >= t, < t, <= t, and > t or < -t): duration and start are those of the longest suffix on which every value is present and passes, and with nondecreasing timestamps the policy is violated iff some such suffix spans the required seconds |
| `PolicyConditions.StaleSince` | backend/app/detectors/policy_evaluator.py:142-165 | the same for values equal to the last one |
| `PolicyConditions.SustainedVerdictMeaning` | backend/app/detectors/policy_evaluator.py:116-121 | with nondecreasing timestamps, violated iff some all-violating suffix spans the required seconds |
| `PolicyConditions.StaleVerdictMeaning` | backend/app/detectors/policy_evaluator.py:146-149 | with nondecreasing timestamps, stale iff some suffix of the last value spans the required seconds |
| `PolicyConditions.VerdictIff` | backend/app/detectors/policy_evaluator.py:94-165 | the verdict all results are about, operator by operator: with nondecreasing timestamps it holds iff over some nonempty suffix of the required span every value is present and on the operator's side of the threshold, or equal to the last |
| `PolicyConditions.WindowMinutes` | backend/app/detectors/policy_evaluator.py:217-218 | five minutes, or if more the whole minutes of the duration plus two; so it exceeds the duration by at least a minute |
| `PolicyConditions.TruncatedVerdict` | backend/app/detectors/policy_evaluator.py:218-238 | with samples a second apart, keeping n samples keeps every verdict for durations up to n - 1 seconds |
| `PolicyConditions.WindowKeepsVerdict` | backend/app/detectors/policy_evaluator.py:217-238 | up to 1799 seconds the verdict on the ring-buffered, truncated series is the verdict on the entire history, for every operator |
| `PolicyConditions.LongerDurationsAreMissed` | backend/app/stores.py:28-29 | beyond 1799 seconds there is, for every operator and threshold that anything violates, a history whose violation the evaluator misses |
| `PolicyConditions.WindowLimit` | backend/app/detectors/policy_evaluator.py:217-238 | durations up to 1799 seconds are exactly those for which truncation never changes a verdict |
| `PolicyConditions.TrainingReader` | backend/app/detectors/policy_evaluator.py:46-55 | one sample for every record the window lets through, in order: the record's timestamp, field and job |
| `PolicyConditions.DiLoCoReader` | backend/app/detectors/policy_evaluator.py:58-67 | the same for DiLoCo records |
| `PolicyConditions.GpuReader` | backend/app/detectors/policy_evaluator.py:30-43 | one sample for every snapshot the window lets through, in order: its newest timestamp, no job, and the field's sum over the GPUs divided by their number, missing iff some GPU lacks the field |
| `PolicyConditions.WindowedReading` | backend/app/detectors/policy_evaluator.py:217-238 | ring buffer, window and reader together: the verdict on what they let through is the verdict on everything |
| `CustomMetrics.Store.Add` | backend/app/stores.py:568-575 | each (name, job) buffer is the newest part of that key's history; the keys are those ever seen |
| `CustomMetrics.CandidatesAreTheMatches` | backend/app/stores.py:586-599 | every retained sample that matches is collected exactly as often as it is retained, and no other |
| `CustomMetrics.CandidatesAreTheRecentMatches` | backend/app/stores.py:551-599 | in terms of the whole history: a sample counts as often as it occurs among the newest ever added with its name and its job if it has the name, job and node asked for, and not at all otherwise |
| `CustomMetrics.Store.RunQuery` | backend/app/stores.py:577-601 | collects buffer by buffer and returns the stable newest-first sort cut to the limit; every sample returned was added and has the name, job and node asked for |
| `CustomMetrics.QueryReturnsTheNewest` | backend/app/stores.py:585-601 | a query is newest first, a sub-multiset of the matches, as long as the limit allows, and nothing left out is newer than anything returned |
| `CustomMetrics.SortStable` | backend/app/stores.py:600-600 | samples with equal timestamps keep their collection order although the sort is reversed |
| `CustomMetrics.Store.CustomReader` | backend/app/detectors/policy_evaluator.py:70-83 | returns time, value and job of the newest samples of one metric on one node, oldest first |
| `CustomMetrics.ReadingIsChronological` | backend/app/detectors/policy_evaluator.py:73-83 | the reader's series never goes back in time and ends with the maximum timestamp of all candidates |
| `PolicyEvaluator.PolicyStore.Create` | backend/app/stores.py:458-470 | refuses a known id and changes nothing; otherwise appends the stamped policy and leaves cooldowns alone |
| `PolicyEvaluator.PolicyStore.Update` | backend/app/stores.py:472-482 | each field of the policy is the patch's if given and unchanged otherwise, the update time is now; other policies and cooldowns stay |
| `PolicyEvaluator.PolicyStore.Toggle` | backend/app/stores.py:484-491 | flips one policy; cooldowns stay |
| `PolicyEvaluator.PolicyStore.Delete` | backend/app/stores.py:493-501 | removes one policy and exactly its cooldowns, keeping the order of the rest |
| `PolicyEvaluator.PolicyStore.ListEnabled` | backend/app/stores.py:512-514 | the enabled policies in insertion order |
| `PolicyEvaluator.PolicyStore.MarkTriggered` | backend/app/stores.py:533-545 | records any trigger, stamping the policy if it is stored; when it is and the key is not in cooldown, the log of triggers stays spaced and every cooldown key names an existing policy |
| `PolicyEvaluator.ConsecutiveTriggersAreSpaced` | backend/app/detectors/policy_evaluator.py:243-252 | two consecutive triggers of a (policy, node, job) key with no deletion between them are at least the cooldown in force at the later one apart, whatever the clock does |
| `PolicyEvaluator.JudgeNode` | backend/app/detectors/policy_evaluator.py:221-251 | judging one node does what the specification of a trigger says, for scoped and unscoped policies and all early exits |
| `PolicyEvaluator.Sources.Read` | backend/app/detectors/policy_evaluator.py:86-91 | reading by source goes to the reader of that source, on the stores |
| `PolicyEvaluator.EvaluateOne` | backend/app/detectors/policy_evaluator.py:194-288 | the loop over candidate nodes changes store and findings as the sequential specification does, which NodesReport gives its meaning |
| `PolicyEvaluator.NodesReport` | backend/app/detectors/policy_evaluator.py:221-252 | over distinct nodes, the sequential evaluation of a policy reports exactly what is due at its start, in node order, and touches no other keys |
| `PolicyEvaluator.PoliciesReport` | backend/app/detectors/policy_evaluator.py:185-191 | over all enabled policies: a cooldown set on the way never suppresses anything in the same evaluation |
| `PolicyEvaluator.ReportedIff` | backend/app/detectors/policy_evaluator.py:221-252 | an entry about a policy and a node is reported iff the policy is enabled, the node is the one it names or, if it names none, a known one, its samples violate the condition, the entry carries the time, the cooldown and the policy's job or the last sample's, and the last trigger of its key is absent, not bound by a cooldown, or at least the cooldown in milliseconds old |
| `PolicyEvaluator.ViolatedIff` | backend/app/detectors/policy_evaluator.py:221-241 | with nondecreasing timestamps a policy is violated on a node iff the condition, operator by operator, held for the required time over a suffix of the samples of the policy's job, or of all samples if it names none |
| `PolicyEvaluator.RunPolicyEvaluation` | backend/app/detectors/policy_evaluator.py:180-191 | one atomic evaluation on the stores reports about every policy and node exactly what ReportedIff says, and in order what is due at its start; it keeps the policy store valid, so that spacing and key ownership hold over every interleaving with the other operations |
| `PolicyEvaluator.ViolationIsTheHistorys` | backend/app/detectors/policy_evaluator.py:217-241 | end to end from the stores: an unscoped policy up to 1799 seconds on GPU, training or DiLoCo telemetry is violated iff its condition, operator by operator, held for the required time at the end of everything the node ever sent |
| `JobStore.RecencyMembers` | backend/app/stores.py:315-346 | the specification order contains exactly the ids ever registered |
| `JobStore.RecencyDistinct` | backend/app/stores.py:315-346 | each of them once |
| `JobStore.RecencyOrder` | backend/app/stores.py:325-327 | in the order of last registration |
| `JobStore.BoundedRecencyStep` | backend/app/stores.py:344-346 | bounding after every registration keeps what bounding once at the end keeps |
| `JobStore.RegisterOrder` | backend/app/stores.py:323-346 | registering a held job only moves it; registering an unknown one appends it and evicts the least recently registered |
| `JobStore.Store.Register` | backend/app/stores.py:315-346 | the store holds the max_size most recently registered distinct ids in order of last registration; held jobs keep status and creation time, also across re-registration |
| `JobStore.Store.EvictOldest` | backend/app/stores.py:344-346 | the eviction loop keeps the newest entries of the order and their records unchanged |
| `JobStore.Store.UpdateStatus` | backend/app/stores.py:348-356 | anything but the four status names is an error that changes nothing; otherwise a held job gets the status of that name and the update time, and nothing else changes |
| `JobStore.Store.Touch` | backend/app/stores.py:358-363 | only the update time of a held job changes |
| `JobStore.Store.MarkProgress` | backend/app/stores.py:63-77 | telemetry starts a registered job and only touches one past that state |
| `Dedup.EvictionIsInvisible` | backend/app/detectors/training_stalled.py:196-199 | as long as no check reads the clock more than one cooldown before an earlier sweep, evicting entries older than two cooldowns yields exactly the alert sequence of a map that never evicts |
| `Dedup.AlertsAreSpaced` | backend/app/detectors/training_stalled.py:135-138 | over every run with that condition on the clock, any two alerts of one key are at least a cooldown apart |
| `Dedup.FiresIffQuiet` | backend/app/detectors/training_stalled.py:172-176 | under the same condition, a check alerts iff no alert of its key, evicted or not, is less than a cooldown old |
| `Dedup.ClockGoingBack` | backend/app/detectors/training_stalled.py:115-199 | for every distance beyond one cooldown, a run of three events whose clock goes back by just that and in which both the equality and the spacing fail |
| `Dedup.ClockLimit` | backend/app/detectors/training_stalled.py:115-199 | one cooldown is exactly how far the clock may go back between a sweep and a later check: an equivalence for the alerts being those without eviction, and one for their being spaced |
| `Dedup.Deduper.AlertsSoFar` | backend/app/detectors/training_stalled.py:28-29 | the same of the alerts let through so far, in every reachable state of a dedup map |
| `Dedup.AcceptedAreTheAlerts` | backend/app/detectors/loss_plateau.py:86-90 | what one detector run reports is what it adds to the alerts of the whole run |
| `Dedup.AcceptedForKey` | backend/app/detectors/zscore.py:122-130 | an alert of a key is let through by a run iff one is offered at a clock reading at which no alert of just that key, remembered before the run, is younger than a cooldown |
| `Dedup.AcceptedIffQuiet` | backend/app/detectors/training_stalled.py:133-177 | with one clock reading a candidate is let through iff its own key is quiet before the run, whatever else is offered |
| `Dedup.RunRemembers` | backend/app/detectors/training_stalled.py:133-199 | the map after such a run: the keys let through at the time of the run, and of the others those at most two cooldowns old |
| `Dedup.Deduper.TryAlert` | backend/app/detectors/training_stalled.py:135-138 | the map in place is the map of the event history; it fires and records exactly when the key is quiet |
| `Dedup.Deduper.SweepStale` | backend/app/detectors/throughput_regression.py:109-111 | the eviction loop is the sweep of the event history and raises nothing |
| `TrainingStalled.TrailingSameStepWindow` | backend/app/detectors/training_stalled.py:47-58 | the reversed scan returns the longest suffix sharing the latest step |
| `TrainingStalled.Classify` | backend/app/detectors/training_stalled.py:122-170 | the branches agree with the stall specification, including every early exit |
| `TrainingStalled.Examine` | backend/app/detectors/training_stalled.py:118-170 | the same read from the store: from the node's windowed history and its newest timestamp |
| `TrainingStalled.StallIsStaleness` | backend/app/detectors/training_stalled.py:129-170 | no stall without a running job; hung iff the node has been heard of for 30 s and is silent for 60 s; else stalled iff three trailing samples agree and the step series is stale for 60 s in the policy engine's sense, critical iff for 300 s; node, step, job, seconds and number of samples are the history's |
| `TrainingStalled.StepSpanIsStaleDuration` | backend/app/detectors/training_stalled.py:161-168 | the detector's trailing span equals the stale_for duration of the step series |
| `TrainingStalled.WindowKeepsStall` | backend/app/detectors/training_stalled.py:119-120 | with samples a second apart, the fifteen-minute window never changes whether a stall is reported, its kind or its severity |
| `TrainingStalled.RunDetection` | backend/app/detectors/training_stalled.py:112-201 | a stall is reported iff its node is listed, shows it, and has no remembered alert of that very node, step and kind younger than 60 s, whatever other nodes show; the map then holds the reported keys at the time of the run and of the others those at most 120 s old; findings are in node order |
| `RealSums.Samuelson` | backend/app/detectors/diloco.py:123-132 | no value lies further than sqrt(n - 1) population standard deviations from the mean |
| `RealSums.Chebyshev` | backend/app/detectors/loss_plateau.py:34-41 | a rising and a falling series have a non-positive covariance |
| `DiLoCoDetector.FlaggedIsZScore` | backend/app/detectors/diloco.py:123-132 | the squared comparison is the program's: a node is flagged iff the standard deviation is at least 1e-9 and its |z| exceeds 3 |
| `DiLoCoDetector.SmallClustersAreNeverFlagged` | backend/app/detectors/diloco.py:123-132 | with at most ten nodes no norms whatsoever get a node flagged |
| `DiLoCoDetector.LargerClustersCanBeFlagged` | backend/app/detectors/diloco.py:123-132 | ten is sharp: in every larger cluster some norms get a node flagged |
| `DiLoCoDetector.FewAreFlagged` | backend/app/detectors/diloco.py:130-132 | fewer than a ninth of the nodes are ever flagged |
| `DiLoCoDetector.DetectPseudoGradDivergence` | backend/app/detectors/diloco.py:101-167 | the loops flag exactly the outliers among the nodes that have a positive norm in the window, in order |
| `DiLoCoDetector.OtherNormsDoNotCount` | backend/app/detectors/diloco.py:116-116 | a record without a positive norm does not change a node's norm, wherever it is |
| `DiLoCoDetector.PositiveNorms` | backend/app/detectors/diloco.py:115-118 | of records with positive norms the newest thirty are averaged; a node without any has no norm |
| `DiLoCoDetector.DetectInnerOuterDivergence` | backend/app/detectors/diloco.py:33-64 | on the thirty minutes of records the store shows: reports iff, among the last records of the newest four outer steps, innerLoss falls and outerLoss rises between each two neighbours |
| `DiLoCoDetector.LastFourDecide` | backend/app/detectors/diloco.py:48-64 | with increasing outer steps: reports iff there are four records and innerLoss falls and outerLoss rises between each two neighbours of the last four |
| `DiLoCoDetector.DivergingIff` | backend/app/detectors/diloco.py:43-64 | grouping by step, sorting and counting come to that statement about the records, for every history |
| `DiLoCoDetector.RecentStepsAreNewest` | backend/app/detectors/diloco.py:48-53 | every outer step not looked at is older than all that are |
| `DiLoCoDetector.LatestRecordWins` | backend/app/detectors/diloco.py:43-46 | the losses compared for a step are those of its last record |
| `DiLoCoDetector.OuterStepTracker.Observe` | backend/app/detectors/diloco.py:235-247 | over all runs, the per-node checks run iff the outer step exceeds the one seen by the run before (-1 before the first); a restart resumes them |
| `LeastSquares.IntegerSpread` | backend/app/detectors/loss_plateau.py:38-40 | for integer steps that differ at all the degenerate guard never triggers |
| `LeastSquares.SlopeSolves` | backend/app/detectors/loss_plateau.py:34-41 | the returned slope solves the normal equation, also when the guard returns zero |
| `LeastSquares.SlopeIsLeastSquares` | backend/app/detectors/loss_plateau.py:34-41 | no line has a smaller sum of squared residuals than the one with the returned slope through the means |
| `LeastSquares.SlopeAtMost` | backend/app/detectors/loss_plateau.py:34-41 | if no increment exceeds a rate per step, the slope does not either |
| `LeastSquares.SlopeAtLeast` | backend/app/detectors/loss_plateau.py:34-41 | the mirrored bound |
| `LossPlateau.FallingLossIsNoPlateau` | backend/app/detectors/loss_plateau.py:62-69 | a loss falling by at least 1e-4 per step has a slope of at most -1e-4 and raises no alert |
| `LossPlateau.RisingLossIsNoPlateau` | backend/app/detectors/loss_plateau.py:62-69 | nor does one rising by that much |
| `LossPlateau.FlatLossIsReported` | backend/app/detectors/loss_plateau.py:56-84 | a loss moving by less than 1e-4 per step, after warm-up and at full throughput, is always reported |
| `LossPlateau.SlowWindowIsNoPlateau` | backend/app/detectors/loss_plateau.py:71-84 | a window most of whose samples are slower than the baseline median is not called a plateau |
| `LossPlateau.WindowKeepsPlateau` | backend/app/detectors/loss_plateau.py:50-53 | fetching six minutes gives the verdict of the whole history |
| `LossPlateau.PlateauIff` | backend/app/detectors/loss_plateau.py:54-84 | reported iff there are 50 samples, the newest step is past 20, the slope of the last 50 losses over their steps is within 1e-4 of zero, and their median throughput is positive and not below the median of up to 200 samples before them; the report carries slope and medians |
| `LossPlateau.Examine` | backend/app/detectors/loss_plateau.py:54-84 | the sequence of gates agrees with the plateau specification |
| `LossPlateau.RunDetection` | backend/app/detectors/loss_plateau.py:44-139 | a plateau is reported iff its node is listed, shows it, and has no remembered alert of that very node younger than 300 s, whatever other nodes show; the map is updated accordingly |
| `Median.MedianPermutation` | backend/app/detectors/throughput_regression.py:48-52 | the median does not depend on the order of the samples |
| `Median.MedianOfSorted` | backend/app/detectors/throughput_regression.py:51-52 | for samples in order it is the middle one, or the mean of the middle two |
| `Median.MajorityDecides` | backend/app/detectors/throughput_regression.py:51-52 | a strict majority on one side of a bound puts the median on that side |
| `ThroughputRegression.HealthyMajority` | backend/app/detectors/throughput_regression.py:54-57 | a strict majority of recent samples at or above 0.7 of the baseline median means no report |
| `ThroughputRegression.DegradedMajority` | backend/app/detectors/throughput_regression.py:54-65 | a strict majority below it, for a positive baseline, means a report with a ratio below 0.7 |
| `ThroughputRegression.SampleOrderIsIrrelevant` | backend/app/detectors/throughput_regression.py:45-57 | permuting samples within the recent and the baseline slice changes nothing |
| `ThroughputRegression.WindowKeepsRegression` | backend/app/detectors/throughput_regression.py:37-43 | fetching five minutes gives the verdict of the whole history |
| `ThroughputRegression.RegressionIff` | backend/app/detectors/throughput_regression.py:41-65 | reported iff there are 230 samples, the median throughput of the 200 before the last 30 is positive, and that of the last 30 is below 0.7 of it; the report carries both medians and their quotient |
| `ThroughputRegression.Examine` | backend/app/detectors/throughput_regression.py:41-57 | the gates agree with the regression specification |
| `ThroughputRegression.RunDetection` | backend/app/detectors/throughput_regression.py:32-113 | a regression is reported iff its node is listed, shows it, and has no remembered alert of that very node younger than 120 s, whatever other nodes show; the map is updated accordingly |
| `ZScore.FlaggedIsZScore` | backend/app/detectors/zscore.py:49-62 | the squared comparison is the program's: enough values, a standard deviation of at least 1e-9, and |z| > 3 for the last value against those before it |
| `ZScore.UnitsDoNotMatter` | backend/app/detectors/zscore.py:49-62 | the verdict is invariant under every change of unit and origin of the metric that leaves the spread measurable |
| `ZScore.SeriesOfField` | backend/app/stores.py:201-218 | which values are judged: loss, gradient norm or throughput of every windowed record, or the mean temperature of every windowed snapshot, where an absent temperature counts as zero |
| `ZScore.EnumerateTargets` | backend/app/detectors/zscore.py:110-140 | the nested loops visit every combination of node, window and field exactly once, twelve a node, each at the position its node, window and field determine |
| `ZScore.RunDetection` | backend/app/detectors/zscore.py:101-166 | every finding is an outlier of a listed node in a window of 5, 15 or 60 minutes; a node and field with an outlier in some window is reported if no remembered alert of just that node and field is younger than 60 s at any clock reading, and is not if one is at all of them, whatever other nodes and fields show; findings are in visiting order |
| `RateLimiter.Limiter.TryAcquire` | backend/app/diagnosis/rate_limiter.py:22-30 | grants iff the cooldown has passed since the node's remembered grant, or for a node without one since time zero, and records just that; over every run the limiter remembers exactly the last grant since the last reset of the node |
| `RateLimiter.Limiter.Reset` | backend/app/diagnosis/rate_limiter.py:32-35 | forgets one node |
| `RateLimiter.Limiter.ResetAll` | backend/app/diagnosis/rate_limiter.py:37-40 | forgets all nodes |
| `RateLimiter.SegmentSpaced` | backend/app/diagnosis/rate_limiter.py:22-40 | in any stretch of a run without a reset of a node its grants are a cooldown apart, whatever was reset before |
| `RateLimiter.GrantsInInterval` | backend/app/diagnosis/rate_limiter.py:22-40 | in such a stretch at most floor(T / cooldown) + 1 grants of the node fall into any interval of length T |
| `RateLimiter.WholeCooldowns` | backend/app/diagnosis/rate_limiter.py:22-30 | that bound is one more than the whole cooldowns in the interval |
| `DiagnosisStore.LookupIsSound` | backend/app/diagnosis/store.py:82-106 | whatever the order of timestamps, a result passes every filter |
| `DiagnosisStore.LookupFindsNewestMatch` | backend/app/diagnosis/store.py:97-106 | the early exit returns the newest match iff nothing older than the cutoff was stored after it, and otherwise nothing |
| `DiagnosisStore.StaleEntryHidesMatch` | backend/app/diagnosis/store.py:97-99 | the failing input: any usable fresh entry followed by one older than the cutoff is the newest match and is not found |
| `DiagnosisStore.LookupIsExact` | backend/app/diagnosis/store.py:88-106 | with nondecreasing timestamps the result is the newest match, and nothing iff there is none |
| `DiagnosisStore.Store.Add` | backend/app/diagnosis/store.py:27-29 | the deque holds the newest diagnoses; the pruned index still agrees with the full one |
| `DiagnosisStore.Store.FindCachedMatch` | backend/app/diagnosis/store.py:82-106 | the loop's answer is the one the never-pruned index would give |
| `DiagnosisStore.Store.IndexFingerprint` | backend/app/diagnosis/store.py:108-116 | pruning keeps exactly the live ids plus the new one, at most max_size + 1, and no later lookup notices |
| `DiagnosisStore.SameLookup` | backend/app/diagnosis/store.py:97-106 | a lookup depends on the index only through the ids still in the deque |
| `DiagnosisAgent.ParseResponse` | backend/app/diagnosis/agent.py:241-329 | the first submitted block decides; missing fields give a failed result, out-of-range values raise, the rest is completed |
| `DiagnosisAgent.ModelAnswer` | backend/app/diagnosis/agent.py:241-329 | which responses are accepted: the first submission is taken as it is iff it has all fields, its urgency is immediate, soon or monitor and its confidence between 0 and 1; with all fields but other values the call raises; without a submission or with a field missing it fails with confidence 0 |
| `DiagnosisAgent.LocalAnswer` | backend/app/diagnosis/agent.py:331-561 | which alerts are diagnosed without the model: cause and confidence of each kind, and a failure for unknown kinds only |
| `DiagnosisAgent.Agent.Diagnose` | backend/app/diagnosis/agent.py:56-239 | a hit copies cause and confidence of the found diagnosis; a call is refused iff it missed, does not bypass and the node's last grant is younger than the cooldown; a refused call, and one whose model did not respond, is completed locally for every kind of alert but unknown ones, with cause and confidence kind by kind, and for unknown ones is rate-limited or failed with confidence 0; without client or context it fails; otherwise the model's answer decides. All results are the call's own; provenance and permits are kept for the whole run, hits take no permit, only parsed responses are indexed |
| `DiagnosisAgent.Agent.LookupIsExact` | backend/app/diagnosis/store.py:97-106 | over every run whose result clock does not go back, a lookup succeeds iff the deque holds a usable match within the TTL |
| `DiagnosisAgent.Agent.Reuse` | backend/app/diagnosis/agent.py:83-106 | what a hit stores names its source and is justified by it |
| `DiagnosisAgent.Agent.Attempt` | backend/app/diagnosis/agent.py:120-231 | the phases after the permit, in order: client, context, LLM outcome, parsing |
| `DiagnosisAgent.Agent.CallLlm` | backend/app/diagnosis/agent.py:120-239 | stores what the phases come to, and indexes it only if a response completed it |
| `DiagnosisAgent.Agent.ResetNode` | backend/app/diagnosis/rate_limiter.py:32-35 | a reset of one node joins the run; the limiter forgets just that node |
| `DiagnosisAgent.Agent.ResetLimiter` | backend/app/diagnosis/rate_limiter.py:37-40 | a reset of all nodes joins the run |
| `DiagnosisAgent.ClockGoingBack` | backend/app/diagnosis/agent.py:77-106 | two calls between which the clock goes back reach a state in which a lookup misses a usable diagnosis |
| `DiagnosisAgent.SourceOfMatch` | backend/app/diagnosis/agent.py:77-106 | a held diagnosis found under a fingerprint is the result of the very call whose parsed response indexed it under that fingerprint |
| `DiagnosisAgent.RecordKeeps` | backend/app/diagnosis/agent.py:77-106 | over every run, each cached result goes back to an earlier call that was completed by a parsed response (not a fallback, not a copy), with the same fingerprint parts, confidence at least 0.7, at most 300000 ms old at lookup |
| `DiagnosisAgent.CallsAreGrants` | backend/app/diagnosis/agent.py:109-109 | every LLM call that does not bypass the limiter took a permit |
| `DiagnosisAgent.LlmCallsAreBounded` | backend/app/diagnosis/agent.py:108-169 | over every run, in any stretch without a reset of the node and any interval of length T, the node causes at most floor(T / cooldown) + 1 LLM calls that do not bypass the limiter |
| `DiagnosisAgent.LlmCallsInTime` | backend/app/diagnosis/agent.py:108-169 | the same in terms of time alone: the interval holds no reset of the node, and the clock is monotonic |
| `DiagnosisAgent.Agent.CallsPerInterval` | backend/app/diagnosis/agent.py:108-169 | the bound in every reachable state of an agent |
| `Ledger.TransferConserves` | solana/programs/solprobe-escrow/src/lib.rs:31-40 | a transfer creates and destroys no lamports |
| `Escrow.SettleOne` | solana/programs/solprobe-escrow/src/lib.rs:80-87 | settling an entry moves exactly its allocation from the unsettled to the settled side |
| `Escrow.AllReleasedIffCount` | solana/programs/solprobe-escrow/src/lib.rs:175-176 | all workers are settled iff as many settlements as workers have happened, and then nothing is owed |
| `Escrow.SettlementFits` | solana/programs/solprobe-escrow/src/lib.rs:84-87 | the checked addition never fails and the vault always covers the payment |
| `Escrow.SettlementKeeps` | solana/programs/solprobe-escrow/src/lib.rs:68-169 | a release or a slash keeps: released = sum settled <= budget, vault covers the unsettled, each key is paid at most once even if listed twice |
| `Escrow.OtherJobKeeps` | solana/programs/solprobe-escrow/src/lib.rs:68-209 | operations on other jobs and deposits from outside do not disturb a job |
| `Escrow.Program.CreateJob` | solana/programs/solprobe-escrow/src/lib.rs:15-66 | succeeds iff all checks, the multiplication and the funds allow it; moves the budget into the vault; conserves lamports; an error changes nothing |
| `Escrow.Program.ReleasePayment` | solana/programs/solprobe-escrow/src/lib.rs:68-114 | pays the first entry listed for the worker; fails only for the stated reasons, never in the addition or the transfer |
| `Escrow.Program.SlashPayment` | solana/programs/solprobe-escrow/src/lib.rs:117-169 | returns the chosen unsettled allocation to the creator; fails only for the stated reasons |
| `Escrow.Program.SettleEntry` | solana/programs/solprobe-escrow/src/lib.rs:80-106 | what release and slash share keeps the invariants of all jobs and conserves lamports |
| `Escrow.Program.CloseJob` | solana/programs/solprobe-escrow/src/lib.rs:171-209 | succeeds iff exactly |workers| settlements have happened; empties the vault to the creator |
| `Escrow.Program.WindDown` | solana/programs/solprobe-escrow/src/lib.rs:68-209 | from every reachable state of an active job its creator can settle the rest and close, with the whole budget accounted for |
| `Staking.WithdrawalsWait` | solana/programs/solprobe-staking/src/lib.rs:133-137 | over every run, a withdrawal comes no earlier than the last stake or slash plus the cooldown then in force |
| `Staking.FullSlashIsFinal` | solana/programs/solprobe-staking/src/lib.rs:117-120 | after a full slash no operation on that worker ever succeeds again |
| `Staking.FlowsApart` | solana/programs/solprobe-staking/src/lib.rs:45-165 | what a worker has deposited comes from stakes only, what it got back from withdrawals only, what it lost from slashes only |
| `Staking.StakeKeeps` | solana/programs/solprobe-staking/src/lib.rs:53-61 | opening an account is legal after the run and keeps deposits = returned + slashed + staked, the vault and the lock of its worker right |
| `Staking.SlashKeeps` | solana/programs/solprobe-staking/src/lib.rs:85-120 | so does slashing an active one, which is deactivated exactly when nothing is left |
| `Staking.Program.InitializeConfig` | solana/programs/solprobe-staking/src/lib.rs:12-33 | creates the configuration once; the exact errors in order |
| `Staking.Program.UpdateConfig` | solana/programs/solprobe-staking/src/lib.rs:171-193 | only the admin changes it; existing locks stay |
| `Staking.Program.Stake` | solana/programs/solprobe-staking/src/lib.rs:35-69 | opens an account only where none exists, active or slashed out; deposits = returned + slashed + staked for every worker; conserves lamports |
| `Staking.Program.Slash` | solana/programs/solprobe-staking/src/lib.rs:71-127 | takes at most the stake, restarts the lock, deactivates an emptied account; fails only for the stated reasons |
| `Staking.Program.Unstake` | solana/programs/solprobe-staking/src/lib.rs:129-169 | returns the whole stake once the lock has expired and closes the account; the vault always covers it |
| `Reputation.ScoreIsLossless` | solana/programs/solprobe-reputation/src/lib.rs:34-34 | the u128 product and the u16 cast lose nothing; the score is floor(10000 completed / total) <= 10000 |
| `Reputation.FloorMonotone` | solana/programs/solprobe-reputation/src/lib.rs:34-34 | comparing fractions compares their floors |
| `Reputation.CompletionRaises` | solana/programs/solprobe-reputation/src/lib.rs:30-35 | one more completed job never lowers the score |
| `Reputation.FailureLowers` | solana/programs/solprobe-reputation/src/lib.rs:43-48 | one more failed job never raises it |
| `Reputation.Program.RegisterWorker` | solana/programs/solprobe-reputation/src/lib.rs:11-26 | a profile is created once, with a full score |
| `Reputation.Program.RecordCompletion` | solana/programs/solprobe-reputation/src/lib.rs:30-41 | keeps total = completed + failed and the exact score; only the counters of a completion change; errors only at the 64-bit limit |
| `Reputation.Program.RecordFailure` | solana/programs/solprobe-reputation/src/lib.rs:43-56 | the same for a failure, whose slashed amount is added |
| `Bytes.DecodeEncode` | sidecar/src/collectors/training.rs:69-90 | little-endian decoding undoes encoding, for every width |
| `Bytes.EncodeDecode` | sidecar/src/collectors/training.rs:69-90 | and encoding undoes decoding, so no two numbers share an encoding |
| `Bytes.I64RoundTrip` | sidecar/src/collectors/training.rs:69-69 | all signed 64-bit timestamps survive |
| `Bytes.FreshIff` | sidecar/src/collectors/training.rs:71-76 | exactly which timestamps count as fresh, wrap-around included |
| `RecordCodec.TrainingRoundTrip` | sidecar/src/collectors/training.rs:63-102 | decoding an encoded training record returns every field exactly, unless the flag is clear or the record stale |
| `RecordCodec.TrainingSlices` | training/callback.py:309-319 | where each field of the training record is: flag, timestamp, step and the five floats at bytes 0, 1, 9, 17, 21, 25, 29 and 33 |
| `RecordCodec.TrainingPrefix` | sidecar/src/collectors/training.rs:46-66 | a file of fewer than 37 bytes reads as nothing, and what follows the first 37 bytes does not matter |
| `RecordCodec.DiLoCoRoundTrip` | sidecar/src/collectors/diloco.rs:65-108 | the same for DiLoCo records |
| `RecordCodec.DiLoCoSlices` | training/diloco_callback.py:202-214 | the same for the DiLoCo record, whose last byte says whether the worker is a straggler |
| `RecordCodec.DiLoCoPrefix` | sidecar/src/collectors/diloco.rs:49-65 | the same with 46 bytes |
| `RecordCodec.TrainingCallback.Write` | training/callback.py:297-324 | the mapped file becomes the padded record; out-of-range steps or timestamps leave it unchanged |
| `RecordCodec.TrainingCallback.OnTrainBatchEnd` | training/callback.py:139-193 | refused once closed, otherwise shows the new record |
| `RecordCodec.TrainingCallback.OnTrainEnd` | training/callback.py:261-268 | invalidates the record, unless the callback was closed before |
| `RecordCodec.TrainingCallback.Close` | training/callback.py:270-282 | only the callback is closed; the record stays as it is |
| `RecordCodec.ClosedRecordStaysReadable` | training/callback.py:261-282 | after writing any record, closing, and then signalling the end of training, every fresh read still returns that record |
| `RecordCodec.TrainingCallback.ReadsShown` | sidecar/src/collectors/training.rs:46-102 | in every reachable state a read returns the shown record field for field, or nothing |
| `RecordCodec.RememberedAreLatest` | training/diloco_callback.py:126-172 | after any sequence of updates every remembered field is the latest value given for it |
| `RecordCodec.ShownIsCurrentIff` | training/diloco_callback.py:199-219 | the record in the file is the one of the newest values iff the newest time, outer step and inner step fit the record |
| `RecordCodec.ShownWasCurrent` | training/diloco_callback.py:199-219 | otherwise it is the one that was current when they last fit, or there is none if they never did |
| `RecordCodec.OutOfRangeStepKeepsOldRecord` | training/diloco_callback.py:126-133 | the failing input: after inner steps 1 and -1 the file still shows 1 |
| `RecordCodec.DiLoCoCallback.Flush` | training/diloco_callback.py:199-219 | the mapped file becomes the padded record of the remembered fields, or keeps every byte when they do not fit |
| `RecordCodec.DiLoCoCallback.OnInnerStep` | training/diloco_callback.py:109-133 | overwrites only the inner fields and the outer step; refused once closed |
| `RecordCodec.DiLoCoCallback.OnOuterStep` | training/diloco_callback.py:135-172 | overwrites only the outer fields; refused once closed |
| `RecordCodec.DiLoCoCallback.Close` | training/diloco_callback.py:174-193 | after closing nothing can be read |
| `RecordCodec.DiLoCoCallback.ReadsShown` | sidecar/src/collectors/diloco.rs:49-108 | in every reachable state a read returns the shown record if it is fresh, and nothing otherwise or after closing |
| `RecordCodec.DiLoCoCallback.ReadsLatestIff` | sidecar/src/collectors/diloco.rs:49-108 | in every reachable state of an open callback a read yields the latest value of each field iff the newest steps and time fit and the record is fresh |

## Left out

- REST, WebSocket, gRPC and Prometheus transport, authentication, the dashboard and landing page, the attestation program: I/O, UI or thin wrappers.
- Prompts, enrichment, reasoning texts and evidence of diagnoses: only outcome, root cause (as an identifier), confidence, status and source are kept.
- Fingerprint hashing: a fingerprint is the list of parts before joining and hashing, so hash collisions are not modelled.
- Floating-point rounding, NaN and infinities: detectors compute over reals; the codec carries 32-bit float patterns, and the narrowing of Python floats (with its overflow error) is not modelled. Z-scores are compared squared, which needs no square root.
- How the training callback computes gradient norm, throughput and utilisation before packing them: plain arithmetic with a square root.
- Threads and locks: every store method, evaluator run and diagnose call is one step. Overlapping diagnose calls are not modelled; `DiagnosisStore.LookupFindsNewestMatch` says what out-of-order entries do.
- Torn reads of the mapped file, file creation, descriptors, and the node and job ids a reader adds.
- Clocks, fresh ids and the node enumeration: parameters of the modelled methods. Identifiers are integers that are only compared.
- Account derivation, bumps, rent, account space and unix-time fields that nothing reads: balances, statuses and the effect of account creation are kept. A profile of the reputation program is addressed by its own authority, so that check cannot fail and is not modelled.
- Worker accounts paid by a release may be any account of the ledger; a receiver's 64-bit overflow cannot occur while the total supply fits 64 bits (`Ledger.BalanceAtMostTotal`).
- Texts, severities and confidence values of alerts (except the stall severity), alert and anomaly stores, and alert lifecycle.
- GPU model and count, and per-job record listings.
- Sync-duration spikes, the cross-node and numeric-instability detectors and the sidecar's threshold detector: ratio and threshold tests that would only add easy members.
- Job-scoped policies in the truncation results: the job filter is applied after truncation, so equality is not promised. Nor is it for custom metrics, whose buffers are shared by all nodes that report a name.
- The exception handler around the evaluation of a policy, and unknown sources: no modelled step raises.
- Policy names, descriptions and severities, and the listing and lookup methods of the stores.
- MetricsStore.Store.IngestBatch: does not touch jobs; the effect of telemetry on the job registry is `JobStore.Store.MarkProgress`, called once per training and DiLoCo record.
- ZScore.RunDetection: collects the flagged targets before checking them against the dedup map, in the same order and with the same clock readings; collecting never reads that map. The other detectors are modelled the same way.
- PolicyEvaluator.RunPolicyEvaluation: takes the known node ids as a list without repetitions, as the keys of a dictionary are.
- Negative dedup cooldowns: the spacing results are about cooldowns of zero or more.
