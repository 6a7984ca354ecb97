/**
 * The conditions a monitoring policy can put on a series of samples: threshold violations sustained for
 * some seconds, and values that stopped changing. The backend evaluates them on a ring-buffered,
 * window-truncated series; the lemmas say when that gives the verdict of the whole history.
 */
module PolicyConditions {
  import opened Prelude
  import opened TrailingRuns
  import MS = MetricsStore
  import RS = RealSums

  /** What a source reader returns per sample; a value is missing when the field cannot be read. */
  datatype Sample = Sample(ts: int, value: Option<real>, job: Option<Id>)

  datatype Operator = Gt | Gte | Lt | Lte | AbsGt | StaleFor

  predicate Compare(operator: Operator, value: real, threshold: real) {
    match operator
    case Gt => value > threshold
    case Gte => value >= threshold
    case Lt => value < threshold
    case Lte => value <= threshold
    case AbsGt => Abs(value) > threshold
    case StaleFor => false
  }

  function Violating(operator: Operator, threshold: real): Sample -> bool {
    (s: Sample) => s.value.Some? && Compare(operator, s.value.value, threshold)
  }

  function SameValue(v: Option<real>): Sample -> bool {
    (s: Sample) => s.value.Some? && s.value == v
  }

  function Last<T>(s: seq<T>): T
    requires |s| > 0
  {
    s[|s| - 1]
  }

  /** Seconds from sample `k` to the last one. */
  function Span(samples: seq<Sample>, k: nat): real
    requires k < |samples|
  {
    (Last(samples).ts - samples[k].ts) as real / 1000.0
  }

  /** Span of the longest trailing run of samples that pass `p`. */
  function RunSpan(samples: seq<Sample>, p: Sample -> bool): real
    requires |samples| > 0 && p(Last(samples))
  {
    Span(samples, RunStart(samples, p))
  }

  predicate SustainedVerdict(samples: seq<Sample>, operator: Operator, threshold: real, forSeconds: real) {
    && |samples| > 0
    && Violating(operator, threshold)(Last(samples))
    && (forSeconds > 0.0 ==> RunSpan(samples, Violating(operator, threshold)) >= forSeconds)
  }

  predicate StaleVerdict(samples: seq<Sample>, forSeconds: real) {
    && |samples| > 0
    && Last(samples).value.Some?
    && RunSpan(samples, SameValue(Last(samples).value)) >= forSeconds
  }

  predicate Verdict(samples: seq<Sample>, operator: Operator, threshold: real, forSeconds: real) {
    if operator == StaleFor then StaleVerdict(samples, forSeconds)
    else SustainedVerdict(samples, operator, threshold, forSeconds)
  }

  datatype Evaluation = Evaluation(violated: bool, durationSeconds: real, latest: real, earliestMs: int)

  // The same, operator by operator.

  /** Sample `i` has a value, and the value is on the side of the threshold that the operator asks about. */
  ghost predicate HoldsAt(samples: seq<Sample>, i: nat, operator: Operator, threshold: real)
    requires i < |samples|
  {
    && samples[i].value.Some?
    && var value := samples[i].value.value;
       match operator
       case Gt => value > threshold
       case Gte => value >= threshold
       case Lt => value < threshold
       case Lte => value <= threshold
       case AbsGt => value > threshold || value < -threshold
       case StaleFor => samples[i].value == samples[|samples| - 1].value
  }

  /** From sample `k` on the condition holds throughout, and no suffix that begins earlier does better. */
  ghost predicate HoldsFrom(samples: seq<Sample>, k: nat, operator: Operator, threshold: real) {
    && k < |samples|
    && (forall i :: k <= i < |samples| ==> HoldsAt(samples, i, operator, threshold))
    && (k > 0 ==> !HoldsAt(samples, k - 1, operator, threshold))
  }

  /** The condition holds throughout some non-empty suffix that spans at least `forSeconds`. */
  ghost predicate HeldFor(samples: seq<Sample>, operator: Operator, threshold: real, forSeconds: real) {
    exists k :: 0 <= k < |samples|
                && (forall i :: k <= i < |samples| ==> HoldsAt(samples, i, operator, threshold))
                && (samples[|samples| - 1].ts - samples[k].ts) as real >= 1000.0 * forSeconds
  }

  function Test(samples: seq<Sample>, operator: Operator, threshold: real): (p: Sample -> bool)
    requires |samples| > 0
    ensures forall i :: 0 <= i < |samples| ==> (p(samples[i]) <==> HoldsAt(samples, i, operator, threshold))
  {
    if operator == StaleFor then SameValue(Last(samples).value) else Violating(operator, threshold)
  }

  /** The verdict in terms of the values, whatever the operator. */
  lemma VerdictIff(samples: seq<Sample>, operator: Operator, threshold: real, forSeconds: real)
    requires Chronological(samples) && forSeconds >= 0.0
    ensures Verdict(samples, operator, threshold, forSeconds) <==> HeldFor(samples, operator, threshold, forSeconds)
  {
    hide Verdict, HeldFor, SomeSuffixSpans, HoldsAt;
    if |samples| == 0 {
      NothingHeld(samples, operator, threshold, forSeconds);
    } else {
      SustainedVerdictMeaning(samples, operator, threshold, forSeconds);
      StaleVerdictMeaning(samples, forSeconds);
      ByTest(samples, operator, threshold, forSeconds);
      SuffixByTest(samples, Test(samples, operator, threshold), operator, threshold, forSeconds);
    }
  }

  lemma NothingHeld(samples: seq<Sample>, operator: Operator, threshold: real, forSeconds: real)
    requires |samples| == 0
    ensures !Verdict(samples, operator, threshold, forSeconds) && !HeldFor(samples, operator, threshold, forSeconds)
  {
  }

  lemma SuffixByTest(samples: seq<Sample>, p: Sample -> bool, operator: Operator, threshold: real, forSeconds: real)
    requires forall i :: 0 <= i < |samples| ==> (p(samples[i]) <==> HoldsAt(samples, i, operator, threshold))
    ensures SomeSuffixSpans(samples, p, forSeconds) <==> HeldFor(samples, operator, threshold, forSeconds)
  {
    hide HoldsAt;
    forall k | 0 <= k < |samples|
      ensures Span(samples, k) >= forSeconds <==> (Last(samples).ts - samples[k].ts) as real >= 1000.0 * forSeconds
    {
    }
  }

  lemma ByTest(samples: seq<Sample>, operator: Operator, threshold: real, forSeconds: real)
    requires |samples| > 0
    requires SustainedVerdict(samples, operator, threshold, forSeconds)
             <==> SomeSuffixSpans(samples, Violating(operator, threshold), forSeconds)
    requires StaleVerdict(samples, forSeconds)
             <==> SomeSuffixSpans(samples, SameValue(Last(samples).value), forSeconds)
    ensures Verdict(samples, operator, threshold, forSeconds)
            <==> SomeSuffixSpans(samples, Test(samples, operator, threshold), forSeconds)
  {
  }

  /** The longest such suffix is the one the scan finds; there is none iff the last sample fails. */
  lemma ScanEnds(samples: seq<Sample>, operator: Operator, threshold: real)
    requires |samples| > 0
    ensures var p := Test(samples, operator, threshold);
            && (p(Last(samples)) ==> HoldsFrom(samples, RunStart(samples, p), operator, threshold))
            && forall k :: HoldsFrom(samples, k, operator, threshold) ==> p(Last(samples)) && k == RunStart(samples, p)
  {
    hide HoldsAt;
    var p := Test(samples, operator, threshold);
    forall k | HoldsFrom(samples, k, operator, threshold) ensures p(Last(samples)) && k == RunStart(samples, p) {
      RunStartUnique(samples, p, k);
    }
  }

  lemma EmptyHoldsNowhere(samples: seq<Sample>, operator: Operator, threshold: real)
    requires |samples| == 0
    ensures forall k :: !HoldsFrom(samples, k, operator, threshold)
  {
  }

  method SustainedViolation(samples: seq<Sample>, operator: Operator, threshold: real, forSeconds: real)
    returns (r: Evaluation)
    ensures r.violated == SustainedVerdict(samples, operator, threshold, forSeconds)
    ensures |samples| > 0 && Violating(operator, threshold)(Last(samples)) ==>
              && r.durationSeconds == RunSpan(samples, Violating(operator, threshold))
              && r.earliestMs == samples[RunStart(samples, Violating(operator, threshold))].ts
              && r.latest == Last(samples).value.value
    ensures |samples| == 0 || !Violating(operator, threshold)(Last(samples)) ==>
              && r.durationSeconds == 0.0 && r.earliestMs == 0
              && r.latest == if |samples| > 0 && Last(samples).value.Some? then Last(samples).value.value else 0.0
    ensures operator != StaleFor ==>
              && (forall k: nat :: HoldsFrom(samples, k, operator, threshold) ==>
                                && r.durationSeconds == Span(samples, k) && r.earliestMs == samples[k].ts
                                && (r.violated <==> forSeconds <= 0.0 || Span(samples, k) >= forSeconds))
              && (r.violated ==> exists k :: HoldsFrom(samples, k, operator, threshold))
    ensures operator == StaleFor ==> !r.violated
    ensures operator != StaleFor && Chronological(samples) && forSeconds >= 0.0 ==>
              (r.violated <==> HeldFor(samples, operator, threshold, forSeconds))
  {
    hide HeldFor, HoldsFrom, HoldsAt;
    if Chronological(samples) && forSeconds >= 0.0 {
      VerdictIff(samples, operator, threshold, forSeconds);
    }
    if |samples| == 0 {
      EmptyHoldsNowhere(samples, operator, threshold);
      return Evaluation(false, 0.0, 0.0, 0);
    }
    ScanEnds(samples, operator, threshold);
    ghost var p := Violating(operator, threshold);
    assert operator != StaleFor ==> p == Test(samples, operator, threshold);
    var last := samples[|samples| - 1];
    if last.value.None? || !Compare(operator, last.value.value, threshold) {
      return Evaluation(false, 0.0, if last.value.Some? then last.value.value else 0.0, 0);
    }
    var earliest := last.ts;
    var i := |samples| - 1;
    while i > 0
      invariant 0 <= i < |samples|
      invariant forall j :: i <= j < |samples| ==> p(samples[j])
      invariant earliest == samples[i].ts
    {
      var s := samples[i - 1];
      if s.value.None? || !Compare(operator, s.value.value, threshold) {
        break;
      }
      earliest := s.ts;
      i := i - 1;
    }
    RunStartUnique(samples, p, i);
    var duration := (last.ts - earliest) as real / 1000.0;
    r := Evaluation(!(forSeconds > 0.0 && duration < forSeconds), duration, last.value.value, earliest);
  }

  method StaleSince(samples: seq<Sample>, forSeconds: real) returns (violated: bool, duration: real, latest: real)
    ensures violated == StaleVerdict(samples, forSeconds)
    ensures |samples| > 0 && Last(samples).value.Some? ==>
              duration == RunSpan(samples, SameValue(Last(samples).value)) && latest == Last(samples).value.value
    ensures |samples| == 0 || Last(samples).value.None? ==> duration == 0.0 && latest == 0.0
    ensures forall k: nat :: HoldsFrom(samples, k, StaleFor, 0.0) ==>
                          duration == Span(samples, k) && (violated <==> duration >= forSeconds)
    ensures violated ==> exists k :: HoldsFrom(samples, k, StaleFor, 0.0)
    ensures Chronological(samples) && forSeconds >= 0.0 ==> (violated <==> HeldFor(samples, StaleFor, 0.0, forSeconds))
  {
    hide HeldFor, HoldsFrom, HoldsAt;
    if Chronological(samples) && forSeconds >= 0.0 {
      VerdictIff(samples, StaleFor, 0.0, forSeconds);
    }
    if |samples| == 0 {
      EmptyHoldsNowhere(samples, StaleFor, 0.0);
      return false, 0.0, 0.0;
    }
    var last := samples[|samples| - 1];
    ScanEnds(samples, StaleFor, 0.0);
    if last.value.None? {
      return false, 0.0, 0.0;
    }
    ghost var p := SameValue(last.value);
    var earliest := last.ts;
    var i := |samples| - 1;
    while i > 0
      invariant 0 <= i < |samples|
      invariant forall j :: i <= j < |samples| ==> p(samples[j])
      invariant earliest == samples[i].ts
    {
      var s := samples[i - 1];
      if s.value.None? || s.value.value != last.value.value {
        break;
      }
      earliest := s.ts;
      i := i - 1;
    }
    RunStartUnique(samples, p, i);
    duration := (last.ts - earliest) as real / 1000.0;
    violated := !(duration < forSeconds);
    latest := last.value.value;
  }

  // What the scans mean, once timestamps do not decrease.

  ghost predicate Chronological(samples: seq<Sample>) {
    forall i, j :: 0 <= i < j < |samples| ==> samples[i].ts <= samples[j].ts
  }

  /** Some non-empty suffix passes `p` throughout and spans at least `forSeconds`. */
  ghost predicate SomeSuffixSpans(samples: seq<Sample>, p: Sample -> bool, forSeconds: real) {
    exists k :: 0 <= k < |samples| && (forall i :: k <= i < |samples| ==> p(samples[i]))
      && Span(samples, k) >= forSeconds
  }

  lemma RunSpanIsWidest(samples: seq<Sample>, p: Sample -> bool, forSeconds: real)
    requires Chronological(samples)
    requires |samples| > 0 && p(Last(samples))
    ensures RunSpan(samples, p) >= forSeconds <==> SomeSuffixSpans(samples, p, forSeconds)
  {
  }

  /** A threshold policy fires iff the condition held over some whole suffix of the required length. */
  lemma SustainedVerdictMeaning(samples: seq<Sample>, operator: Operator, threshold: real, forSeconds: real)
    requires Chronological(samples)
    requires forSeconds >= 0.0
    ensures SustainedVerdict(samples, operator, threshold, forSeconds)
            <==> SomeSuffixSpans(samples, Violating(operator, threshold), forSeconds)
  {
    var p := Violating(operator, threshold);
    if |samples| > 0 && p(Last(samples)) {
      RunSpanIsWidest(samples, p, forSeconds);
      assert Span(samples, |samples| - 1) == 0.0;
    }
  }

  lemma StaleVerdictMeaning(samples: seq<Sample>, forSeconds: real)
    requires Chronological(samples)
    ensures StaleVerdict(samples, forSeconds)
            <==> |samples| > 0 && SomeSuffixSpans(samples, SameValue(Last(samples).value), forSeconds)
  {
  }

  // Truncation.

  /** Consecutive samples are at least one second apart. */
  ghost predicate SpacedBySecond(samples: seq<Sample>) {
    forall i :: 0 < i < |samples| ==> samples[i].ts - samples[i - 1].ts >= 1000
  }

  lemma {:induction false} SpanAtLeast(samples: seq<Sample>, k: nat)
    requires SpacedBySecond(samples) && k < |samples|
    ensures Last(samples).ts - samples[k].ts >= 1000 * (|samples| - 1 - k)
    decreases |samples| - k
  {
    if k < |samples| - 1 {
      SpanAtLeast(samples, k + 1);
    }
  }

  lemma {:induction false} NeverBack(samples: seq<Sample>, i: nat, j: nat)
    requires SpacedBySecond(samples) && i < j < |samples|
    ensures samples[i].ts <= samples[j].ts
  {
    assert samples[j].ts - samples[j - 1].ts >= 1000;
    if i < j - 1 {
      NeverBack(samples, i, j - 1);
    }
  }

  lemma SpacedIsChronological(samples: seq<Sample>)
    requires SpacedBySecond(samples)
    ensures Chronological(samples)
  {
    forall i, j | 0 <= i < j < |samples| ensures samples[i].ts <= samples[j].ts {
      NeverBack(samples, i, j);
    }
  }

  /** Truncating to `n` samples keeps the comparison of a run's span with anything up to `n - 1` seconds. */
  lemma TruncatedRunSpan(samples: seq<Sample>, p: Sample -> bool, n: nat, forSeconds: real)
    requires SpacedBySecond(samples)
    requires |samples| > 0 && p(Last(samples))
    requires n > 0 && forSeconds <= (n - 1) as real
    ensures RunSpan(LastN(samples, n), p) >= forSeconds <==> RunSpan(samples, p) >= forSeconds
  {
    RunOfLastN(samples, p, n);
    var r := RunStart(samples, p);
    if |samples| - r > n {
      SpanAtLeast(samples, |samples| - n);
      SpanAtLeast(samples, r);
      assert RunStart(LastN(samples, n), p) == 0;
    }
  }

  lemma TruncatedVerdict(samples: seq<Sample>, operator: Operator, threshold: real, forSeconds: real, n: nat)
    requires SpacedBySecond(samples)
    requires n > 0 && forSeconds <= (n - 1) as real
    ensures Verdict(LastN(samples, n), operator, threshold, forSeconds)
            == Verdict(samples, operator, threshold, forSeconds)
  {
    if |samples| > 0 {
      assert Last(LastN(samples, n)) == Last(samples);
      if operator != StaleFor && Violating(operator, threshold)(Last(samples)) {
        TruncatedRunSpan(samples, Violating(operator, threshold), n, forSeconds);
      }
      if operator == StaleFor && Last(samples).value.Some? {
        TruncatedRunSpan(samples, SameValue(Last(samples).value), n, forSeconds);
      }
    }
  }

  /** Window length the evaluator asks its reader for. */
  function WindowMinutes(forSeconds: real): (m: int)
    ensures m >= 5
    ensures forSeconds >= 0.0 ==> forSeconds + 60.0 <= (m * 60) as real
    ensures if m == 5 then forSeconds < 240.0 else ((m - 2) * 60) as real <= forSeconds < ((m - 1) * 60) as real
  {
    MaxInt(5, Trunc(forSeconds / 60.0) + 2)
  }

  /** The series the evaluator sees of a node whose unbounded history reads `samples`. */
  function Visible(samples: seq<Sample>, forSeconds: real): (r: seq<Sample>) {
    MS.Window(samples, WindowMinutes(forSeconds))
  }

  /**
   * The evaluator's verdict on the ring-buffered, window-truncated series is the verdict on the whole
   * history, for every operator and every duration up to 1799 seconds.
   */
  lemma WindowKeepsVerdict(samples: seq<Sample>, operator: Operator, threshold: real, forSeconds: real)
    requires SpacedBySecond(samples)
    requires 0.0 <= forSeconds <= 1799.0
    ensures Verdict(Visible(samples, forSeconds), operator, threshold, forSeconds)
            == Verdict(samples, operator, threshold, forSeconds)
  {
    TruncatedVerdict(samples, operator, threshold, forSeconds, MS.WindowSize(WindowMinutes(forSeconds)));
  }

  /** `n` samples of the same value, one second apart. */
  function Steady(n: nat, v: real): (r: seq<Sample>)
    ensures |r| == n
    ensures forall i :: 0 <= i < n ==> r[i] == Sample(1000 * i, Some(v), None)
  {
    seq(n, i => Sample(1000 * i, Some(v), None))
  }

  /** A violating value sustained for `n` samples a second apart lasts `n - 1` seconds, wherever it starts. */
  lemma SteadyVerdict(samples: seq<Sample>, start: int, v: real, operator: Operator, threshold: real, forSeconds: real)
    requires |samples| > 0 && forall i :: 0 <= i < |samples| ==> samples[i] == Sample(start + 1000 * i, Some(v), None)
    requires operator == StaleFor || Compare(operator, v, threshold)
    requires forSeconds > 0.0
    ensures Verdict(samples, operator, threshold, forSeconds) <==> (|samples| - 1) as real >= forSeconds
  {
    var p := if operator == StaleFor then SameValue(Some(v)) else Violating(operator, threshold);
    RunStartUnique(samples, p, 0);
    assert Span(samples, 0) == (|samples| - 1) as real;
  }

  /**
   * 1799 seconds is exactly the limit: beyond it, a policy that waits longer misses a violation that the
   * whole history shows, whatever the operator and threshold, as long as some value violates at all.
   */
  lemma LongerDurationsAreMissed(operator: Operator, threshold: real, forSeconds: real, v: real)
    requires forSeconds > 1799.0
    requires operator == StaleFor || Compare(operator, v, threshold)
    ensures var samples := Steady(Trunc(forSeconds) + 2, v);
            && SpacedBySecond(samples)
            && Verdict(samples, operator, threshold, forSeconds)
            && !Verdict(Visible(samples, forSeconds), operator, threshold, forSeconds)
  {
    var samples := Steady(Trunc(forSeconds) + 2, v);
    assert MS.WindowSize(WindowMinutes(forSeconds)) == 1800;
    var shown := Visible(samples, forSeconds);
    hide Verdict, Compare, Visible, WindowMinutes;
    SteadyVerdict(samples, 0, v, operator, threshold, forSeconds);
    SteadyVerdict(shown, 1000 * (|samples| - 1800), v, operator, threshold, forSeconds);
  }

  /** Durations up to 1799 seconds are exactly those for which truncation never changes a verdict. */
  lemma WindowLimit(forSeconds: real)
    requires forSeconds >= 0.0
    ensures forSeconds <= 1799.0
            <==> forall samples: seq<Sample>, operator, threshold | SpacedBySecond(samples) ::
                   Verdict(Visible(samples, forSeconds), operator, threshold, forSeconds)
                   == Verdict(samples, operator, threshold, forSeconds)
  {
    if forSeconds <= 1799.0 {
      forall samples: seq<Sample>, operator, threshold | SpacedBySecond(samples)
        ensures Verdict(Visible(samples, forSeconds), operator, threshold, forSeconds)
                == Verdict(samples, operator, threshold, forSeconds)
      {
        WindowKeepsVerdict(samples, operator, threshold, forSeconds);
      }
    } else {
      LongerDurationsAreMissed(StaleFor, 0.0, forSeconds, 1.0);
      var samples := Steady(Trunc(forSeconds) + 2, 1.0);
      assert SpacedBySecond(samples);
      assert Verdict(Visible(samples, forSeconds), StaleFor, 0.0, forSeconds)
             != Verdict(samples, StaleFor, 0.0, forSeconds);
    }
  }

  // The readers apply one function to every stored record, so the window of the readings is the reading of the window.

  function TrainingReading(field: MS.TrainingMetrics -> Option<real>): MS.TrainingMetrics -> Sample {
    (m: MS.TrainingMetrics) => Sample(m.timestampMs, field(m), m.jobId)
  }

  function DiLoCoReading(field: MS.DiLoCoMetrics -> Option<real>): MS.DiLoCoMetrics -> Sample {
    (m: MS.DiLoCoMetrics) => Sample(m.timestampMs, field(m), m.jobId)
  }

  /** Mean of a field over one snapshot of a node's GPUs; missing when some GPU lacks the field. */
  function GpuMean(gpus: seq<MS.GpuMetrics>, field: string): Option<real> {
    if |gpus| > 0 && forall i :: 0 <= i < |gpus| ==> field in gpus[i].fields
    then Some(RS.Mean(seq(|gpus|, i requires 0 <= i < |gpus| => gpus[i].fields[field])))
    else None
  }

  /** The sample read from a snapshot: its newest timestamp, no job, and the field's mean if all GPUs have it. */
  ghost predicate ReadsSnapshot(s: Sample, gpus: seq<MS.GpuMetrics>, field: string) {
    && s.job == None
    && (exists i :: 0 <= i < |gpus| && s.ts == gpus[i].timestampMs)
    && (forall i :: 0 <= i < |gpus| ==> gpus[i].timestampMs <= s.ts)
    && (s.value.Some? <==> forall i :: 0 <= i < |gpus| ==> field in gpus[i].fields)
    && (s.value.Some? ==>
          s.value.value * |gpus| as real == RS.Sum(seq(|gpus|, i requires 0 <= i < |gpus| => gpus[i].fields[field])))
  }

  lemma GpuReadingReads(gpus: seq<MS.GpuMetrics>, field: string)
    requires |gpus| > 0
    ensures ReadsSnapshot(GpuReading(field)(gpus), gpus, field)
  {
    hide RS.Sum;
  }

  function GpuReading(field: string): seq<MS.GpuMetrics> -> Sample {
    (gpus: seq<MS.GpuMetrics>) => Sample(if |gpus| > 0 then MS.NewestGpu(gpus) else 0, GpuMean(gpus, field), None)
  }

  lemma ReadingOfWindow<T>(all: seq<T>, reading: T -> Sample, forSeconds: real)
    ensures Map(MS.Window(all, WindowMinutes(forSeconds)), reading) == Visible(Map(all, reading), forSeconds)
  {
  }

  method TrainingReader(store: MS.Store, node: Id, field: MS.TrainingMetrics -> Option<real>, windowMinutes: int)
    returns (samples: seq<Sample>)
    requires store.Valid()
    ensures samples == Map(MS.Window(MS.TrainingIn(MS.BatchesFor(store.history, node)), windowMinutes),
        TrainingReading(field))
    ensures var records := MS.Window(MS.TrainingIn(MS.BatchesFor(store.history, node)), windowMinutes);
            |samples| == |records| && forall i :: 0 <= i < |records| ==>
              samples[i] == Sample(records[i].timestampMs, field(records[i]), records[i].jobId)
  {
    var history := store.GetTrainingHistory(node, windowMinutes);
    samples := ReadAll(history, TrainingReading(field));
  }

  method DiLoCoReader(store: MS.Store, node: Id, field: MS.DiLoCoMetrics -> Option<real>, windowMinutes: int)
    returns (samples: seq<Sample>)
    requires store.Valid()
    ensures samples == Map(MS.Window(MS.DiLoCoIn(MS.BatchesFor(store.history, node)), windowMinutes),
        DiLoCoReading(field))
    ensures var records := MS.Window(MS.DiLoCoIn(MS.BatchesFor(store.history, node)), windowMinutes);
            |samples| == |records| && forall i :: 0 <= i < |records| ==>
              samples[i] == Sample(records[i].timestampMs, field(records[i]), records[i].jobId)
  {
    var history := store.GetDiLoCoHistory(node, windowMinutes);
    samples := ReadAll(history, DiLoCoReading(field));
  }

  /** The source skips empty snapshots; the store never holds one, so every snapshot gives a sample. */
  method GpuReader(store: MS.Store, node: Id, field: string, windowMinutes: int) returns (samples: seq<Sample>)
    requires store.Valid()
    ensures samples == Map(MS.Window(MS.GpuIn(MS.BatchesFor(store.history, node)), windowMinutes), GpuReading(field))
    ensures var snapshots := MS.Window(MS.GpuIn(MS.BatchesFor(store.history, node)), windowMinutes);
            |samples| == |snapshots|
            && forall i :: 0 <= i < |snapshots| ==> ReadsSnapshot(samples[i], snapshots[i], field)
  {
    hide ReadsSnapshot;
    var history := store.GetGpuHistory(node, windowMinutes);
    samples := ReadSnapshots(history, GpuReading(field));
    forall i | 0 <= i < |history| ensures ReadsSnapshot(samples[i], history[i], field) {
      GpuReadingReads(history[i], field);
    }
  }

  method ReadSnapshots(history: seq<seq<MS.GpuMetrics>>, reading: seq<MS.GpuMetrics> -> Sample)
    returns (samples: seq<Sample>)
    requires forall i :: 0 <= i < |history| ==> |history[i]| > 0
    ensures samples == Map(history, reading)
  {
    samples := [];
    for i := 0 to |history|
      invariant samples == Map(history[..i], reading)
    {
      if |history[i]| == 0 {
        continue;
      }
      samples := samples + [reading(history[i])];
    }
    assert history[..|history|] == history;
  }

  method ReadAll<T>(history: seq<T>, reading: T -> Sample) returns (samples: seq<Sample>)
    ensures samples == Map(history, reading)
  {
    samples := [];
    for i := 0 to |history|
      invariant samples == Map(history[..i], reading)
    {
      samples := samples + [reading(history[i])];
    }
    assert history[..|history|] == history;
  }

  /** Ring buffer, window and reader together: the verdict on what they let through is the verdict on everything. */
  lemma WindowedReading<T>(all: seq<T>, reading: T -> Sample, operator: Operator, threshold: real, forSeconds: real)
    requires SpacedBySecond(Map(all, reading))
    requires 0.0 <= forSeconds <= 1799.0
    ensures Verdict(Map(MS.Window(all, WindowMinutes(forSeconds)), reading), operator, threshold, forSeconds)
            == Verdict(Map(all, reading), operator, threshold, forSeconds)
  {
    ReadingOfWindow(all, reading, forSeconds);
    WindowKeepsVerdict(Map(all, reading), operator, threshold, forSeconds);
  }
}
