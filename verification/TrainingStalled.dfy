/** Detector for running jobs whose training step stopped advancing. */
module TrainingStalled {
  import opened Prelude
  import opened TrailingRuns
  import MS = MetricsStore
  import JS = JobStore
  import PC = PolicyConditions
  import D = Dedup

  const WARN_SECONDS := 60.0
  const CRITICAL_SECONDS := 300.0
  const MIN_SAMPLES: nat := 3
  const DEDUP_COOLDOWN_SECONDS := 60.0
  const NODE_FRESH_SECONDS := 30.0
  const WINDOW_MINUTES := 15

  datatype Mode = NoFreshTrainingSample | RepeatedSameStep

  datatype Severity = Warning | Critical

  datatype Stall = Stall(node: Id, step: int, job: Id, severity: Severity, seconds: real, samples: nat, mode: Mode)

  type Key = (Id, int, Mode)

  type Candidate = D.Candidate<Key, Stall>

  function AtStep(step: int): MS.TrainingMetrics -> bool {
    (m: MS.TrainingMetrics) => m.step == step
  }

  /** The longest suffix of `history` whose entries share the latest step. */
  function SameStepWindow(history: seq<MS.TrainingMetrics>): (w: seq<MS.TrainingMetrics>)
    ensures |history| > 0 ==> |w| > 0
  {
    if |history| == 0 then []
    else history[RunStart(history, AtStep(history[|history| - 1].step))..]
  }

  method TrailingSameStepWindow(history: seq<MS.TrainingMetrics>) returns (window: seq<MS.TrainingMetrics>)
    ensures window == SameStepWindow(history)
  {
    if |history| == 0 {
      return [];
    }
    var latestStep := history[|history| - 1].step;
    var newestFirst := [];
    var i := |history|;
    while i > 0
      invariant 0 <= i <= |history| && |newestFirst| == |history| - i
      invariant forall j :: 0 <= j < |newestFirst| ==> newestFirst[j] == history[|history| - 1 - j]
      invariant forall j :: i <= j < |history| ==> history[j].step == latestStep
    {
      var m := history[i - 1];
      if m.step != latestStep {
        break;
      }
      newestFirst := newestFirst + [m];
      i := i - 1;
    }
    RunStartUnique(history, AtStep(latestStep), i);
    window := seq(|newestFirst|, j requires 0 <= j < |newestFirst| => newestFirst[|newestFirst| - 1 - j]);
  }

  function SeverityOf(seconds: real): Severity {
    if seconds >= CRITICAL_SECONDS then Critical else Warning
  }

  predicate NodeIsFresh(lastSeen: Option<int>, nowMs: int) {
    lastSeen.Some? && (nowMs - lastSeen.value) as real / 1000.0 <= NODE_FRESH_SECONDS
  }

  function SpanSeconds(w: seq<MS.TrainingMetrics>): real
    requires |w| > 0
  {
    (w[|w| - 1].timestampMs - w[0].timestampMs) as real / 1000.0
  }

  /** Seconds for which the trailing samples have shown the same step. */
  function StepSpan(history: seq<MS.TrainingMetrics>): real
    requires |history| > 0
  {
    SpanSeconds(SameStepWindow(history))
  }

  predicate IsRunning(jobs: map<Id, JS.Job>, job: Option<Id>) {
    job.Some? && job.value in jobs && jobs[job.value].status == JS.Running
  }

  /** The stall that a node's history shows at `nowMs`, before deduplication. */
  function StallOf(node: Id, history: seq<MS.TrainingMetrics>, jobs: map<Id, JS.Job>, lastSeen: Option<int>, nowMs: int)
    : (r: Option<Stall>)
  {
    if |history| == 0 || !IsRunning(jobs, history[|history| - 1].jobId) then None
    else
      var latest := history[|history| - 1];
      var missing := (nowMs - latest.timestampMs) as real / 1000.0;
      if NodeIsFresh(lastSeen, nowMs) && missing >= WARN_SECONDS then
        Some(Stall(node, latest.step, latest.jobId.value, SeverityOf(missing), missing, 1, NoFreshTrainingSample))
      else
        var window := SameStepWindow(history);
        if |window| < MIN_SAMPLES || StepSpan(history) < WARN_SECONDS then None
        else Some(Stall(node, latest.step, latest.jobId.value, SeverityOf(StepSpan(history)), StepSpan(history),
                        |window|, RepeatedSameStep))
  }

  function CandidateOf(s: Stall, now: real): Candidate {
    D.Candidate((s.node, s.step, s.mode), now, s)
  }

  /** What `node` shows in the last fifteen minutes of everything it ever sent. */
  ghost function Shown(node: Id, store: MS.Store, jobs: map<Id, JS.Job>, now: real): (r: Option<Stall>)
    reads store
    ensures r.Some? ==> r.value.node == node
  {
    var batches := MS.BatchesFor(store.history, node);
    var seen := if batches == [] then None else Some(MS.LastSeenIn(batches));
    StallOf(node, MS.Window(MS.TrainingIn(batches), 15), jobs, seen, Trunc(now * 1000.0))
  }

  /** What each node shows, in node order. */
  ghost function Offered(nodeIds: seq<Id>, store: MS.Store, jobs: map<Id, JS.Job>, now: real): seq<Candidate>
    reads store
  {
    if |nodeIds| == 0 then []
    else
      var stall := Shown(nodeIds[|nodeIds| - 1], store, jobs, now);
      Offered(nodeIds[..|nodeIds| - 1], store, jobs, now) + if stall.Some? then [CandidateOf(stall.value, now)] else []
  }

  lemma {:induction false} OfferedAreShown(nodeIds: seq<Id>, store: MS.Store, jobs: map<Id, JS.Job>, now: real)
    ensures forall c :: c in Offered(nodeIds, store, jobs, now)
                        <==> && c.finding.node in nodeIds
                             && Shown(c.finding.node, store, jobs, now) == Some(c.finding)
                             && c == CandidateOf(c.finding, now)
  {
    hide Shown;
    if |nodeIds| > 0 {
      OfferedAreShown(nodeIds[..|nodeIds| - 1], store, jobs, now);
    }
  }

  /** No alert of the node with this step and in this mode is less than a minute old. */
  ghost predicate Unreported(last: map<Key, real>, s: Stall, now: real) {
    (s.node, s.step, s.mode) !in last || now - last[(s.node, s.step, s.mode)] >= 60.0
  }

  /**
   * Which stalls a run reports depends, node by node, on what that very node shows and on the alerts of that
   * node, step and mode that are remembered.
   */
  lemma AcceptedAreUnreported(last: map<Key, real>, nodeIds: seq<Id>, store: MS.Store, jobs: map<Id, JS.Job>,
                              now: real)
    ensures var offered := Offered(nodeIds, store, jobs, now);
            var findings := D.Accepted(last, DEDUP_COOLDOWN_SECONDS, offered);
            && (forall s :: D.Found(findings, s)
                            <==> s.node in nodeIds && Shown(s.node, store, jobs, now) == Some(s)
                                 && Unreported(last, s, now))
            && (forall c :: c in findings ==>
                              c.now == now && c.key == (c.finding.node, c.finding.step, c.finding.mode))
            && D.OneReading(offered, now)
  {
    hide Shown, Offered, D.Accepted;
    OfferedAreShown(nodeIds, store, jobs, now);
    var offered := Offered(nodeIds, store, jobs, now);
    var findings := D.Accepted(last, DEDUP_COOLDOWN_SECONDS, offered);
    assert D.OneReading(offered, now) by {
      assert forall i :: 0 <= i < |offered| ==> offered[i] in offered;
    }
    D.AcceptedAreOffered(last, DEDUP_COOLDOWN_SECONDS, offered);
    forall s ensures D.Found(findings, s)
                     <==> s.node in nodeIds && Shown(s.node, store, jobs, now) == Some(s) && Unreported(last, s, now)
    {
      D.AcceptedIffQuiet(last, DEDUP_COOLDOWN_SECONDS, offered, now, CandidateOf(s, now));
      D.FoundIffAccepted(findings, CandidateOf(s, now));
    }
  }

  method RunDetection(dedup: D.Deduper<Key>, nodeIds: seq<Id>, store: MS.Store, jobs: JS.Store, now: real)
    returns (findings: seq<Candidate>)
    requires dedup.Valid() && store.Valid() && jobs.Valid() && dedup.cooldown == DEDUP_COOLDOWN_SECONDS
    modifies dedup
    ensures dedup.Valid()
    ensures var offered := Offered(nodeIds, store, jobs.jobs, now);
            && dedup.events == old(dedup.events) + D.Checks(offered) + [D.Sweep(now)]
            && findings == D.Accepted(old(dedup.last), DEDUP_COOLDOWN_SECONDS, offered)
    ensures forall s :: D.Found(findings, s)
                        <==> s.node in nodeIds && Shown(s.node, store, jobs.jobs, now) == Some(s)
                             && Unreported(old(dedup.last), s, now)
    ensures forall c :: c in findings ==>
                          c.now == now && c.key == (c.finding.node, c.finding.step, c.finding.mode)
    ensures D.Remembers(old(dedup.last), 60.0, findings, now, dedup.last)
  {
    hide Offered, Shown, Unreported, D.Found, D.Accepted, D.After, D.Swept, D.Checks, D.Remembers, D.OneReading;
    var offered := Candidates(nodeIds, store, jobs, now);
    AcceptedAreUnreported(dedup.last, nodeIds, store, jobs.jobs, now);
    D.RunRemembers(dedup.last, DEDUP_COOLDOWN_SECONDS, offered, now);
    findings := D.OfferAll(dedup, offered, now);
  }

  method Candidates(nodeIds: seq<Id>, store: MS.Store, jobs: JS.Store, now: real) returns (offered: seq<Candidate>)
    requires store.Valid() && jobs.Valid()
    ensures offered == Offered(nodeIds, store, jobs.jobs, now)
  {
    hide Shown;
    offered := [];
    for i := 0 to |nodeIds|
      invariant offered == Offered(nodeIds[..i], store, jobs.jobs, now)
    {
      assert nodeIds[..i + 1][..i] == nodeIds[..i];
      var stall := Examine(nodeIds[i], store, jobs, now);
      if stall.None? {
        continue;
      }
      offered := offered + [CandidateOf(stall.value, now)];
    }
    assert nodeIds[..|nodeIds|] == nodeIds;
  }

  method Examine(node: Id, store: MS.Store, jobs: JS.Store, now: real) returns (r: Option<Stall>)
    requires store.Valid() && jobs.Valid()
    ensures r == Shown(node, store, jobs.jobs, now)
  {
    hide StallOf;
    var history := store.GetTrainingHistory(node, WINDOW_MINUTES);
    var seen := store.LastSeen(node);
    r := Classify(node, history, jobs.jobs, seen, Trunc(now * 1000.0));
  }

  method Classify(node: Id, history: seq<MS.TrainingMetrics>, jobs: map<Id, JS.Job>, seen: Option<int>, nowMs: int)
    returns (r: Option<Stall>)
    ensures r == StallOf(node, history, jobs, seen, nowMs)
  {
    if |history| == 0 {
      return None;
    }
    var latest := history[|history| - 1];
    if latest.jobId.None? || !IsRunning(jobs, latest.jobId) {
      return None;
    }
    var missing := (nowMs - latest.timestampMs) as real / 1000.0;
    if NodeIsFresh(seen, nowMs) && missing >= WARN_SECONDS {
      return Some(Stall(node, latest.step, latest.jobId.value,
                        if missing >= CRITICAL_SECONDS then Critical else Warning,
                        missing, 1, NoFreshTrainingSample));
    }
    if |history| < MIN_SAMPLES {
      return None;
    }
    var window := TrailingSameStepWindow(history);
    if |window| < MIN_SAMPLES {
      return None;
    }
    var seconds := (window[|window| - 1].timestampMs - window[0].timestampMs) as real / 1000.0;
    if seconds < WARN_SECONDS {
      return None;
    }
    r := Some(Stall(node, latest.step, latest.jobId.value, if seconds >= CRITICAL_SECONDS then Critical else Warning,
                    seconds, |window|, RepeatedSameStep));
  }

  // Relation to the policy evaluator and to the unbounded history.

  function StepField(): MS.TrainingMetrics -> Option<real> {
    (m: MS.TrainingMetrics) => Some(m.step as real)
  }

  function StepSamples(history: seq<MS.TrainingMetrics>): seq<PC.Sample> {
    Map(history, PC.TrainingReading(StepField()))
  }

  lemma SameRun(history: seq<MS.TrainingMetrics>)
    requires |history| > 0
    ensures var samples := StepSamples(history);
            RunStart(history, AtStep(PC.Last(history).step)) == RunStart(samples, PC.SameValue(PC.Last(samples).value))
  {
    var samples := StepSamples(history);
    var p := AtStep(PC.Last(history).step);
    var q := PC.SameValue(PC.Last(samples).value);
    forall i | 0 <= i < |history| ensures p(history[i]) <==> q(samples[i]) {
      SameStepIsSameValue(history, i);
    }
    SameTest(history, samples, p, q);
  }

  lemma SameTest<S, T>(s: seq<S>, t: seq<T>, p: S -> bool, q: T -> bool)
    requires |s| == |t|
    requires forall i :: 0 <= i < |s| ==> (p(s[i]) <==> q(t[i]))
    ensures RunStart(s, p) == RunStart(t, q)
  {
    var k := RunStart(s, p);
    assert k > 0 ==> !q(t[k - 1]);
    RunStartUnique(t, q, k);
  }

  /** The detector's span is the `stale_for` duration of the step series; it sees the same run. */
  lemma StepSpanIsStaleDuration(history: seq<MS.TrainingMetrics>)
    requires |history| > 0
    ensures var samples := StepSamples(history);
            && PC.SameValue(PC.Last(samples).value)(PC.Last(samples))
            && StepSpan(history) == PC.RunSpan(samples, PC.SameValue(PC.Last(samples).value))
  {
    SameRun(history);
    SameStepIsSameValue(history, |history| - 1);
    hide RunStart;
    var samples, k := StepSamples(history), RunStart(history, AtStep(PC.Last(history).step));
    assert PC.Last(samples).ts == PC.Last(history).timestampMs && samples[k].ts == history[k].timestampMs;
  }

  lemma SameStepIsSameValue(history: seq<MS.TrainingMetrics>, i: nat)
    requires i < |history|
    ensures var samples := StepSamples(history);
            AtStep(PC.Last(history).step)(history[i]) <==> PC.SameValue(PC.Last(samples).value)(samples[i])
  {
  }

  /**
   * The two kinds of stall, said without the detector's scan. A fresh node of a running job whose newest
   * sample is a minute old has hung; otherwise at least three trailing samples must agree and the step
   * series must satisfy the policy engine's `stale_for` condition for 60 seconds, and the alert is critical
   * exactly when it satisfies that condition for 300 seconds.
   */
  lemma StallIsStaleness(node: Id, history: seq<MS.TrainingMetrics>, jobs: map<Id, JS.Job>, seen: Option<int>,
          nowMs: int)
    ensures |history| == 0 ==> StallOf(node, history, jobs, seen, nowMs).None?
    ensures |history| > 0 ==> IsStale(node, history, jobs, seen, nowMs, StallOf(node, history, jobs, seen, nowMs))
  {
    if |history| > 0 {
      hide RunStart, SameStepWindow, AgreeingTail, StepSamples, StepSpan, PC.StaleVerdict, StallOf, Hung, Running,
           SpansTail;
      if Hung(history, jobs, seen, nowMs) {
        StallWhenHung(node, history, jobs, seen, nowMs);
        HungRuns(history, jobs, seen, nowMs);
      } else {
        StallUnlessHung(node, history, jobs, seen, nowMs);
        RunningHasJob(history, jobs);
        StaleIffSpan(history, 60.0);
        StaleIffSpan(history, 300.0);
        TailLength(history, 3);
        if Running(history, jobs) && |SameStepWindow(history)| >= 3 && StepSpan(history) >= 60.0 {
          WindowIsTail(history);
        }
      }
    }
  }

  lemma HungRuns(history: seq<MS.TrainingMetrics>, jobs: map<Id, JS.Job>, seen: Option<int>, nowMs: int)
    requires |history| > 0 && Hung(history, jobs, seen, nowMs)
    ensures history[|history| - 1].jobId.Some?
  {
  }

  lemma RunningHasJob(history: seq<MS.TrainingMetrics>, jobs: map<Id, JS.Job>)
    requires |history| > 0
    ensures Running(history, jobs) ==> history[|history| - 1].jobId.Some?
  {
  }

  ghost predicate Running(history: seq<MS.TrainingMetrics>, jobs: map<Id, JS.Job>)
    requires |history| > 0
  {
    var job := history[|history| - 1].jobId;
    job.Some? && job.value in jobs && jobs[job.value].status == JS.Running
  }

  /** A node heard of for 30 s whose running job has been silent for a minute. */
  ghost predicate Hung(history: seq<MS.TrainingMetrics>, jobs: map<Id, JS.Job>, seen: Option<int>, nowMs: int)
    requires |history| > 0
  {
    && Running(history, jobs) && seen.Some? && nowMs - seen.value <= 30000
    && nowMs - history[|history| - 1].timestampMs >= 60000
  }

  lemma StallWhenHung(node: Id, history: seq<MS.TrainingMetrics>, jobs: map<Id, JS.Job>, seen: Option<int>, nowMs: int)
    requires |history| > 0 && Hung(history, jobs, seen, nowMs)
    ensures var latest := history[|history| - 1];
            var silentMs := nowMs - latest.timestampMs;
            StallOf(node, history, jobs, seen, nowMs)
            == Some(Stall(node, latest.step, latest.jobId.value, if silentMs >= 300000 then Critical else Warning,
                          silentMs as real / 1000.0, 1, NoFreshTrainingSample))
  {
    hide SameStepWindow, StepSpan;
  }

  lemma StallUnlessHung(node: Id, history: seq<MS.TrainingMetrics>, jobs: map<Id, JS.Job>, seen: Option<int>,
                        nowMs: int)
    requires |history| > 0 && !Hung(history, jobs, seen, nowMs)
    ensures var latest, n, span := history[|history| - 1], |SameStepWindow(history)|, StepSpan(history);
            StallOf(node, history, jobs, seen, nowMs)
            == if Running(history, jobs) && n >= 3 && span >= 60.0
               then Some(Stall(node, latest.step, latest.jobId.value, if span >= 300.0 then Critical else Warning,
                               span, n, RepeatedSameStep))
               else None
  {
    hide SameStepWindow, StepSpan;
  }

  lemma StaleIffSpan(history: seq<MS.TrainingMetrics>, forSeconds: real)
    requires |history| > 0
    ensures PC.StaleVerdict(StepSamples(history), forSeconds) <==> StepSpan(history) >= forSeconds
  {
    hide RunStart, StepSpan;
    StepSpanIsStaleDuration(history);
  }

  /** The last `n` samples agree, no more of them do, and they span `seconds`. */
  ghost predicate SpansTail(history: seq<MS.TrainingMetrics>, n: nat, seconds: real)
    requires |history| > 0
  {
    && 0 < n && AgreeingTail(history, n) && !AgreeingTail(history, n + 1)
    && seconds == (history[|history| - 1].timestampMs - history[|history| - n].timestampMs) as real / 1000.0
  }

  lemma WindowIsTail(history: seq<MS.TrainingMetrics>)
    requires |history| > 0
    ensures SpansTail(history, |SameStepWindow(history)|, StepSpan(history))
  {
    var n := |SameStepWindow(history)|;
    TailLength(history, n);
    TailLength(history, n + 1);
    hide AgreeingTail, RunStart;
  }

  lemma TailLength(history: seq<MS.TrainingMetrics>, n: nat)
    requires |history| > 0
    ensures AgreeingTail(history, n) <==> n <= |SameStepWindow(history)|
  {
    if AgreeingTail(history, n) {
      RunStartLeast(history, AtStep(PC.Last(history).step), |history| - n);
    }
  }

  ghost predicate IsStale(node: Id, history: seq<MS.TrainingMetrics>, jobs: map<Id, JS.Job>, seen: Option<int>,
                          nowMs: int, r: Option<Stall>)
    requires |history| > 0
  {
    var latest := history[|history| - 1];
    var silentMs := nowMs - latest.timestampMs;
    var hung := Hung(history, jobs, seen, nowMs);
    && (r.Some? ==> r.value.node == node && r.value.step == latest.step && Some(r.value.job) == latest.jobId)
    && (r.Some? && r.value.mode == NoFreshTrainingSample <==> hung)
    && (hung ==> (r.value.severity == Critical <==> silentMs >= 300000)
                 && r.value.seconds == silentMs as real / 1000.0 && r.value.samples == 1)
    && (!hung ==>
          (r.Some? <==> && Running(history, jobs) && AgreeingTail(history, 3)
                        && PC.StaleVerdict(StepSamples(history), 60.0)))
    && (!hung && r.Some? ==>
          && (r.value.severity == Critical <==> PC.StaleVerdict(StepSamples(history), 300.0))
          && SpansTail(history, r.value.samples, r.value.seconds))
  }

  /** The last `n` samples all show the same step. */
  ghost predicate AgreeingTail(history: seq<MS.TrainingMetrics>, n: nat)
    requires |history| > 0
  {
    && n <= |history|
    && forall i :: |history| - n <= i < |history| ==> history[i].step == PC.Last(history).step
  }

  /** Showing the last `n` samples only cannot move a span across either threshold. */
  lemma WindowedStepSpan(all: seq<MS.TrainingMetrics>, n: nat)
    requires PC.SpacedBySecond(StepSamples(all))
    requires |all| > 0 && n >= 301
    ensures StepSpan(LastN(all, n)) < WARN_SECONDS <==> StepSpan(all) < WARN_SECONDS
    ensures StepSpan(LastN(all, n)) >= CRITICAL_SECONDS <==> StepSpan(all) >= CRITICAL_SECONDS
  {
    var samples := StepSamples(all);
    var p := PC.SameValue(PC.Last(samples).value);
    MapLastN(all, PC.TrainingReading(StepField()), n);
    StepSpanIsStaleDuration(all);
    StepSpanIsStaleDuration(LastN(all, n));
    assert StepSamples(LastN(all, n)) == LastN(samples, n);
    assert PC.Last(LastN(samples, n)) == PC.Last(samples);
    PC.TruncatedRunSpan(samples, p, n, WARN_SECONDS);
    PC.TruncatedRunSpan(samples, p, n, CRITICAL_SECONDS);
  }

  lemma WindowedRunLength(all: seq<MS.TrainingMetrics>, n: nat)
    requires |all| > 0 && n >= MIN_SAMPLES
    ensures |SameStepWindow(LastN(all, n))| < MIN_SAMPLES <==> |SameStepWindow(all)| < MIN_SAMPLES
  {
  }

  lemma SameStall(node: Id, h: seq<MS.TrainingMetrics>, g: seq<MS.TrainingMetrics>, jobs: map<Id, JS.Job>,
                  seen: Option<int>, nowMs: int)
    requires |h| > 0 && |g| > 0 && h[|h| - 1] == g[|g| - 1]
    requires StepSpan(h) < WARN_SECONDS <==> StepSpan(g) < WARN_SECONDS
    requires StepSpan(h) >= CRITICAL_SECONDS <==> StepSpan(g) >= CRITICAL_SECONDS
    requires |SameStepWindow(h)| < MIN_SAMPLES <==> |SameStepWindow(g)| < MIN_SAMPLES
    ensures SameReport(StallOf(node, h, jobs, seen, nowMs), StallOf(node, g, jobs, seen, nowMs))
  {
  }

  ghost predicate SameReport(a: Option<Stall>, b: Option<Stall>) {
    && (a.Some? <==> b.Some?)
    && (a.Some? ==> a.value.severity == b.value.severity && a.value.mode == b.value.mode
                    && a.value.step == b.value.step && a.value.job == b.value.job)
  }

  /**
   * Looking at fifteen minutes only never changes whether a stall is reported, which kind it is, nor its
   * severity: the verdict is the one of everything the node ever sent.
   */
  lemma WindowKeepsStall(node: Id, all: seq<MS.TrainingMetrics>, jobs: map<Id, JS.Job>, seen: Option<int>, nowMs: int)
    requires PC.SpacedBySecond(StepSamples(all))
    ensures SameReport(StallOf(node, MS.Window(all, WINDOW_MINUTES), jobs, seen, nowMs),
                       StallOf(node, all, jobs, seen, nowMs))
  {
    if |all| > 0 {
      LastNKeepsStall(node, all, MS.WindowSize(WINDOW_MINUTES), jobs, seen, nowMs);
    }
  }

  lemma LastNKeepsStall(node: Id, all: seq<MS.TrainingMetrics>, n: nat, jobs: map<Id, JS.Job>, seen: Option<int>,
          nowMs: int)
    requires PC.SpacedBySecond(StepSamples(all))
    requires |all| > 0 && n >= 301
    ensures SameReport(StallOf(node, LastN(all, n), jobs, seen, nowMs), StallOf(node, all, jobs, seen, nowMs))
  {
    hide StallOf, SameReport, StepSpan, SameStepWindow, PC.SpacedBySecond, StepSamples;
    WindowedStepSpan(all, n);
    WindowedRunLength(all, n);
    SameStall(node, LastN(all, n), all, jobs, seen, nowMs);
  }
}
