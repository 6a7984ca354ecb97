/** Detector for a loss that has gone flat while training still runs at full speed. */
module LossPlateau {
  import opened Prelude
  import opened Sorting
  import M = Median
  import LS = LeastSquares
  import MS = MetricsStore
  import D = Dedup

  const WINDOW_STEPS: nat := 50
  const WARMUP_STEPS := 20
  const THRESHOLD := 0.0001
  const BASELINE_WINDOW_STEPS: nat := 200
  const DEDUP_COOLDOWN_SECONDS := 300.0
  const WINDOW_MINUTES := MaxInt(1, (BASELINE_WINDOW_STEPS + WINDOW_STEPS) / 60 + 2)

  datatype Plateau = Plateau(node: Id, slope: real, windowMedian: real, baselineMedian: real)

  type Candidate = D.Candidate<Id, Plateau>

  function StepOf(): MS.TrainingMetrics -> int {
    (m: MS.TrainingMetrics) => m.step
  }

  function LossOf(): MS.TrainingMetrics -> real {
    (m: MS.TrainingMetrics) => m.loss
  }

  function ThroughputOf(): MS.TrainingMetrics -> real {
    (m: MS.TrainingMetrics) => m.throughputTps
  }

  function Slope(window: seq<MS.TrainingMetrics>): real
    requires |window| > 0
  {
    LS.LinearSlope(LS.AsReals(Map(window, StepOf())), Map(window, LossOf()))
  }

  function PlateauWindow(history: seq<MS.TrainingMetrics>): (w: seq<MS.TrainingMetrics>)
    requires |history| >= WINDOW_STEPS
    ensures |w| == WINDOW_STEPS
  {
    history[|history| - WINDOW_STEPS..]
  }

  function WindowMedian(history: seq<MS.TrainingMetrics>): real
    requires |history| >= WINDOW_STEPS
  {
    M.Median(Map(PlateauWindow(history), ThroughputOf()))
  }

  /** Median throughput of the samples before the window; the window's own when there are none. */
  function BaselineMedian(history: seq<MS.TrainingMetrics>): real
    requires |history| >= WINDOW_STEPS
  {
    var before := history[..|history| - WINDOW_STEPS];
    if |before| > 0 then M.Median(Map(LastN(before, BASELINE_WINDOW_STEPS), ThroughputOf())) else WindowMedian(history)
  }

  /** The plateau a history shows, before deduplication. */
  function PlateauOf(node: Id, history: seq<MS.TrainingMetrics>): Option<Plateau> {
    if |history| < WINDOW_STEPS || history[|history| - 1].step <= WARMUP_STEPS then None
    else
      var slope := Slope(PlateauWindow(history));
      if Abs(slope) >= THRESHOLD || WindowMedian(history) <= 0.0 || WindowMedian(history) < BaselineMedian(history)
      then None
      else Some(Plateau(node, slope, WindowMedian(history), BaselineMedian(history)))
  }

  /**
   * The verdict in the samples' own fields: the last 50 losses over the last 50 steps have a slope within 1e-4 of
   * zero, their median throughput is positive and not below that of up to 200 samples before them, and the
   * newest step is past 20.
   */
  lemma PlateauIff(node: Id, history: seq<MS.TrainingMetrics>)
    ensures |history| < 50 ==> PlateauOf(node, history).None?
    ensures |history| >= 50 ==>
              var first := |history| - 50;
              var earlier := if first <= 200 then first else 200;
              var slope := LS.LinearSlope(seq(50, i requires 0 <= i < 50 => history[first + i].step as real),
                                          seq(50, i requires 0 <= i < 50 => history[first + i].loss));
              var pace := M.Median(seq(50, i requires 0 <= i < 50 => history[first + i].throughputTps));
              var usual := if earlier == 0 then pace
                           else M.Median(seq(earlier, i requires 0 <= i < earlier
                                                      => history[first - earlier + i].throughputTps));
              PlateauOf(node, history)
              == if history[|history| - 1].step > 20 && -0.0001 < slope < 0.0001 && 0.0 < pace && usual <= pace
                 then Some(Plateau(node, slope, pace, usual)) else None
  {
    hide M.Median, LS.LinearSlope;
    if |history| >= 50 {
      var first := |history| - 50;
      var earlier := if first <= 200 then first else 200;
      var w := PlateauWindow(history);
      assert LS.AsReals(Map(w, StepOf())) == seq(50, i requires 0 <= i < 50 => history[first + i].step as real);
      assert Map(w, LossOf()) == seq(50, i requires 0 <= i < 50 => history[first + i].loss);
      assert Map(w, ThroughputOf()) == seq(50, i requires 0 <= i < 50 => history[first + i].throughputTps);
      assert Map(LastN(history[..first], 200), ThroughputOf())
          == seq(earlier, i requires 0 <= i < earlier => history[first - earlier + i].throughputTps);
    }
  }

  /** In the fitted window the step always advances, and the loss obeys the given bounds per step. */
  ghost predicate LossFallsBy(window: seq<MS.TrainingMetrics>, rate: real) {
    && LS.Increasing(Map(window, StepOf()))
    && LS.ChangesAtMost(Map(window, StepOf()), Map(window, LossOf()), -rate)
  }

  ghost predicate LossRisesBy(window: seq<MS.TrainingMetrics>, rate: real) {
    && LS.Increasing(Map(window, StepOf()))
    && LS.ChangesAtLeast(Map(window, StepOf()), Map(window, LossOf()), rate)
  }

  ghost predicate LossMovesWithin(window: seq<MS.TrainingMetrics>, rate: real) {
    && LS.Increasing(Map(window, StepOf()))
    && LS.ChangesAtMost(Map(window, StepOf()), Map(window, LossOf()), rate)
    && LS.ChangesAtLeast(Map(window, StepOf()), Map(window, LossOf()), -rate)
  }

  /** A loss that falls by at least 1e-4 per step has a fitted slope of at most -1e-4 and raises no alert. */
  lemma FallingLossIsNoPlateau(node: Id, history: seq<MS.TrainingMetrics>)
    requires |history| >= WINDOW_STEPS && LossFallsBy(PlateauWindow(history), THRESHOLD)
    ensures Slope(PlateauWindow(history)) <= -THRESHOLD && PlateauOf(node, history).None?
  {
    var w := PlateauWindow(history);
    LS.SlopeAtMost(Map(w, StepOf()), Map(w, LossOf()), -THRESHOLD);
  }

  /** Nor does one that rises by that much. */
  lemma RisingLossIsNoPlateau(node: Id, history: seq<MS.TrainingMetrics>)
    requires |history| >= WINDOW_STEPS && LossRisesBy(PlateauWindow(history), THRESHOLD)
    ensures Slope(PlateauWindow(history)) >= THRESHOLD && PlateauOf(node, history).None?
  {
    var w := PlateauWindow(history);
    LS.SlopeAtLeast(Map(w, StepOf()), Map(w, LossOf()), THRESHOLD);
  }

  /**
   * A loss that moves by less than 1e-4 per step either way, after warm-up and at a positive throughput not
   * below its baseline, is always reported.
   */
  lemma FlatLossIsReported(node: Id, history: seq<MS.TrainingMetrics>, rate: real)
    requires |history| >= WINDOW_STEPS && history[|history| - 1].step > WARMUP_STEPS
    requires rate < THRESHOLD && LossMovesWithin(PlateauWindow(history), rate)
    requires WindowMedian(history) > 0.0 && WindowMedian(history) >= BaselineMedian(history)
    ensures PlateauOf(node, history).Some? && Abs(PlateauOf(node, history).value.slope) <= rate
  {
    FlatSlope(PlateauWindow(history), rate);
  }

  lemma FlatSlope(w: seq<MS.TrainingMetrics>, rate: real)
    requires |w| >= 2 && LossMovesWithin(w, rate)
    ensures Abs(Slope(w)) <= rate
  {
    LS.SlopeAtMost(Map(w, StepOf()), Map(w, LossOf()), rate);
    LS.SlopeAtLeast(Map(w, StepOf()), Map(w, LossOf()), -rate);
  }

  /** If most samples of the window are slower than the baseline median, it is not called a plateau. */
  lemma SlowWindowIsNoPlateau(node: Id, history: seq<MS.TrainingMetrics>)
    requires |history| >= WINDOW_STEPS
    requires 2 * Count(Map(PlateauWindow(history), ThroughputOf()), M.Below(BaselineMedian(history))) > WINDOW_STEPS
    ensures PlateauOf(node, history).None?
  {
    M.MajorityDecides(Map(PlateauWindow(history), ThroughputOf()), BaselineMedian(history));
  }

  lemma SlicesOfSuffix(all: seq<MS.TrainingMetrics>, n: nat)
    requires BASELINE_WINDOW_STEPS + WINDOW_STEPS <= n <= |all|
    ensures var shown := all[|all| - n..];
            && PlateauWindow(shown) == PlateauWindow(all)
            && LastN(shown[..n - WINDOW_STEPS], BASELINE_WINDOW_STEPS)
               == LastN(all[..|all| - WINDOW_STEPS], BASELINE_WINDOW_STEPS)
  {
  }

  /** Fetching six minutes, and keeping half an hour, never changes the verdict on the whole history. */
  lemma WindowKeepsPlateau(node: Id, all: seq<MS.TrainingMetrics>)
    ensures PlateauOf(node, MS.Window(all, WINDOW_MINUTES)) == PlateauOf(node, all)
  {
    hide Slope, M.Median, Map;
    var n := MS.WindowSize(WINDOW_MINUTES);
    if |all| > n {
      SlicesOfSuffix(all, n);
    }
  }

  function CandidateOf(p: Plateau, now: real): Candidate {
    D.Candidate(p.node, now, p)
  }

  /** What `node` shows in the last six minutes of everything it ever sent. */
  ghost function Shown(node: Id, store: MS.Store): (r: Option<Plateau>)
    reads store
    ensures r.Some? ==> r.value.node == node
  {
    PlateauOf(node, MS.Window(MS.TrainingIn(MS.BatchesFor(store.history, node)), 6))
  }

  ghost function Offered(nodeIds: seq<Id>, store: MS.Store, now: real): seq<Candidate>
    reads store
  {
    if |nodeIds| == 0 then []
    else
      var p := Shown(nodeIds[|nodeIds| - 1], store);
      Offered(nodeIds[..|nodeIds| - 1], store, now) + if p.Some? then [CandidateOf(p.value, now)] else []
  }

  lemma {:induction false} OfferedAreShown(nodeIds: seq<Id>, store: MS.Store, now: real)
    ensures forall c :: c in Offered(nodeIds, store, now)
                        <==> && c.finding.node in nodeIds
                             && Shown(c.finding.node, store) == Some(c.finding)
                             && c == CandidateOf(c.finding, now)
  {
    hide Shown;
    if |nodeIds| > 0 {
      OfferedAreShown(nodeIds[..|nodeIds| - 1], store, now);
    }
  }

  /** No alert of the node itself is less than five minutes old. */
  ghost predicate Unreported(last: map<Id, real>, node: Id, now: real) {
    node !in last || now - last[node] >= 300.0
  }

  /** A run reports a node's plateau whatever the other nodes show, unless it reported one shortly before. */
  lemma AcceptedAreUnreported(last: map<Id, real>, nodeIds: seq<Id>, store: MS.Store, now: real)
    ensures var offered := Offered(nodeIds, store, now);
            var findings := D.Accepted(last, DEDUP_COOLDOWN_SECONDS, offered);
            && (forall p :: D.Found(findings, p)
                            <==> p.node in nodeIds && Shown(p.node, store) == Some(p)
                                 && Unreported(last, p.node, now))
            && (forall c :: c in findings ==> c.now == now && c.key == c.finding.node)
            && D.OneReading(offered, now)
  {
    hide Shown, Offered, D.Accepted;
    OfferedAreShown(nodeIds, store, now);
    var offered := Offered(nodeIds, store, now);
    var findings := D.Accepted(last, DEDUP_COOLDOWN_SECONDS, offered);
    assert D.OneReading(offered, now) by {
      assert forall i :: 0 <= i < |offered| ==> offered[i] in offered;
    }
    D.AcceptedAreOffered(last, DEDUP_COOLDOWN_SECONDS, offered);
    forall p ensures D.Found(findings, p)
                     <==> && p.node in nodeIds && Shown(p.node, store) == Some(p)
                          && Unreported(last, p.node, now)
    {
      D.AcceptedIffQuiet(last, DEDUP_COOLDOWN_SECONDS, offered, now, CandidateOf(p, now));
      D.FoundIffAccepted(findings, CandidateOf(p, now));
    }
  }

  method Examine(node: Id, history: seq<MS.TrainingMetrics>) returns (r: Option<Plateau>)
    ensures r == PlateauOf(node, history)
  {
    if |history| == 0 {
      return None;
    }
    var latest := history[|history| - 1];
    if latest.step <= WARMUP_STEPS {
      return None;
    }
    if |history| < WINDOW_STEPS {
      return None;
    }
    var window := history[|history| - WINDOW_STEPS..];
    var slope := LS.LinearSlope(LS.AsReals(Map(window, StepOf())), Map(window, LossOf()));
    if Abs(slope) >= THRESHOLD {
      return None;
    }
    var windowMedian := M.Median(Map(window, ThroughputOf()));
    var before := history[..|history| - WINDOW_STEPS];
    var baselineMedian := windowMedian;
    if |before| > 0 {
      baselineMedian := M.Median(Map(LastN(before, BASELINE_WINDOW_STEPS), ThroughputOf()));
    }
    if windowMedian <= 0.0 {
      return None;
    }
    if windowMedian < baselineMedian {
      return None;
    }
    r := Some(Plateau(node, slope, windowMedian, baselineMedian));
  }

  method RunDetection(dedup: D.Deduper<Id>, nodeIds: seq<Id>, store: MS.Store, now: real)
    returns (findings: seq<Candidate>)
    requires dedup.Valid() && store.Valid() && dedup.cooldown == DEDUP_COOLDOWN_SECONDS
    modifies dedup
    ensures dedup.Valid()
    ensures var offered := Offered(nodeIds, store, now);
            && dedup.events == old(dedup.events) + D.Checks(offered) + [D.Sweep(now)]
            && findings == D.Accepted(old(dedup.last), DEDUP_COOLDOWN_SECONDS, offered)
    ensures forall p :: D.Found(findings, p)
                        <==> && p.node in nodeIds && Shown(p.node, store) == Some(p)
                             && Unreported(old(dedup.last), p.node, now)
    ensures forall c :: c in findings ==> c.now == now && c.key == c.finding.node
    ensures D.Remembers(old(dedup.last), 300.0, findings, now, dedup.last)
  {
    hide Offered, Shown, Unreported, D.Found, D.Accepted, D.After, D.Swept, D.Checks, D.Remembers, D.OneReading;
    var offered := Candidates(nodeIds, store, now);
    AcceptedAreUnreported(dedup.last, nodeIds, store, now);
    D.RunRemembers(dedup.last, DEDUP_COOLDOWN_SECONDS, offered, now);
    findings := D.OfferAll(dedup, offered, now);
  }

  method Candidates(nodeIds: seq<Id>, store: MS.Store, now: real) returns (offered: seq<Candidate>)
    requires store.Valid()
    ensures offered == Offered(nodeIds, store, now)
  {
    hide PlateauOf, MS.Window, MS.TrainingIn, MS.BatchesFor;
    offered := [];
    for i := 0 to |nodeIds|
      invariant offered == Offered(nodeIds[..i], store, now)
    {
      assert nodeIds[..i + 1][..i] == nodeIds[..i];
      var history := store.GetTrainingHistory(nodeIds[i], WINDOW_MINUTES);
      var p := Examine(nodeIds[i], history);
      if p.None? {
        continue;
      }
      offered := offered + [CandidateOf(p.value, now)];
    }
    assert nodeIds[..|nodeIds|] == nodeIds;
  }
}
