/** Detector for a sustained drop of a node's throughput below a fraction of its own baseline. */
module ThroughputRegression {
  import opened Prelude
  import opened Sorting
  import M = Median
  import MS = MetricsStore
  import D = Dedup

  const BASELINE_SAMPLES: nat := 200
  const RECENT_SAMPLES: nat := 30
  const RATIO := 0.7
  const DEDUP_COOLDOWN_SECONDS := 120.0
  const WINDOW_MINUTES := MaxInt(1, (BASELINE_SAMPLES + RECENT_SAMPLES) / 60 + 2)

  datatype Regression = Regression(node: Id, recentMedian: real, baselineMedian: real, ratio: real)

  type Candidate = D.Candidate<Id, Regression>

  function Throughput(): MS.TrainingMetrics -> real {
    (m: MS.TrainingMetrics) => m.throughputTps
  }

  function Recent(history: seq<MS.TrainingMetrics>): (r: seq<real>)
    requires |history| >= BASELINE_SAMPLES + RECENT_SAMPLES
    ensures |r| == RECENT_SAMPLES
  {
    Map(history[|history| - RECENT_SAMPLES..], Throughput())
  }

  function Baseline(history: seq<MS.TrainingMetrics>): (r: seq<real>)
    requires |history| >= BASELINE_SAMPLES + RECENT_SAMPLES
    ensures |r| == BASELINE_SAMPLES
  {
    Map(history[|history| - (BASELINE_SAMPLES + RECENT_SAMPLES)..|history| - RECENT_SAMPLES], Throughput())
  }

  /** The regression a history shows, before deduplication. */
  function RegressionOf(node: Id, history: seq<MS.TrainingMetrics>): Option<Regression> {
    if |history| < BASELINE_SAMPLES + RECENT_SAMPLES then None
    else
      var baseline, recent := M.Median(Baseline(history)), M.Median(Recent(history));
      if baseline <= 0.0 || recent >= baseline * RATIO then None
      else Some(Regression(node, recent, baseline, recent / baseline))
  }

  /** The verdict in the samples' own fields: the last 30 throughputs against the 200 before them. */
  lemma RegressionIff(node: Id, history: seq<MS.TrainingMetrics>)
    ensures |history| < 230 ==> RegressionOf(node, history).None?
    ensures |history| >= 230 ==>
              var n := |history|;
              var usual := M.Median(seq(200, i requires 0 <= i < 200 => history[n - 230 + i].throughputTps));
              var recent := M.Median(seq(30, i requires 0 <= i < 30 => history[n - 30 + i].throughputTps));
              RegressionOf(node, history)
              == if usual > 0.0 && recent < 0.7 * usual then Some(Regression(node, recent, usual, recent / usual))
                 else None
  {
    hide M.Median;
    if |history| >= 230 {
      var n := |history|;
      assert Baseline(history) == seq(200, i requires 0 <= i < 200 => history[n - 230 + i].throughputTps);
      assert Recent(history) == seq(30, i requires 0 <= i < 30 => history[n - 30 + i].throughputTps);
    }
  }

  /** If most recent samples are at or above 70% of a positive baseline median, nothing is reported. */
  lemma HealthyMajority(node: Id, history: seq<MS.TrainingMetrics>)
    requires |history| >= BASELINE_SAMPLES + RECENT_SAMPLES
    requires 2 * Count(Recent(history), M.AtLeast(M.Median(Baseline(history)) * RATIO)) > RECENT_SAMPLES
    ensures RegressionOf(node, history).None?
  {
    M.MajorityDecides(Recent(history), M.Median(Baseline(history)) * RATIO);
  }

  /** If most recent samples are below it, a regression is reported. */
  lemma DegradedMajority(node: Id, history: seq<MS.TrainingMetrics>)
    requires |history| >= BASELINE_SAMPLES + RECENT_SAMPLES
    requires M.Median(Baseline(history)) > 0.0
    requires 2 * Count(Recent(history), M.Below(M.Median(Baseline(history)) * RATIO)) > RECENT_SAMPLES
    ensures RegressionOf(node, history).Some? && RegressionOf(node, history).value.ratio < RATIO
  {
    var baseline, recent := M.Median(Baseline(history)), M.Median(Recent(history));
    M.MajorityDecides(Recent(history), baseline * RATIO);
    RatioBelow(recent, baseline, RATIO);
  }

  lemma RatioBelow(x: real, y: real, r: real)
    requires y > 0.0 && x < y * r
    ensures x / y < r
  {
    var q := x / y;
    assert q * y == x;
    if q >= r {
      assert q * y >= r * y;
    }
  }

  /** Permuting samples inside the recent slice and inside the baseline slice changes nothing. */
  lemma SampleOrderIsIrrelevant(node: Id, h: seq<MS.TrainingMetrics>, g: seq<MS.TrainingMetrics>)
    requires |h| >= BASELINE_SAMPLES + RECENT_SAMPLES && |g| >= BASELINE_SAMPLES + RECENT_SAMPLES
    requires multiset(Recent(h)) == multiset(Recent(g)) && multiset(Baseline(h)) == multiset(Baseline(g))
    ensures RegressionOf(node, h) == RegressionOf(node, g)
  {
    M.MedianPermutation(Recent(h), Recent(g));
    M.MedianPermutation(Baseline(h), Baseline(g));
  }

  /** Fetching five minutes, and keeping half an hour, never changes the verdict on the whole history. */
  lemma WindowKeepsRegression(node: Id, all: seq<MS.TrainingMetrics>)
    ensures RegressionOf(node, MS.Window(all, WINDOW_MINUTES)) == RegressionOf(node, all)
  {
    var shown := MS.Window(all, WINDOW_MINUTES);
    if |all| > |shown| {
      assert |shown| == 300 && shown == all[|all| - 300..];
      assert Recent(shown) == Recent(all) && Baseline(shown) == Baseline(all);
    } else {
      assert shown == all;
    }
  }

  function CandidateOf(r: Regression, now: real): Candidate {
    D.Candidate(r.node, now, r)
  }

  /** What `node` shows in the last five minutes of everything it ever sent. */
  ghost function Shown(node: Id, store: MS.Store): (r: Option<Regression>)
    reads store
    ensures r.Some? ==> r.value.node == node
  {
    RegressionOf(node, MS.Window(MS.TrainingIn(MS.BatchesFor(store.history, node)), 5))
  }

  ghost function Offered(nodeIds: seq<Id>, store: MS.Store, now: real): seq<Candidate>
    reads store
  {
    if |nodeIds| == 0 then []
    else
      var r := Shown(nodeIds[|nodeIds| - 1], store);
      Offered(nodeIds[..|nodeIds| - 1], store, now) + if r.Some? then [CandidateOf(r.value, now)] else []
  }

  lemma {:induction false} OfferedAreShown(nodeIds: seq<Id>, store: MS.Store, now: real)
    ensures forall c :: c in Offered(nodeIds, store, now)
                        <==> && c.finding.node in nodeIds
                             && Shown(c.finding.node, store) == Some(c.finding)
                             && c == CandidateOf(c.finding, now)
  {
    hide Shown;
    if |nodeIds| > 0 {
      OfferedAreShown(nodeIds[..|nodeIds| - 1], store, now);
    }
  }

  /** No alert of the node itself is less than two minutes old. */
  ghost predicate Unreported(last: map<Id, real>, node: Id, now: real) {
    node !in last || now - last[node] >= 120.0
  }

  /** A run reports a node's regression whatever the other nodes show, unless it reported one shortly before. */
  lemma AcceptedAreUnreported(last: map<Id, real>, nodeIds: seq<Id>, store: MS.Store, now: real)
    ensures var offered := Offered(nodeIds, store, now);
            var findings := D.Accepted(last, DEDUP_COOLDOWN_SECONDS, offered);
            && (forall r :: D.Found(findings, r)
                            <==> r.node in nodeIds && Shown(r.node, store) == Some(r)
                                 && Unreported(last, r.node, now))
            && (forall c :: c in findings ==> c.now == now && c.key == c.finding.node)
            && D.OneReading(offered, now)
  {
    hide Shown, Offered, D.Accepted;
    OfferedAreShown(nodeIds, store, now);
    var offered := Offered(nodeIds, store, now);
    var findings := D.Accepted(last, DEDUP_COOLDOWN_SECONDS, offered);
    assert D.OneReading(offered, now) by {
      assert forall i :: 0 <= i < |offered| ==> offered[i] in offered;
    }
    D.AcceptedAreOffered(last, DEDUP_COOLDOWN_SECONDS, offered);
    forall r ensures D.Found(findings, r)
                     <==> && r.node in nodeIds && Shown(r.node, store) == Some(r)
                          && Unreported(last, r.node, now)
    {
      D.AcceptedIffQuiet(last, DEDUP_COOLDOWN_SECONDS, offered, now, CandidateOf(r, now));
      D.FoundIffAccepted(findings, CandidateOf(r, now));
    }
  }

  method Examine(node: Id, history: seq<MS.TrainingMetrics>) returns (r: Option<Regression>)
    ensures r == RegressionOf(node, history)
  {
    if |history| < BASELINE_SAMPLES + RECENT_SAMPLES {
      return None;
    }
    var recent := history[|history| - RECENT_SAMPLES..];
    var baseline := history[|history| - (BASELINE_SAMPLES + RECENT_SAMPLES)..|history| - RECENT_SAMPLES];
    var baselineMedian := M.Median(Map(baseline, Throughput()));
    var recentMedian := M.Median(Map(recent, Throughput()));
    if baselineMedian <= 0.0 {
      return None;
    }
    if recentMedian >= baselineMedian * RATIO {
      return None;
    }
    r := Some(Regression(node, recentMedian, baselineMedian, recentMedian / baselineMedian));
  }

  method RunDetection(dedup: D.Deduper<Id>, nodeIds: seq<Id>, store: MS.Store, now: real)
    returns (findings: seq<Candidate>)
    requires dedup.Valid() && store.Valid() && dedup.cooldown == DEDUP_COOLDOWN_SECONDS
    modifies dedup
    ensures dedup.Valid()
    ensures var offered := Offered(nodeIds, store, now);
            && dedup.events == old(dedup.events) + D.Checks(offered) + [D.Sweep(now)]
            && findings == D.Accepted(old(dedup.last), DEDUP_COOLDOWN_SECONDS, offered)
    ensures forall r :: D.Found(findings, r)
                        <==> && r.node in nodeIds && Shown(r.node, store) == Some(r)
                             && Unreported(old(dedup.last), r.node, now)
    ensures forall c :: c in findings ==> c.now == now && c.key == c.finding.node
    ensures D.Remembers(old(dedup.last), 120.0, findings, now, dedup.last)
  {
    hide Offered, Shown, Unreported, D.Found, D.Accepted, D.After, D.Swept, D.Checks, D.Remembers, D.OneReading;
    var offered := Candidates(nodeIds, store, now);
    AcceptedAreUnreported(dedup.last, nodeIds, store, now);
    D.RunRemembers(dedup.last, DEDUP_COOLDOWN_SECONDS, offered, now);
    findings := D.OfferAll(dedup, offered, now);
  }

  method Candidates(nodeIds: seq<Id>, store: MS.Store, now: real) returns (offered: seq<Candidate>)
    requires store.Valid()
    ensures offered == Offered(nodeIds, store, now)
  {
    hide RegressionOf, MS.Window, MS.TrainingIn, MS.BatchesFor;
    offered := [];
    for i := 0 to |nodeIds|
      invariant offered == Offered(nodeIds[..i], store, now)
    {
      assert nodeIds[..i + 1][..i] == nodeIds[..i];
      var history := store.GetTrainingHistory(nodeIds[i], WINDOW_MINUTES);
      var r := Examine(nodeIds[i], history);
      if r.None? {
        continue;
      }
      offered := offered + [CandidateOf(r.value, now)];
    }
    assert nodeIds[..|nodeIds|] == nodeIds;
  }
}
