/** Detector for a latest sample far from the mean of the samples before it. */
module ZScore {
  import opened Prelude
  import opened RealSums
  import MS = MetricsStore
  import D = Dedup

  const MIN_SAMPLES: nat := 30
  const THRESHOLD := 3.0
  const MIN_STD := 0.000000001
  const DEDUP_COOLDOWN_SECONDS := 60.0

  /**
   * `|z| > 3` for the last value against all values before it, with both sides squared; undefined for too
   * few values or a standard deviation below `MIN_STD`.
   */
  predicate Flagged(values: seq<real>) {
    && |values| >= MIN_SAMPLES
    && Deviates(values[..|values| - 1], values[|values| - 1])
  }

  predicate Deviates(baseline: seq<real>, latest: real)
    requires |baseline| > 0
  {
    && Variance(baseline) >= MIN_STD * MIN_STD
    && (latest - Mean(baseline)) * (latest - Mean(baseline)) > THRESHOLD * THRESHOLD * Variance(baseline)
  }

  /**
   * Comparing squares is comparing z-scores: with the standard deviation `sigma`, the last value is flagged
   * iff there are enough values, `sigma` is not negligible, and `|z| > 3`.
   */
  lemma FlaggedIsZScore(values: seq<real>, sigma: real)
    requires |values| >= 2 && sigma >= 0.0 && sigma * sigma == Variance(values[..|values| - 1])
    ensures Flagged(values)
            <==> |values| >= 30 && sigma >= 0.000000001
                 && Abs((values[|values| - 1] - Mean(values[..|values| - 1])) / sigma) > 3.0
  {
    var baseline := values[..|values| - 1];
    var v, d := Variance(baseline), values[|values| - 1] - Mean(baseline);
    SquareOrder(MIN_STD, sigma, v);
    if sigma >= MIN_STD {
      ProductExceeds(d / sigma, d, sigma, THRESHOLD, v);
    }
  }

  lemma ScaledSquare(a: real, d: real, e: real, v: real, w: real, t: real)
    requires e == a * d && w == a * (a * v)
    ensures e * e == (a * a) * (d * d) && t * w == (a * a) * (t * v)
  {
  }

  /**
   * The verdict does not depend on the unit or the origin of the metric, as long as the spread is measurable in both.
   */
  lemma UnitsDoNotMatter(baseline: seq<real>, latest: real, a: real, b: real)
    requires |baseline| > 0 && a != 0.0
    requires Variance(baseline) >= MIN_STD * MIN_STD && Variance(Affine(a, baseline, b)) >= MIN_STD * MIN_STD
    ensures Deviates(Affine(a, baseline, b), a * latest + b) <==> Deviates(baseline, latest)
  {
    hide Mean, Variance, Affine;
    MeanAffine(a, baseline, b);
    VarianceAffine(a, baseline, b);
    var converted := Affine(a, baseline, b);
    ScaledDifference(a, latest, b, Mean(baseline));
    var d, e, t := latest - Mean(baseline), (a * latest + b) - Mean(converted), THRESHOLD * THRESHOLD;
    SquarePositive(a);
    ScaledSquare(a, d, e, Variance(baseline), Variance(converted), t);
    ScaledComparison(a * a, d * d, t * Variance(baseline), e * e, t * Variance(converted));
  }

  /** The sixty-minute window is a thirty-minute one: the ring buffer holds no more. */
  lemma LongestWindowIsThirtyMinutes<T>(all: seq<T>)
    ensures MS.Window(all, 60) == MS.Window(all, 30) == LastN(all, 1800)
  {
  }

  datatype Field = GpuTemp | GradientNorm | Loss | ThroughputTps

  const WINDOWS: seq<int> := [5, 15, 60]
  const GPU_FIELDS: seq<Field> := [GpuTemp]
  const TRAINING_FIELDS: seq<Field> := [GradientNorm, Loss, ThroughputTps]

  function TrainingField(field: Field): MS.TrainingMetrics -> real {
    (m: MS.TrainingMetrics) =>
      match field
      case GpuTemp => 0.0
      case GradientNorm => m.gradientNorm
      case Loss => m.loss
      case ThroughputTps => m.throughputTps
  }

  const GPU_TEMP_KEY := "gpu_temp_c"

  function GpuField(g: MS.GpuMetrics): real {
    if GPU_TEMP_KEY in g.fields then g.fields[GPU_TEMP_KEY] else 0.0
  }

  function SnapshotMean(): seq<MS.GpuMetrics> -> real {
    (gpus: seq<MS.GpuMetrics>) => if |gpus| > 0 then Mean(Map(gpus, GpuField)) else 0.0
  }

  datatype Target = Target(node: Id, windowMinutes: int, field: Field)

  // What one run looks at, in order.

  const FIELDS: seq<Field> := GPU_FIELDS + TRAINING_FIELDS

  /** The targets of one node: window by window, and field by field within a window. */
  function NodeTarget(node: Id, windows: seq<int>, i: nat): Target
    requires i < 4 * |windows|
  {
    Target(node, windows[i / 4], FIELDS[i % 4])
  }

  /** Every node with every window and every field, the node changing slowest and the field fastest. */
  function TargetAt(nodeIds: seq<Id>, i: nat): Target
    requires i < 12 * |nodeIds|
  {
    NodeTarget(nodeIds[i / 12], WINDOWS, i % 12)
  }

  function Targets(nodeIds: seq<Id>): (r: seq<Target>)
    ensures |r| == 12 * |nodeIds|
  {
    seq(12 * |nodeIds|, i requires 0 <= i < 12 * |nodeIds| => TargetAt(nodeIds, i))
  }

  /** The series a target stands for, out of everything its node ever sent. */
  ghost function Series(t: Target, batches: seq<MS.Batch>): seq<real> {
    if t.field == GpuTemp then Map(MS.Window(MS.GpuIn(batches), t.windowMinutes), SnapshotMean())
    else Map(MS.Window(MS.TrainingIn(batches), t.windowMinutes), TrainingField(t.field))
  }

  /** Which values those are, field by field; a GPU field absent from a reading counts as zero. */
  lemma SeriesOfField(t: Target, batches: seq<MS.Batch>)
    ensures var records, gpus := MS.Window(MS.TrainingIn(batches), t.windowMinutes),
                                 MS.Window(MS.GpuIn(batches), t.windowMinutes);
            match t.field
            case GradientNorm => Series(t, batches) == seq(|records|, i requires 0 <= i < |records|
                                                                      => records[i].gradientNorm)
            case Loss => Series(t, batches) == seq(|records|, i requires 0 <= i < |records| => records[i].loss)
            case ThroughputTps => Series(t, batches) == seq(|records|, i requires 0 <= i < |records|
                                                                       => records[i].throughputTps)
            case GpuTemp =>
              && |Series(t, batches)| == |gpus|
              && forall i :: 0 <= i < |gpus| ==> IsMeanTemperature(gpus[i], Series(t, batches)[i])
  {
    hide MS.Window, MS.TrainingIn, MS.GpuIn, Mean;
    if t.field == GpuTemp {
      var gpus := MS.Window(MS.GpuIn(batches), t.windowMinutes);
      MS.GpuSnapshotsNonEmpty(batches);
      forall i | 0 <= i < |gpus| ensures IsMeanTemperature(gpus[i], SnapshotMean()(gpus[i])) {
        assert |gpus[i]| > 0 by { MS.WindowMember(MS.GpuIn(batches), t.windowMinutes, i); }
        MeanTemperature(gpus[i]);
      }
    }
  }

  ghost predicate IsMeanTemperature(gpus: seq<MS.GpuMetrics>, mean: real) {
    |gpus| > 0 && mean == Mean(seq(|gpus|, i requires 0 <= i < |gpus| =>
                                     if "gpu_temp_c" in gpus[i].fields then gpus[i].fields["gpu_temp_c"] else 0.0))
  }

  lemma MeanTemperature(gpus: seq<MS.GpuMetrics>)
    requires |gpus| > 0
    ensures IsMeanTemperature(gpus, SnapshotMean()(gpus))
  {
    hide Mean;
    assert Map(gpus, GpuField)
        == seq(|gpus|, i requires 0 <= i < |gpus| =>
                 if "gpu_temp_c" in gpus[i].fields then gpus[i].fields["gpu_temp_c"] else 0.0);
  }

  /** Each field has its own alert type, so node and field identify an alert. */
  type Key = (Id, Field)

  type Candidate = D.Candidate<Key, Target>

  /** The flagged targets; the clock is read once for each of them. */
  ghost function Offered(targets: seq<Target>, store: MS.Store, clock: nat -> real): seq<Candidate>
    reads store
  {
    if |targets| == 0 then []
    else
      var t := targets[|targets| - 1];
      var before := Offered(targets[..|targets| - 1], store, clock);
      if Flagged(Series(t, MS.BatchesFor(store.history, t.node)))
      then before + [D.Candidate((t.node, t.field), clock(|before|), t)] else before
  }

  /** The newest value of the field is an outlier among what the window shows of the node. */
  ghost predicate Deviant(store: MS.Store, node: Id, window: int, field: Field)
    reads store
  {
    Flagged(Series(Target(node, window, field), MS.BatchesFor(store.history, node)))
  }

  /** No alert of this node for this field is less than a minute old. */
  ghost predicate Unreported(last: map<Key, real>, node: Id, field: Field, now: real) {
    (node, field) !in last || now - last[(node, field)] >= 60.0
  }

  ghost predicate OfferedFrom(c: Candidate, targets: seq<Target>, store: MS.Store, clock: nat -> real)
    reads store
  {
    && c.finding in targets && Deviant(store, c.finding.node, c.finding.windowMinutes, c.finding.field)
    && c.key == (c.finding.node, c.finding.field) && exists n :: c.now == clock(n)
  }

  lemma {:induction false} OfferedAreDeviant(targets: seq<Target>, store: MS.Store, clock: nat -> real)
    ensures forall c :: c in Offered(targets, store, clock) ==> OfferedFrom(c, targets, store, clock)
    ensures forall t :: t in targets && Deviant(store, t.node, t.windowMinutes, t.field) ==>
                          D.Offers(Offered(targets, store, clock), (t.node, t.field))
  {
    hide Flagged, Series, MS.BatchesFor;
    if |targets| > 0 {
      var rest, t := targets[..|targets| - 1], targets[|targets| - 1];
      OfferedAreDeviant(rest, store, clock);
      var before, all := Offered(rest, store, clock), Offered(targets, store, clock);
      assert forall u :: u in targets ==> u in rest || u == t;
      if Deviant(store, t.node, t.windowMinutes, t.field) {
        assert all[|before|].key == (t.node, t.field);
      }
      forall key | D.Offers(before, key) ensures D.Offers(all, key) {
        var i :| 0 <= i < |before| && before[i].key == key;
        assert all[i].key == key;
      }
    }
  }

  lemma TargetsOf(nodeIds: seq<Id>)
    ensures forall t :: t in Targets(nodeIds) <==> t.node in nodeIds && t.windowMinutes in {5, 15, 60}
  {
    hide TargetAt, NodeTarget;
    forall t | t in Targets(nodeIds) ensures t.node in nodeIds && t.windowMinutes in {5, 15, 60} {
      var i :| 0 <= i < 12 * |nodeIds| && t == TargetAt(nodeIds, i);
      TargetParts(nodeIds, i);
    }
    forall t: Target | t.node in nodeIds && t.windowMinutes in {5, 15, 60} ensures t in Targets(nodeIds) {
      var k :| 0 <= k < |nodeIds| && nodeIds[k] == t.node;
      var i := PlaceOf(t);
      TargetPosition(nodeIds, k, i);
      assert Targets(nodeIds)[12 * k + i] == t;
    }
  }

  lemma TargetParts(nodeIds: seq<Id>, i: nat)
    requires i < 12 * |nodeIds|
    ensures TargetAt(nodeIds, i).node in nodeIds && TargetAt(nodeIds, i).windowMinutes in {5, 15, 60}
  {
  }

  /** Its place among the twelve targets of its node. */
  ghost function PlaceOf(t: Target): (i: nat)
    requires t.windowMinutes in {5, 15, 60}
    ensures i < 12 && NodeTarget(t.node, WINDOWS, i) == t
  {
    (if t.windowMinutes == 5 then 0 else if t.windowMinutes == 15 then 4 else 8)
    + match t.field case GpuTemp => 0 case GradientNorm => 1 case Loss => 2 case ThroughputTps => 3
  }

  /** A node's field is reported. */
  ghost predicate Reports(findings: seq<Candidate>, node: Id, field: Field) {
    exists i :: 0 <= i < |findings| && findings[i].finding.node == node && findings[i].finding.field == field
  }

  /**
   * Whether a run reports a field of a node depends on the windows of that very node and field, and on when it
   * was last reported, whatever other nodes and fields show.
   */
  lemma AcceptedAreUnreported(last: map<Key, real>, nodeIds: seq<Id>, store: MS.Store, clock: nat -> real)
    ensures var findings := D.Accepted(last, DEDUP_COOLDOWN_SECONDS, Offered(Targets(nodeIds), store, clock));
            && (forall c :: c in findings ==> OfferedFrom(c, Targets(nodeIds), store, clock))
            && (forall node, field :: Reports(findings, node, field) ==>
                                        exists n :: Unreported(last, node, field, clock(n)))
            && (forall node, window, field ::
                  && node in nodeIds && window in {5, 15, 60} && Deviant(store, node, window, field)
                  && (forall n :: Unreported(last, node, field, clock(n))) ==>
                    Reports(findings, node, field))
  {
    hide Deviant, Offered, Targets, D.Accepted;
    TargetsOf(nodeIds);
    OfferedAreDeviant(Targets(nodeIds), store, clock);
    var offered := Offered(Targets(nodeIds), store, clock);
    var findings := D.Accepted(last, DEDUP_COOLDOWN_SECONDS, offered);
    D.AcceptedAreOffered(last, DEDUP_COOLDOWN_SECONDS, offered);
    assert forall i :: 0 <= i < |offered| ==> offered[i] in offered;
    assert forall i :: 0 <= i < |findings| ==> findings[i] in findings;
    forall node, field ensures Reports(findings, node, field) <==> D.Offers(findings, (node, field)) {
    }
    forall node, field ensures D.Offers(findings, (node, field))
                               <==> D.OffersQuiet(last, DEDUP_COOLDOWN_SECONDS, offered, (node, field))
    {
      D.AcceptedForKey(last, DEDUP_COOLDOWN_SECONDS, offered, (node, field));
    }
    forall node, window, field |
      && node in nodeIds && window in {5, 15, 60} && Deviant(store, node, window, field)
      && (forall n :: Unreported(last, node, field, clock(n)))
      ensures Reports(findings, node, field)
    {
      assert Target(node, window, field) in Targets(nodeIds);
    }
  }

  method ReadSeries(store: MS.Store, t: Target) returns (values: seq<real>)
    requires store.Valid()
    ensures values == Series(t, MS.BatchesFor(store.history, t.node))
  {
    if t.field == GpuTemp {
      var history := store.GetGpuHistory(t.node, t.windowMinutes);
      values := Map(history, SnapshotMean());
    } else {
      var history := store.GetTrainingHistory(t.node, t.windowMinutes);
      values := Map(history, TrainingField(t.field));
    }
  }

  method CheckTarget(store: MS.Store, clock: nat -> real, t: Target, ghost done: seq<Target>, offered: seq<Candidate>)
    returns (r: seq<Candidate>)
    requires store.Valid() && offered == Offered(done, store, clock)
    ensures r == Offered(done + [t], store, clock)
  {
    assert (done + [t])[..|done|] == done;
    var values := ReadSeries(store, t);
    if !Flagged(values) {
      return offered;
    }
    var now := clock(|offered|);
    r := offered + [D.Candidate((t.node, t.field), now, t)];
  }

  /** The nested loops over nodes, windows and the two kinds of fields visit every combination once, in this order. */
  method EnumerateTargets(nodeIds: seq<Id>) returns (targets: seq<Target>)
    ensures |targets| == 12 * |nodeIds|
    ensures forall i :: 0 <= i < |targets| ==> targets[i] == TargetAt(nodeIds, i)
  {
    hide NodeTarget, TargetAt;
    targets := [];
    for k := 0 to |nodeIds|
      invariant |targets| == 12 * k
      invariant forall i :: 0 <= i < |targets| ==> targets[i] == TargetAt(nodeIds, i)
    {
      var ofNode := EnumerateNode(nodeIds[k], WINDOWS);
      forall i | 0 <= i < 12 ensures ofNode[i] == TargetAt(nodeIds, 12 * k + i) {
        TargetPosition(nodeIds, k, i);
      }
      targets := targets + ofNode;
    }
  }

  /** Where a combination is visited: by the number of its node and its place within the node. */
  lemma TargetPosition(nodeIds: seq<Id>, k: nat, i: nat)
    requires k < |nodeIds| && i < 12
    ensures TargetAt(nodeIds, 12 * k + i) == NodeTarget(nodeIds[k], WINDOWS, i)
  {
    assert (12 * k + i) / 12 == k;
  }

  method EnumerateNode(node: Id, windows: seq<int>) returns (targets: seq<Target>)
    ensures |targets| == 4 * |windows|
    ensures forall i :: 0 <= i < |targets| ==> targets[i] == NodeTarget(node, windows, i)
  {
    targets := [];
    for j := 0 to |windows|
      invariant |targets| == 4 * j
      invariant forall i :: 0 <= i < |targets| ==> targets[i] == NodeTarget(node, windows, i)
    {
      var gpu := EnumerateFields(node, windows[j], GPU_FIELDS);
      var training := EnumerateFields(node, windows[j], TRAINING_FIELDS);
      targets := targets + (gpu + training);
    }
  }

  method EnumerateFields(node: Id, window: int, fields: seq<Field>) returns (targets: seq<Target>)
    ensures |targets| == |fields| && forall i :: 0 <= i < |fields| ==> targets[i] == Target(node, window, fields[i])
  {
    targets := [];
    for k := 0 to |fields|
      invariant |targets| == k && forall i :: 0 <= i < k ==> targets[i] == Target(node, window, fields[i])
    {
      targets := targets + [Target(node, window, fields[k])];
    }
  }

  method RunDetection(dedup: D.Deduper<Key>, nodeIds: seq<Id>, store: MS.Store, clock: nat -> real)
    returns (findings: seq<Candidate>)
    requires dedup.Valid() && store.Valid() && dedup.cooldown == DEDUP_COOLDOWN_SECONDS
    modifies dedup
    ensures dedup.Valid()
    ensures var offered := Offered(Targets(nodeIds), store, clock);
            && dedup.events == old(dedup.events) + D.Checks(offered) + [D.Sweep(clock(|offered|))]
            && findings == D.Accepted(old(dedup.last), DEDUP_COOLDOWN_SECONDS, offered)
    ensures forall c :: c in findings ==>
                          && c.finding.node in nodeIds && c.finding.windowMinutes in {5, 15, 60}
                          && Deviant(store, c.finding.node, c.finding.windowMinutes, c.finding.field)
    ensures forall node, field :: Reports(findings, node, field) ==>
                                    exists n :: Unreported(old(dedup.last), node, field, clock(n))
    ensures forall node, window, field ::
              && node in nodeIds && window in {5, 15, 60} && Deviant(store, node, window, field)
              && (forall n :: Unreported(old(dedup.last), node, field, clock(n))) ==>
                Reports(findings, node, field)
    ensures forall c :: c in findings ==>
                          c.key == (c.finding.node, c.finding.field) && exists n :: c.now == clock(n)
  {
    hide Deviant, Unreported, Reports, Offered, Targets, D.Accepted, D.After, D.Swept, D.Checks;
    var offered := Candidates(nodeIds, store, clock);
    AcceptedAreUnreported(dedup.last, nodeIds, store, clock);
    TargetsOf(nodeIds);
    findings := D.OfferAll(dedup, offered, clock(|offered|));
  }

  method Candidates(nodeIds: seq<Id>, store: MS.Store, clock: nat -> real) returns (offered: seq<Candidate>)
    requires store.Valid()
    ensures offered == Offered(Targets(nodeIds), store, clock)
  {
    hide Flagged, Series, TargetAt;
    var targets := EnumerateTargets(nodeIds);
    assert targets == Targets(nodeIds);
    hide Targets;
    offered := [];
    for i := 0 to |targets|
      invariant offered == Offered(targets[..i], store, clock)
    {
      assert targets[..i + 1] == targets[..i] + [targets[i]];
      offered := CheckTarget(store, clock, targets[i], targets[..i], offered);
    }
    assert targets[..|targets|] == targets;
  }
}
