/** Detectors for distributed low-communication training: drifting workers and diverging losses. */
module DiLoCoDetector {
  import opened Prelude
  import opened Sorting
  import opened RealSums
  import MS = MetricsStore

  const DIVERGENCE_OUTER_STEPS: nat := 3
  const ZSCORE_THRESHOLD := 3.0
  const MIN_STD := 0.000000001
  const RECENT_NORMS: nat := 30
  const PSEUDO_GRAD_WINDOW_MINUTES := 15
  const DIVERGENCE_WINDOW_MINUTES := 30

  // Pseudo-gradient norms across the cluster.

  function Norm(): MS.DiLoCoMetrics -> real {
    (m: MS.DiLoCoMetrics) => m.pseudoGradNorm
  }

  function HasNorm(): MS.DiLoCoMetrics -> bool {
    (m: MS.DiLoCoMetrics) => m.pseudoGradNorm > 0.0
  }

  /** Mean of a node's newest positive norms, if it has any. */
  function NodeNorm(history: seq<MS.DiLoCoMetrics>): Option<real> {
    var norms := Map(Filter(history, HasNorm()), Norm());
    if |norms| > 0 then Some(Mean(LastN(norms, RECENT_NORMS))) else None
  }

  /** Records without a positive norm do not count, wherever they are. */
  lemma OtherNormsDoNotCount(before: seq<MS.DiLoCoMetrics>, m: MS.DiLoCoMetrics, after: seq<MS.DiLoCoMetrics>)
    requires m.pseudoGradNorm <= 0.0
    ensures NodeNorm(before + [m] + after) == NodeNorm(before + after)
  {
    hide Filter;
    FilterConcat(before + [m], after, HasNorm());
    FilterAppend(before, m, HasNorm());
    FilterConcat(before, after, HasNorm());
  }

  /** When all of them do, the newest thirty are averaged. */
  lemma PositiveNorms(history: seq<MS.DiLoCoMetrics>)
    requires forall i :: 0 <= i < |history| ==> history[i].pseudoGradNorm > 0.0
    ensures |history| == 0 ==> NodeNorm(history) == None
    ensures |history| > 0 ==>
              var n := if |history| <= 30 then |history| else 30;
              NodeNorm(history)
              == Some(Mean(seq(n, i requires 0 <= i < n => history[|history| - n + i].pseudoGradNorm)))
  {
    hide Mean;
    FilterEverything(history, HasNorm());
    if |history| > 0 {
      var n := if |history| <= 30 then |history| else 30;
      assert LastN(Map(history, Norm()), RECENT_NORMS)
          == seq(n, i requires 0 <= i < n => history[|history| - n + i].pseudoGradNorm);
    }
  }

  datatype Entry = Entry(node: Id, norm: real)

  function Values(entries: seq<Entry>): (r: seq<real>)
    ensures |r| == |entries|
    ensures forall i :: 0 <= i < |r| ==> r[i] == entries[i].norm
  {
    Map(entries, (e: Entry) => e.norm)
  }

  /** `|z| > 3`, squared on both sides. */
  predicate Outlier(norm: real, mean: real, variance: real) {
    (norm - mean) * (norm - mean) > ZSCORE_THRESHOLD * ZSCORE_THRESHOLD * variance
  }

  /** The entries flagged among `entries` against a given mean and variance. */
  function Outliers(entries: seq<Entry>, mean: real, variance: real): (r: seq<Id>)
    ensures |r| <= |entries|
  {
    if |entries| == 0 then []
    else
      var rest := Outliers(entries[..|entries| - 1], mean, variance);
      var e := entries[|entries| - 1];
      if Outlier(e.norm, mean, variance) then rest + [e.node] else rest
  }

  /** The nodes the cluster check reports; none below two nodes or for a vanishing spread. */
  function FlaggedNodes(entries: seq<Entry>): (r: seq<Id>) {
    if |entries| < 2 || Variance(Values(entries)) < MIN_STD * MIN_STD then []
    else Outliers(entries, Mean(Values(entries)), Variance(Values(entries)))
  }

  method DetectPseudoGradDivergence(nodeIds: seq<Id>, store: MS.Store) returns (flagged: seq<Id>)
    requires store.Valid()
    ensures flagged == if |nodeIds| < 2 then [] else FlaggedNodes(ClusterNorms(nodeIds, store))
  {
    if |nodeIds| < 2 {
      return [];
    }
    var nodeNorms := GatherNorms(nodeIds, store);
    if |nodeNorms| < 2 {
      return [];
    }
    var mean, variance := Mean(Values(nodeNorms)), Variance(Values(nodeNorms));
    if variance < MIN_STD * MIN_STD {
      return [];
    }
    flagged := CollectOutliers(nodeNorms, mean, variance);
  }

  method GatherNorms(nodeIds: seq<Id>, store: MS.Store) returns (nodeNorms: seq<Entry>)
    requires store.Valid()
    ensures nodeNorms == ClusterNorms(nodeIds, store)
  {
    hide NodeNorm, MS.Window, MS.DiLoCoIn;
    nodeNorms := [];
    for i := 0 to |nodeIds|
      invariant nodeNorms == ClusterNorms(nodeIds[..i], store)
    {
      assert nodeIds[..i + 1][..i] == nodeIds[..i];
      var history := store.GetDiLoCoHistory(nodeIds[i], PSEUDO_GRAD_WINDOW_MINUTES);
      var norm := NodeNorm(history);
      if norm.Some? {
        nodeNorms := nodeNorms + [Entry(nodeIds[i], norm.value)];
      }
    }
    assert nodeIds[..|nodeIds|] == nodeIds;
  }

  method CollectOutliers(entries: seq<Entry>, mean: real, variance: real) returns (flagged: seq<Id>)
    ensures flagged == Outliers(entries, mean, variance)
  {
    hide Outlier;
    flagged := [];
    for i := 0 to |entries|
      invariant flagged == Outliers(entries[..i], mean, variance)
    {
      assert entries[..i + 1][..i] == entries[..i];
      if Outlier(entries[i].norm, mean, variance) {
        flagged := flagged + [entries[i].node];
      }
    }
    assert entries[..|entries|] == entries;
  }

  ghost function ClusterNorms(nodeIds: seq<Id>, store: MS.Store): seq<Entry>
    reads store
  {
    if |nodeIds| == 0 then []
    else
      var node := nodeIds[|nodeIds| - 1];
      var norm := NodeNorm(MS.Window(MS.DiLoCoIn(MS.BatchesFor(store.history, node)), 15));
      ClusterNorms(nodeIds[..|nodeIds| - 1], store) + if norm.Some? then [Entry(node, norm.value)] else []
  }

  lemma {:induction false} OutliersAre(entries: seq<Entry>, mean: real, v: real, node: Id)
    ensures node in Outliers(entries, mean, v)
            <==> exists i :: 0 <= i < |entries| && entries[i].node == node && Outlier(entries[i].norm, mean, v)
  {
    if |entries| > 0 {
      var shorter := entries[..|entries| - 1];
      OutliersAre(shorter, mean, v, node);
      if i :| 0 <= i < |entries| && entries[i].node == node && Outlier(entries[i].norm, mean, v) {
        assert i < |shorter| ==> shorter[i] == entries[i];
      }
    }
  }

  ghost predicate Exceeds(norm: real, mean: real, sigma: real)
    requires sigma > 0.0
  {
    Abs((norm - mean) / sigma) > 3.0
  }

  lemma OutlierIsZScore(norm: real, mean: real, sigma: real, v: real)
    requires sigma > 0.0 && v == sigma * sigma
    ensures Outlier(norm, mean, v) <==> Exceeds(norm, mean, sigma)
  {
    ProductExceeds((norm - mean) / sigma, norm - mean, sigma, ZSCORE_THRESHOLD, v);
  }

  /**
   * Comparing squares is comparing z-scores: with the standard deviation `sigma`, a node is flagged iff
   * `sigma` is not negligible and the node has a norm with `|z| > 3`.
   */
  lemma FlaggedIsZScore(entries: seq<Entry>, sigma: real, node: Id)
    requires |entries| >= 2 && sigma >= 0.0 && sigma * sigma == Variance(Values(entries))
    ensures node in FlaggedNodes(entries)
            <==> sigma >= 0.000000001
                 && exists i :: 0 <= i < |entries| && entries[i].node == node
                                && Exceeds(entries[i].norm, Mean(Values(entries)), sigma)
  {
    var mean, v := Mean(Values(entries)), Variance(Values(entries));
    hide Mean, Variance, Values, Outliers, Outlier, Exceeds;
    SquareOrder(MIN_STD, sigma, v);
    OutliersAre(entries, mean, v, node);
    if sigma >= MIN_STD {
      forall i | 0 <= i < |entries|
        ensures Outlier(entries[i].norm, mean, v) <==> Exceeds(entries[i].norm, mean, sigma)
      {
        OutlierIsZScore(entries[i].norm, mean, sigma, v);
      }
    }
  }

  /** With no more than ten nodes nobody is ever flagged, whatever the norms: the threshold is out of reach. */
  lemma SmallClustersAreNeverFlagged(entries: seq<Entry>)
    requires |entries| <= 10
    ensures FlaggedNodes(entries) == []
  {
    if |entries| >= 2 && Variance(Values(entries)) >= MIN_STD * MIN_STD {
      var mean, v := Mean(Values(entries)), Variance(Values(entries));
      forall i | 0 <= i < |entries| ensures !Outlier(entries[i].norm, mean, v) {
        Samuelson(Values(entries), i);
        WithinThreshold(Centred(Values(entries))[i], entries[i].norm, mean, (|entries| - 1) as real, v);
      }
      NobodyIsFlagged(entries, mean, v);
    }
  }

  lemma WithinThreshold(d: real, norm: real, mean: real, n: real, v: real)
    requires d == norm - mean && d * d <= n * v && n <= 9.0 && v >= 0.0
    ensures !Outlier(norm, mean, v)
  {
    assert (9.0 - n) * v >= 0.0;
    assert (norm - mean) * (norm - mean) == d * d;
  }

  lemma {:induction false} NobodyIsFlagged(entries: seq<Entry>, mean: real, v: real)
    requires forall i :: 0 <= i < |entries| ==> !Outlier(entries[i].norm, mean, v)
    ensures Outliers(entries, mean, v) == []
  {
    if |entries| > 0 {
      NobodyIsFlagged(entries[..|entries| - 1], mean, v);
    }
  }

  /** Fewer than a ninth of the nodes are ever flagged. */
  lemma FewAreFlagged(entries: seq<Entry>)
    requires |entries| > 0
    ensures 9 * |FlaggedNodes(entries)| < |entries|
  {
    if |entries| >= 2 && Variance(Values(entries)) >= MIN_STD * MIN_STD {
      var s := Values(entries);
      OutliersWeigh(entries, Mean(s), Variance(s));
      assert SquaredDeviations(entries, Mean(s)) == Dot(Centred(s), Centred(s));
      NinthBound(Dot(Centred(s), Centred(s)), |Outliers(entries, Mean(s), Variance(s))|, |s|, Variance(s));
    }
  }

  /** `c` deviations beyond three standard deviations in a sum of squares `q`. */
  ghost predicate Weighs(q: real, c: nat, v: real) {
    q >= 9.0 * v * c as real && (c > 0 ==> q > 9.0 * v * c as real)
  }

  lemma NinthBound(q: real, c: nat, n: nat, v: real)
    requires n > 0 && v > 0.0 && v == q / n as real && Weighs(q, c, v)
    ensures 9 * c < n
  {
    assert q == n as real * v;
    if c > 0 {
      SmallerFactor(9.0 * c as real, n as real, v);
    }
  }

  lemma SmallerFactor(x: real, y: real, v: real)
    requires v > 0.0 && y * v > x * v
    ensures x < y
  {
  }

  lemma WeighsMore(q: real, q': real, c: nat, c': nat, v: real, d: real, norm: real, mean: real)
    requires v > 0.0 && d == norm - mean && Weighs(q, c, v) && q' == q + d * d
    requires c' == if Outlier(norm, mean, v) then c + 1 else c
    ensures Weighs(q', c', v)
  {
    assert (norm - mean) * (norm - mean) == d * d;
    assert (c + 1) as real == c as real + 1.0;
    assert 9.0 * v * (c as real + 1.0) == 9.0 * v * c as real + 9.0 * v;
    Square(d);
  }

  lemma LastDeviation(entries: seq<Entry>, mean: real)
    requires |entries| > 0
    ensures var k, u := |entries| - 1, Dev(Values(entries), mean);
            u[k] == entries[k].norm - mean && Dev(Values(entries[..k]), mean) == u[..k] + u[k + 1..]
  {
  }

  lemma LastOutlier(entries: seq<Entry>, mean: real, v: real)
    requires |entries| > 0
    ensures var k := |entries| - 1;
            |Outliers(entries, mean, v)|
            == |Outliers(entries[..k], mean, v)| + if Outlier(entries[k].norm, mean, v) then 1 else 0
  {
  }

  ghost function SquaredDeviations(entries: seq<Entry>, mean: real): real {
    Dot(Dev(Values(entries), mean), Dev(Values(entries), mean))
  }

  lemma LastSquare(entries: seq<Entry>, mean: real)
    requires |entries| > 0
    ensures var k := |entries| - 1;
            var d := entries[k].norm - mean;
            SquaredDeviations(entries, mean) == SquaredDeviations(entries[..k], mean) + d * d
  {
    hide Dot, Dev, Values;
    LastDeviation(entries, mean);
    SplitAt(Dev(Values(entries), mean), |entries| - 1);
  }

  /** The flagged nodes alone account for more than nine variances each. */
  lemma {:induction false} OutliersWeigh(entries: seq<Entry>, mean: real, v: real)
    requires v > 0.0
    ensures Weighs(SquaredDeviations(entries, mean), |Outliers(entries, mean, v)|, v)
  {
    if |entries| > 0 {
      hide Weighs, Outliers, Outlier, SquaredDeviations;
      var k := |entries| - 1;
      var rest := entries[..k];
      OutliersWeigh(rest, mean, v);
      LastOutlier(entries, mean, v);
      LastSquare(entries, mean);
      WeighsMore(SquaredDeviations(rest, mean), SquaredDeviations(entries, mean), |Outliers(rest, mean, v)|,
                 |Outliers(entries, mean, v)|, v, entries[k].norm - mean, entries[k].norm, mean);
    }
  }

  /** One node at `n + 1`, and `n - 1` nodes at 1. */
  function Lopsided(n: nat): (r: seq<Entry>)
    ensures |r| == n
  {
    seq(n, i => Entry(i, if i == 0 then n as real + 1.0 else 1.0))
  }

  lemma LopsidedShape(n: nat)
    requires n >= 1
    ensures var v := Values(Lopsided(n));
            v[0] == n as real + 1.0 && v[1..] == Constant(n - 1, 1.0) && v == [n as real + 1.0] + Constant(n - 1, 1.0)
  {
  }

  lemma LopsidedMean(n: nat)
    requires n >= 1
    ensures Mean(Values(Lopsided(n))) == 2.0
  {
    LopsidedShape(n);
    hide Lopsided, Constant;
    SumOnes(n - 1);
    TwoPer(Sum(Values(Lopsided(n))), n as real);
  }

  lemma LopsidedMoments(n: nat)
    requires n >= 1
    ensures var v := Values(Lopsided(n));
            Mean(v) == 2.0 && Variance(v) == (n - 1) as real && Centred(v)[0] == (n - 1) as real
  {
    LopsidedMean(n);
    LopsidedShape(n);
    var u := Centred(Values(Lopsided(n)));
    hide Mean, Lopsided;
    assert u[1..] == Constant(n - 1, -1.0);
    SquaresOfMinusOne(n - 1);
    LopsidedVariance(n as real, Dot(u, u), u[0]);
  }

  lemma TwoPer(total: real, n: real)
    requires n > 0.0 && total == 2.0 * n
    ensures total / n == 2.0
  {
  }

  lemma LopsidedVariance(n: real, q: real, d: real)
    requires n > 0.0 && d == n - 1.0 && q == d * d + d
    ensures q / n == n - 1.0
  {
    assert q == n * (n - 1.0);
    DivideScaled(n, n - 1.0, n);
    DivideScaled(n - 1.0, n, n);
  }

  lemma {:induction false} SquaresOfMinusOne(n: nat)
    ensures Dot(Constant(n, -1.0), Constant(n, -1.0)) == n as real
  {
    if n > 0 {
      SquaresOfMinusOne(n - 1);
      assert Constant(n, -1.0)[1..] == Constant(n - 1, -1.0);
    }
  }

  /** The bound of ten is sharp: in every larger cluster some norms get a node flagged. */
  lemma LargerClustersCanBeFlagged(n: nat)
    requires n >= 11
    ensures 0 in FlaggedNodes(Lopsided(n))
  {
    var entries := Lopsided(n);
    LopsidedMoments(n);
    var d := (n - 1) as real;
    assert d * d > 9.0 * d by {
      assert (d - 9.0) * d > 0.0;
    }
    FirstIsReported(entries, 2.0, d);
  }

  lemma {:induction false} FirstIsReported(entries: seq<Entry>, mean: real, v: real)
    requires |entries| > 0 && Outlier(entries[0].norm, mean, v)
    ensures entries[0].node in Outliers(entries, mean, v)
  {
    if |entries| > 1 {
      FirstIsReported(entries[..|entries| - 1], mean, v);
    }
  }

  // Inner loss falling while outer loss rises.

  datatype Losses = Losses(inner: real, outer: real)

  /** The latest losses recorded for each outer step, and the steps in the order of their first record. */
  datatype ByStep = ByStep(steps: seq<int>, losses: map<int, Losses>)

  function AsReal(): int -> real {
    (s: int) => s as real
  }

  function Record(b: ByStep, m: MS.DiLoCoMetrics): ByStep {
    ByStep(if m.outerStep in b.losses then b.steps else b.steps + [m.outerStep],
           b.losses[m.outerStep := Losses(m.innerLoss, m.outerLoss)])
  }

  function Grouped(history: seq<MS.DiLoCoMetrics>): ByStep {
    if |history| == 0 then ByStep([], map[])
    else Record(Grouped(history[..|history| - 1]), history[|history| - 1])
  }

  ghost predicate Coherent(b: ByStep) {
    && (forall s :: s in b.steps <==> s in b.losses)
    && Distinct(b.steps)
  }

  lemma {:induction false} GroupedCoherent(history: seq<MS.DiLoCoMetrics>)
    ensures Coherent(Grouped(history))
  {
    if |history| > 0 {
      GroupedCoherent(history[..|history| - 1]);
      var b, s := Grouped(history[..|history| - 1]), history[|history| - 1].outerStep;
      assert s !in b.losses ==> s !in b.steps;
    }
  }

  /** The outer steps a verdict looks at: the newest four, in increasing order. */
  function RecentSteps(b: ByStep): seq<int> {
    LastN(Sort(b.steps, AsReal()), DIVERGENCE_OUTER_STEPS + 1)
  }

  predicate DivergesAt(prev: Losses, curr: Losses) {
    curr.inner < prev.inner && curr.outer > prev.outer
  }

  /** Between each two neighbours of the newest four outer steps the inner loss fell and the outer loss rose. */
  ghost predicate Diverging(b: ByStep)
    requires forall s :: s in b.steps ==> s in b.losses
  {
    var recent := RecentSteps(b);
    RecentStepsRecorded(b);
    && |recent| == DIVERGENCE_OUTER_STEPS + 1
    && forall i :: 0 < i < |recent| ==> DivergesAt(b.losses[recent[i - 1]], b.losses[recent[i]])
  }

  lemma RecentStepsRecorded(b: ByStep)
    requires forall s :: s in b.steps ==> s in b.losses
    ensures forall i :: 0 <= i < |RecentSteps(b)| ==> RecentSteps(b)[i] in b.losses
  {
    hide Sort;
    var sorted, recent := Sort(b.steps, AsReal()), RecentSteps(b);
    forall i | 0 <= i < |recent| ensures recent[i] in b.losses {
      assert recent[i] == sorted[|sorted| - |recent| + i];
      SortMember(b.steps, AsReal(), recent[i]);
    }
  }

  /** Few records cannot have many outer steps, so the check on their number only saves work. */
  lemma {:induction false} FewRecords(history: seq<MS.DiLoCoMetrics>)
    ensures |Grouped(history).steps| <= |history|
  {
    if |history| > 0 {
      FewRecords(history[..|history| - 1]);
    }
  }

  // The same in the records' own fields.

  /** The record at `i` is the last one of its outer step. */
  ghost predicate LastOfStep(history: seq<MS.DiLoCoMetrics>, i: nat) {
    i < |history| && forall j :: i < j < |history| ==> history[j].outerStep != history[i].outerStep
  }

  /** Where the last records of the newest four outer steps are, in the order of those steps. */
  ghost predicate NewestFour(history: seq<MS.DiLoCoMetrics>, at: seq<nat>) {
    && |at| == 4
    && (forall i :: 0 <= i < 4 ==> LastOfStep(history, at[i]))
    && (forall i, j :: 0 <= i < j < 4 ==> history[at[i]].outerStep < history[at[j]].outerStep)
    && forall k :: 0 <= k < |history| ==> IsOneOf(history, at, k) || history[k].outerStep < history[at[0]].outerStep
  }

  ghost predicate IsOneOf(history: seq<MS.DiLoCoMetrics>, at: seq<nat>, k: nat)
    requires k < |history| && forall i :: 0 <= i < |at| ==> at[i] < |history|
  {
    exists i :: 0 <= i < |at| && history[at[i]].outerStep == history[k].outerStep
  }

  /** From `p` to `q` the inner loss falls and the outer loss rises. */
  ghost predicate Splits(p: MS.DiLoCoMetrics, q: MS.DiLoCoMetrics) {
    q.innerLoss < p.innerLoss && q.outerLoss > p.outerLoss
  }

  ghost predicate SplitsAlong(history: seq<MS.DiLoCoMetrics>, at: seq<nat>)
    requires NewestFour(history, at)
  {
    forall i :: 0 < i < 4 ==> Splits(history[at[i - 1]], history[at[i]])
  }

  /** The losses split between all neighbours among the last records of the newest four outer steps. */
  ghost predicate LossesSplit(history: seq<MS.DiLoCoMetrics>) {
    exists at :: NewestFour(history, at) && SplitsAlong(history, at)
  }

  lemma {:induction false} LastRecord(history: seq<MS.DiLoCoMetrics>, s: int) returns (k: nat)
    requires s in Grouped(history).losses
    ensures LastOfStep(history, k) && k < |history| && history[k].outerStep == s
  {
    var n := |history| - 1;
    if history[n].outerStep == s {
      k := n;
    } else {
      k := LastRecord(history[..n], s);
    }
  }

  lemma {:induction false} EveryStepIsGrouped(history: seq<MS.DiLoCoMetrics>, j: nat)
    requires j < |history|
    ensures history[j].outerStep in Grouped(history).losses
  {
    if j < |history| - 1 {
      EveryStepIsGrouped(history[..|history| - 1], j);
    }
  }

  ghost predicate Rising(s: seq<int>) {
    forall i, j :: 0 <= i < j < |s| ==> s[i] < s[j]
  }

  lemma SortedSteps(b: ByStep)
    requires Coherent(b)
    ensures Rising(Sort(b.steps, AsReal())) && |Sort(b.steps, AsReal())| == |b.steps|
    ensures forall s :: s in Sort(b.steps, AsReal()) <==> s in b.losses
  {
    hide Sort;
    var sorted := Sort(b.steps, AsReal());
    SortSorted(b.steps, AsReal());
    DistinctPermutation(b.steps, sorted);
    forall i, j | 0 <= i < j < |sorted| ensures sorted[i] < sorted[j] {
      assert AsReal()(sorted[i]) <= AsReal()(sorted[j]);
    }
    forall s ensures s in sorted <==> s in b.losses {
      SortMember(b.steps, AsReal(), s);
    }
  }

  /** The greatest elements of a rising sequence are its last ones. */
  lemma {:induction false} GreatestAreLast(s: seq<int>, top: seq<int>)
    requires Rising(s) && Rising(top) && Greatest(s, top)
    ensures LastN(s, |top|) == top
  {
    hide Rising, Greatest;
    if |top| > 0 {
      SomeGreatest(s, top);
      LastIsGreatest(s, top);
      WithoutGreatest(s, top);
      GreatestAreLast(s[..|s| - 1], top[..|top| - 1]);
    }
  }

  /** All of `top` is in `s`, and all else in `s` is below it. */
  ghost predicate Greatest(s: seq<int>, top: seq<int>) {
    && (forall x :: x in top ==> x in s)
    && forall x, y :: x in s && x !in top && y in top ==> x < y
  }

  lemma SomeGreatest(s: seq<int>, top: seq<int>)
    requires Greatest(s, top) && |top| > 0
    ensures |s| > 0
  {
    var x := top[0];
    assert x in top && x in s;
  }

  lemma WithoutGreatest(s: seq<int>, top: seq<int>)
    requires Rising(s) && Rising(top) && |top| > 0 && |s| > 0 && Greatest(s, top)
    requires s[|s| - 1] == top[|top| - 1]
    ensures var s', rest := s[..|s| - 1], top[..|top| - 1];
            Rising(s') && Rising(rest) && Greatest(s', rest)
  {
    var x, s', rest := top[|top| - 1], s[..|s| - 1], top[..|top| - 1];
    BelowLast(s);
    BelowLast(top);
    forall y, z | y in s' && y !in rest && z in rest ensures y < z {
      assert y in s && y < x && y !in top && z in top;
    }
    forall z | z in rest ensures z in s' {
      assert z in top && z < x;
    }
  }

  lemma BelowLast(s: seq<int>)
    requires Rising(s) && |s| > 0
    ensures Rising(s[..|s| - 1])
    ensures forall y :: y in s[..|s| - 1] <==> y in s && y < s[|s| - 1]
  {
  }

  lemma LastIsGreatest(s: seq<int>, top: seq<int>)
    requires Rising(s) && Rising(top) && |top| > 0 && |s| > 0 && Greatest(s, top)
    ensures s[|s| - 1] == top[|top| - 1]
  {
    var x, y := s[|s| - 1], top[|top| - 1];
    assert x in s && y in top && y in s;
    if x in top {
      assert x <= y;
    }
  }

  lemma RecentAre(g: ByStep, top: seq<int>)
    requires Coherent(g) && Rising(top) && |top| == 4
    requires forall x :: x in top ==> x in g.losses
    requires forall x, y :: x in g.losses && x !in top && y in top ==> x < y
    ensures RecentSteps(g) == top
  {
    hide Sort, Rising;
    SortedSteps(g);
    GreatestAreLast(Sort(g.steps, AsReal()), top);
  }

  ghost function StepsAt(history: seq<MS.DiLoCoMetrics>, at: seq<nat>): (top: seq<int>)
    requires forall i :: 0 <= i < |at| ==> at[i] < |history|
    ensures |top| == |at| && forall i :: 0 <= i < |at| ==> top[i] == history[at[i]].outerStep
  {
    seq(|at|, i requires 0 <= i < |at| => history[at[i]].outerStep)
  }

  lemma FourAreRecent(history: seq<MS.DiLoCoMetrics>, at: seq<nat>)
    requires NewestFour(history, at) && Coherent(Grouped(history))
    ensures RecentSteps(Grouped(history)) == StepsAt(history, at)
  {
    hide Grouped, RecentSteps;
    var top := StepsAt(history, at);
    forall x | x in top ensures x in Grouped(history).losses {
      var i :| 0 <= i < 4 && top[i] == x;
      EveryStepIsGrouped(history, at[i]);
    }
    forall x, y | x in Grouped(history).losses && x !in top && y in top ensures x < y {
      var k := LastRecord(history, x);
      NotAmongSteps(history, at, k);
      assert top[0] <= y;
    }
    RecentAre(Grouped(history), top);
  }

  lemma NotAmongSteps(history: seq<MS.DiLoCoMetrics>, at: seq<nat>, k: nat)
    requires k < |history| && forall i :: 0 <= i < |at| ==> at[i] < |history|
    requires history[k].outerStep !in StepsAt(history, at)
    ensures !IsOneOf(history, at, k)
  {
    var top := StepsAt(history, at);
    assert forall i :: 0 <= i < |at| ==> top[i] in top;
  }

  lemma FourDecide(history: seq<MS.DiLoCoMetrics>, at: seq<nat>)
    requires NewestFour(history, at) && Coherent(Grouped(history))
    ensures Diverging(Grouped(history)) <==> SplitsAlong(history, at)
  {
    FourAreRecent(history, at);
    hide Grouped, RecentSteps, NewestFour, LastOfStep;
    InHistory(history, at);
    RecentStepsRecorded(Grouped(history));
    var g := Grouped(history);
    forall i | 0 <= i < 4
      ensures RecentSteps(g)[i] in g.losses
      ensures g.losses[RecentSteps(g)[i]] == Losses(history[at[i]].innerLoss, history[at[i]].outerLoss)
    {
      LossesAt(history, at[i]);
    }
  }

  lemma InHistory(history: seq<MS.DiLoCoMetrics>, at: seq<nat>)
    requires NewestFour(history, at)
    ensures |at| == 4 && forall i :: 0 <= i < 4 ==> at[i] < |history| && LastOfStep(history, at[i])
  {
  }

  lemma LossesAt(history: seq<MS.DiLoCoMetrics>, k: nat)
    requires LastOfStep(history, k)
    ensures var s, g := history[k].outerStep, Grouped(history);
            s in g.losses && g.losses[s] == Losses(history[k].innerLoss, history[k].outerLoss)
  {
    LatestRecordWins(history, k);
  }

  lemma RecentAreFour(history: seq<MS.DiLoCoMetrics>) returns (at: seq<nat>)
    requires Coherent(Grouped(history)) && |RecentSteps(Grouped(history))| == 4
    ensures NewestFour(history, at)
  {
    hide Grouped, RecentSteps, LastOfStep;
    var recent := RecentSteps(Grouped(history));
    RecentStepsRecorded(Grouped(history));
    at := [];
    while |at| < 4
      invariant |at| <= 4
      invariant forall i :: 0 <= i < |at| ==>
                  LastOfStep(history, at[i]) && at[i] < |history| && history[at[i]].outerStep == recent[i]
    {
      var k := LastRecord(history, recent[|at|]);
      at := at + [k];
    }
    RecentAreNewestFour(history, at);
  }

  lemma RecentAreNewestFour(history: seq<MS.DiLoCoMetrics>, at: seq<nat>)
    requires Coherent(Grouped(history)) && |RecentSteps(Grouped(history))| == |at| == 4
    requires forall i :: 0 <= i < 4 ==>
               && LastOfStep(history, at[i]) && at[i] < |history|
               && history[at[i]].outerStep == RecentSteps(Grouped(history))[i]
    ensures NewestFour(history, at)
  {
    hide Grouped, RecentSteps, LastOfStep, IsOneOf, Coherent;
    RecentRise(Grouped(history));
    forall k | 0 <= k < |history|
      ensures IsOneOf(history, at, k) || history[k].outerStep < history[at[0]].outerStep
    {
      RecentOrOlder(history, at, k);
    }
  }

  lemma RecentOrOlder(history: seq<MS.DiLoCoMetrics>, at: seq<nat>, k: nat)
    requires Coherent(Grouped(history)) && |RecentSteps(Grouped(history))| == |at| == 4 && k < |history|
    requires forall i :: 0 <= i < 4 ==>
               at[i] < |history| && history[at[i]].outerStep == RecentSteps(Grouped(history))[i]
    ensures IsOneOf(history, at, k) || history[k].outerStep < history[at[0]].outerStep
  {
    hide Grouped, RecentSteps;
    var recent := RecentSteps(Grouped(history));
    EveryStepIsGrouped(history, k);
    if history[k].outerStep in recent {
      var i :| 0 <= i < 4 && recent[i] == history[k].outerStep;
      assert history[at[i]].outerStep == history[k].outerStep;
    } else {
      RecentStepsAreNewest(Grouped(history), history[k].outerStep, 0);
    }
  }

  lemma RecentRise(b: ByStep)
    requires Coherent(b)
    ensures Rising(RecentSteps(b))
  {
    hide Sort;
    SortedSteps(b);
  }

  lemma DivergingIff(history: seq<MS.DiLoCoMetrics>)
    requires Coherent(Grouped(history))
    ensures Diverging(Grouped(history)) <==> LossesSplit(history)
  {
    hide Grouped, RecentSteps, NewestFour, SplitsAlong;
    if Diverging(Grouped(history)) {
      var at := RecentAreFour(history);
      FourDecide(history, at);
    }
    if LossesSplit(history) {
      var at: seq<nat> :| NewestFour(history, at) && SplitsAlong(history, at);
      FourDecide(history, at);
    }
  }

  /** With increasing outer steps those are simply the last four records. */
  lemma LastFourDecide(history: seq<MS.DiLoCoMetrics>)
    requires forall i, j :: 0 <= i < j < |history| ==> history[i].outerStep < history[j].outerStep
    ensures var n := |history|;
            LossesSplit(history)
            <==> n >= 4 && Splits(history[n - 4], history[n - 3]) && Splits(history[n - 3], history[n - 2])
                 && Splits(history[n - 2], history[n - 1])
  {
    hide Grouped, Diverging, LossesSplit, NewestFour, LastOfStep, Splits;
    GroupedCoherent(history);
    DivergingIff(history);
    if |history| >= 4 {
      LastFour(history);
      FourDecide(history, LastIndices(|history|));
      AlongFour(history, LastIndices(|history|));
    } else {
      FewNeverDiverge(history);
    }
  }

  ghost function LastIndices(n: nat): (at: seq<nat>)
    requires n >= 4
    ensures |at| == 4 && forall i :: 0 <= i < 4 ==> at[i] == n - 4 + i
  {
    [n - 4, n - 3, n - 2, n - 1]
  }

  lemma FewNeverDiverge(history: seq<MS.DiLoCoMetrics>)
    requires |history| < 4 && Coherent(Grouped(history))
    ensures !Diverging(Grouped(history))
  {
    FewRecords(history);
  }

  lemma AlongFour(history: seq<MS.DiLoCoMetrics>, at: seq<nat>)
    requires NewestFour(history, at)
    ensures |at| == 4 && forall i :: 0 <= i < 4 ==> at[i] < |history|
    ensures SplitsAlong(history, at)
            <==> && Splits(history[at[0]], history[at[1]]) && Splits(history[at[1]], history[at[2]])
                 && Splits(history[at[2]], history[at[3]])
  {
    hide Splits;
    assert SplitsAlong(history, at) ==> Splits(history[at[1 - 1]], history[at[1]]);
    assert SplitsAlong(history, at) ==> Splits(history[at[2 - 1]], history[at[2]]);
    assert SplitsAlong(history, at) ==> Splits(history[at[3 - 1]], history[at[3]]);
  }

  lemma LastFour(history: seq<MS.DiLoCoMetrics>)
    requires forall i, j :: 0 <= i < j < |history| ==> history[i].outerStep < history[j].outerStep
    requires |history| >= 4
    ensures NewestFour(history, LastIndices(|history|))
  {
    hide LastIndices, IsOneOf;
    var n, at := |history|, LastIndices(|history|);
    forall k | 0 <= k < n ensures IsOneOf(history, at, k) || history[k].outerStep < history[at[0]].outerStep {
      if k >= n - 4 {
        AtIndex(history, at, k, k - (n - 4));
      }
    }
  }

  lemma AtIndex(history: seq<MS.DiLoCoMetrics>, at: seq<nat>, k: nat, i: nat)
    requires forall j :: 0 <= j < |at| ==> at[j] < |history|
    requires i < |at| && at[i] == k
    ensures IsOneOf(history, at, k)
  {
  }

  /** The verdict counts diverging pairs and compares with three, which out of four steps means all of them. */
  method DetectInnerOuterDivergence(node: Id, store: MS.Store) returns (diverging: bool)
    requires store.Valid()
    ensures diverging == LossesSplit(MS.Window(MS.DiLoCoIn(MS.BatchesFor(store.history, node)), 30))
  {
    var history := store.GetDiLoCoHistory(node, DIVERGENCE_WINDOW_MINUTES);
    diverging := LossesDiverge(history);
  }

  method LossesDiverge(history: seq<MS.DiLoCoMetrics>) returns (diverging: bool)
    ensures diverging == LossesSplit(history)
  {
    hide LossesSplit;
    GroupedCoherent(history);
    DivergingIff(history);
    FewRecords(history);
    if |history| < DIVERGENCE_OUTER_STEPS + 1 {
      return false;
    }
    var byStep := GroupByStep(history);
    hide Grouped, Sort;
    var sorted := Sort(byStep.steps, AsReal());
    if |sorted| < DIVERGENCE_OUTER_STEPS + 1 {
      return false;
    }
    RecentStepsRecorded(byStep);
    var recent := LastN(sorted, DIVERGENCE_OUTER_STEPS + 1);
    assert recent == RecentSteps(byStep);
    var count := CountDiverging(byStep.losses, recent);
    diverging := !(count < DIVERGENCE_OUTER_STEPS);
  }

  method GroupByStep(history: seq<MS.DiLoCoMetrics>) returns (byStep: ByStep)
    ensures byStep == Grouped(history)
  {
    byStep := ByStep([], map[]);
    for i := 0 to |history|
      invariant byStep == Grouped(history[..i])
    {
      assert history[..i + 1][..i] == history[..i];
      byStep := Record(byStep, history[i]);
    }
    assert history[..|history|] == history;
  }

  method CountDiverging(losses: map<int, Losses>, recent: seq<int>) returns (count: nat)
    requires |recent| > 0 && forall i :: 0 <= i < |recent| ==> recent[i] in losses
    ensures count < |recent|
    ensures count == |recent| - 1
            <==> forall i :: 0 < i < |recent| ==> DivergesAt(losses[recent[i - 1]], losses[recent[i]])
  {
    count := 0;
    for i := 1 to |recent|
      invariant count <= i - 1
      invariant count == i - 1 <==> forall j :: 0 < j < i ==> DivergesAt(losses[recent[j - 1]], losses[recent[j]])
    {
      if DivergesAt(losses[recent[i - 1]], losses[recent[i]]) {
        count := count + 1;
      }
    }
  }

  /** The recent steps are the newest: every other recorded step is older than all of them. */
  lemma RecentStepsAreNewest(b: ByStep, s: int, i: nat)
    requires Coherent(b)
    requires s in b.steps && s !in RecentSteps(b) && i < |RecentSteps(b)|
    ensures s < RecentSteps(b)[i]
  {
    var sorted := Sort(b.steps, AsReal());
    SortSorted(b.steps, AsReal());
    assert s in multiset(sorted);
    var j :| 0 <= j < |sorted| && sorted[j] == s;
    var k := |sorted| - |RecentSteps(b)| + i;
    assert sorted[k] == RecentSteps(b)[i];
    if j >= |sorted| - |RecentSteps(b)| {
      assert false;
    }
    assert AsReal()(sorted[j]) <= AsReal()(sorted[k]);
    assert s != RecentSteps(b)[i];
  }

  /** The losses kept for a step are those of its last record. */
  lemma {:induction false} LatestRecordWins(history: seq<MS.DiLoCoMetrics>, k: nat)
    requires k < |history|
    requires forall j :: k < j < |history| ==> history[j].outerStep != history[k].outerStep
    ensures history[k].outerStep in Grouped(history).losses
    ensures Grouped(history).losses[history[k].outerStep] == Losses(history[k].innerLoss, history[k].outerLoss)
  {
    if k < |history| - 1 {
      LatestRecordWins(history[..|history| - 1], k);
    }
  }

  // When the per-node checks run.

  /** The outer step seen by the newest run; -1, below every step on the wire, when there was none. */
  function Newest(observed: map<Id, seq<int>>, node: Id): int {
    if node in observed && |observed[node]| > 0 then observed[node][|observed[node]| - 1] else -1
  }

  class OuterStepTracker {
    var lastOuterStep: map<Id, int>
    /** The newest outer step of each node, as seen by every run so far. */
    ghost var observed: map<Id, seq<int>>

    ghost predicate Valid()
      reads this
    {
      && (forall n :: n in observed ==> |observed[n]| > 0)
      && forall n :: Newest(observed, n) == if n in lastOuterStep then lastOuterStep[n] else -1
    }

    constructor ()
      ensures Valid() && observed == map[]
    {
      lastOuterStep, observed := map[], map[];
    }

    /** The checks run exactly when the step has advanced since the run before; after a restart they resume. */
    method Observe(node: Id, current: int) returns (check: bool)
      requires Valid()
      modifies this
      ensures Valid()
      ensures observed
              == old(observed)[node := if node in old(observed) then old(observed)[node] + [current] else [current]]
      ensures check == (current > Newest(old(observed), node))
    {
      var prev := if node in lastOuterStep then lastOuterStep[node] else -1;
      observed := observed[node := if node in observed then observed[node] + [current] else [current]];
      if current < prev {
        lastOuterStep := lastOuterStep[node := current];
        return false;
      }
      if current > prev {
        lastOuterStep := lastOuterStep[node := current];
        return true;
      }
      check := false;
    }
  }
}
