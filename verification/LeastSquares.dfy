/** The closed-form least-squares slope of the loss-plateau detector, and what it is good for. */
module LeastSquares {
  import opened Prelude
  import opened RealSums

  const DEGENERATE := 0.000000000001

  function AsReals(s: seq<int>): (r: seq<real>)
    ensures |r| == |s|
    ensures forall i :: 0 <= i < |s| ==> r[i] == s[i] as real
  {
    seq(|s|, i requires 0 <= i < |s| => s[i] as real)
  }

  function LinearSlope(steps: seq<real>, values: seq<real>): real
    requires |steps| == |values| && |steps| > 0
  {
    var denominator := Dot(Centred(steps), Centred(steps));
    if denominator < DEGENERATE then 0.0 else Dot(Centred(steps), Centred(values)) / denominator
  }

  /** Height of the fitted line at step 0: it passes through the means. */
  function Intercept(steps: seq<real>, values: seq<real>): real
    requires |steps| == |values| && |steps| > 0
  {
    Mean(values) - LinearSlope(steps, values) * Mean(steps)
  }

  /** Residuals of the line `a + b * step`. */
  function Residuals(steps: seq<real>, values: seq<real>, a: real, b: real): (r: seq<real>)
    requires |steps| == |values|
    ensures |r| == |steps|
    ensures forall i :: 0 <= i < |r| ==> r[i] == values[i] - a - b * steps[i]
  {
    seq(|steps|, i requires 0 <= i < |steps| => values[i] - a - b * steps[i])
  }

  /** Sum of the squared residuals. */
  function Rss(steps: seq<real>, values: seq<real>, a: real, b: real): real
    requires |steps| == |values|
  {
    Dot(Residuals(steps, values, a, b), Residuals(steps, values, a, b))
  }

  ghost predicate AllEqual(steps: seq<int>) {
    forall i :: 0 <= i < |steps| ==> steps[i] == steps[0]
  }

  lemma EqualSteps(steps: seq<int>)
    requires |steps| > 0 && AllEqual(steps)
    ensures forall i :: 0 <= i < |steps| ==> Centred(AsReals(steps))[i] == 0.0
  {
    var r := AsReals(steps);
    assert r == Constant(|r|, r[0]);
    SumConstant(|r|, r[0]);
    MeanOfEqual(Sum(r), |r| as real, r[0]);
  }

  lemma MeanOfEqual(total: real, n: real, x: real)
    requires n > 0.0 && total == n * x
    ensures total / n == x
  {
  }

  lemma TwoTerms(u: seq<real>, j: nat)
    requires 0 < j < |u|
    ensures u[0] * u[0] + u[j] * u[j] <= Dot(u, u)
  {
    var others := u[..j] + u[j + 1..];
    SplitAt(u, j);
    assert others[0] == u[0];
    TermAtMostDot(others, 0);
  }

  /** Integer steps that differ at all are spread enough for the degenerate guard not to trigger. */
  lemma IntegerSpread(steps: seq<int>)
    requires |steps| > 0 && !AllEqual(steps)
    ensures Dot(Centred(AsReals(steps)), Centred(AsReals(steps))) >= 0.5
  {
    hide Dot, Centred, Mean;
    var y := Centred(AsReals(steps));
    var j :| 0 <= j < |steps| && steps[j] != steps[0];
    TwoTerms(y, j);
    CentredAt(AsReals(steps), 0);
    CentredAt(AsReals(steps), j);
    assert y[0] - y[j] == (steps[0] - steps[j]) as real;
    OneApart(y[0], y[j]);
  }

  lemma OneApart(x: real, y: real)
    requires x - y >= 1.0 || y - x >= 1.0
    ensures x * x + y * y >= 0.5
  {
    var d, e := x - y, x + y;
    assert x * x + y * y == (d * d + e * e) / 2.0;
    Square(e);
    assert d * d >= 1.0;
  }

  lemma {:induction false} DotZero(u: seq<real>, v: seq<real>)
    requires |u| == |v| && forall i :: 0 <= i < |u| ==> u[i] == 0.0
    ensures Dot(u, v) == 0.0
  {
    if |u| > 0 {
      DotZero(u[1..], v[1..]);
    }
  }

  // The slope minimises the residuals.

  /** The returned slope solves the normal equation, also when the guard replaces it by zero. */
  lemma SlopeSolves(steps: seq<int>, values: seq<real>)
    requires |steps| == |values| && |steps| > 0
    ensures var y, x := Centred(AsReals(steps)), Centred(values);
            LinearSlope(AsReals(steps), values) * Dot(y, y) == Dot(y, x)
  {
    var y := Centred(AsReals(steps));
    if AllEqual(steps) {
      EqualSteps(steps);
      DotZero(y, Centred(values));
      DotZero(y, y);
    } else {
      IntegerSpread(steps);
    }
  }

  lemma DotOfSum(u: seq<real>, v: seq<real>)
    requires |u| == |v|
    ensures Dot(Combine(1.0, u, 1.0, v), Combine(1.0, u, 1.0, v)) == Dot(u, u) + 2.0 * Dot(u, v) + Dot(v, v)
  {
    var w := Combine(1.0, u, 1.0, v);
    DotCombine(1.0, u, 1.0, v, w);
    DotSymmetric(u, w);
    DotSymmetric(v, w);
    DotCombine(1.0, u, 1.0, v, u);
    DotCombine(1.0, u, 1.0, v, v);
    DotSymmetric(u, v);
  }

  /** Residuals of the fitted line, written with the centred vectors. */
  function Fitted(y: seq<real>, x: seq<real>, slope: real): (r: seq<real>)
    requires |y| == |x|
    ensures |r| == |y|
  {
    Combine(1.0, x, -slope, y)
  }

  /** The fitted residuals are orthogonal to every line. */
  lemma FittedOrthogonal(y: seq<real>, x: seq<real>, slope: real, b: real, a: real)
    requires |y| == |x| && Sum(y) == 0.0 && Sum(x) == 0.0 && slope * Dot(y, y) == Dot(y, x)
    ensures Dot(Fitted(y, x, slope), Combine(b, y, a, Constant(|y|, 1.0))) == 0.0
  {
    hide Dot, Sum;
    var e, ones := Fitted(y, x, slope), Constant(|y|, 1.0);
    var line := Combine(b, y, a, ones);
    DotCombine(b, y, a, ones, e);
    DotSymmetric(line, e);
    DotCombine(1.0, x, -slope, y, y);
    DotSymmetric(e, y);
    DotSymmetric(x, y);
    assert Dot(y, e) == 0.0;
    SumCombine(1.0, x, -slope, y);
    DotOnes(e);
    DotSymmetric(e, ones);
    assert Dot(ones, e) == 0.0;
  }

  lemma Pythagoras(e: seq<real>, line: seq<real>)
    requires |e| == |line| && Dot(e, line) == 0.0
    ensures Dot(e, e) <= Dot(Combine(1.0, e, 1.0, line), Combine(1.0, e, 1.0, line))
  {
    DotOfSum(e, line);
    DotNonNegative(line);
  }

  /** For integer steps the returned slope, through the means, has the least residuals of all lines. */
  lemma SlopeIsLeastSquares(steps: seq<int>, values: seq<real>, a: real, b: real)
    requires |steps| == |values| && |steps| > 0
    ensures var s := AsReals(steps);
            Rss(s, values, Intercept(s, values), LinearSlope(s, values)) <= Rss(s, values, a, b)
  {
    hide Mean, Centred, Dot, LinearSlope, Rss;
    var s := AsReals(steps);
    SlopeSolves(steps, values);
    LeastResiduals(s, values, LinearSlope(s, values), Intercept(s, values), a, b,
                   Mean(values) - a - b * Mean(s), LinearSlope(s, values) - b);
  }

  lemma LeastResiduals(s: seq<real>, values: seq<real>, slope: real, intercept: real,
                       a: real, b: real, height: real, tilt: real)
    requires |s| == |values| && |s| > 0
    requires slope * Dot(Centred(s), Centred(s)) == Dot(Centred(s), Centred(values))
    requires intercept == Mean(values) - slope * Mean(s)
    requires height == Mean(values) - a - b * Mean(s) && tilt == slope - b
    ensures Rss(s, values, intercept, slope) <= Rss(s, values, a, b)
  {
    hide Mean, Centred, Fitted, Residuals, Combine, Dot, Sum;
    CentredSum(s);
    CentredSum(values);
    FittedOrthogonal(Centred(s), Centred(values), slope, tilt, height);
    BestResiduals(s, values, slope, intercept);
    OtherResiduals(s, values, slope, a, b, height, tilt);
    Pythagoras(Fitted(Centred(s), Centred(values), slope), Line(s, height, tilt));
  }

  lemma BestTerm(v: real, s: real, m: real, c: real, slope: real, intercept: real)
    requires intercept == m - slope * c
    ensures v - intercept - slope * s == 1.0 * (v - m) + -slope * (s - c)
  {
  }

  /** Point `i` of the residuals of the fitted line. */
  lemma FittedAt(s: seq<real>, values: seq<real>, slope: real, i: nat)
    requires |s| == |values| && i < |s|
    ensures Fitted(Centred(s), Centred(values), slope)[i] == 1.0 * (values[i] - Mean(values))
        + -slope * (s[i] - Mean(s))
  {
    CentredAt(s, i);
    CentredAt(values, i);
    hide Centred, Mean;
  }

  lemma BestResiduals(s: seq<real>, values: seq<real>, slope: real, intercept: real)
    requires |s| == |values| && |s| > 0
    requires intercept == Mean(values) - slope * Mean(s)
    ensures Residuals(s, values, intercept, slope) == Fitted(Centred(s), Centred(values), slope)
  {
    hide Mean, Centred, Fitted, Residuals;
    var r, e := Residuals(s, values, intercept, slope), Fitted(Centred(s), Centred(values), slope);
    forall i | 0 <= i < |r| ensures r[i] == e[i] {
      FittedAt(s, values, slope, i);
      BestTerm(values[i], s[i], Mean(values), Mean(s), slope, intercept);
    }
  }

  lemma OtherTerm(v: real, s: real, e: real, l: real, m: real, c: real, slope: real,
                  a: real, b: real, height: real, tilt: real)
    requires height == m - a - b * c && tilt == slope - b
    requires e == 1.0 * (v - m) + -slope * (s - c) && l == tilt * (s - c) + height * 1.0
    ensures v - a - b * s == 1.0 * e + 1.0 * l
  {
    assert tilt * (s - c) == slope * (s - c) - b * (s - c);
  }

  function Line(s: seq<real>, height: real, tilt: real): (r: seq<real>)
    requires |s| > 0
    ensures |r| == |s|
  {
    Combine(tilt, Centred(s), height, Constant(|s|, 1.0))
  }

  lemma LineAt(s: seq<real>, height: real, tilt: real, i: nat)
    requires i < |s|
    ensures Line(s, height, tilt)[i] == tilt * (s[i] - Mean(s)) + height * 1.0
  {
    CentredAt(s, i);
    hide Centred, Mean;
  }

  lemma OtherResiduals(s: seq<real>, values: seq<real>, slope: real, a: real, b: real, height: real, tilt: real)
    requires |s| == |values| && |s| > 0
    requires height == Mean(values) - a - b * Mean(s) && tilt == slope - b
    ensures Residuals(s, values, a, b)
            == Combine(1.0, Fitted(Centred(s), Centred(values), slope), 1.0, Line(s, height, tilt))
  {
    hide Mean, Centred, Fitted, Line, Residuals, Combine;
    var e, line := Fitted(Centred(s), Centred(values), slope), Line(s, height, tilt);
    var r, t := Residuals(s, values, a, b), Combine(1.0, e, 1.0, line);
    forall i | 0 <= i < |r| ensures r[i] == t[i] {
      FittedAt(s, values, slope, i);
      LineAt(s, height, tilt, i);
      OtherTerm(values[i], s[i], e[i], line[i], Mean(values), Mean(s), slope, a, b, height, tilt);
    }
  }

  // The slope respects bounds on the increments.

  ghost predicate Increasing(steps: seq<int>) {
    forall i :: 0 < i < |steps| ==> steps[i - 1] < steps[i]
  }

  /** Between consecutive samples the value changes by at most `rate` per step. */
  ghost predicate ChangesAtMost(steps: seq<int>, values: seq<real>, rate: real)
    requires |steps| == |values|
  {
    forall i :: 0 < i < |steps| ==> values[i] - values[i - 1] <= rate * (steps[i] - steps[i - 1]) as real
  }

  ghost predicate ChangesAtLeast(steps: seq<int>, values: seq<real>, rate: real)
    requires |steps| == |values|
  {
    forall i :: 0 < i < |steps| ==> values[i] - values[i - 1] >= rate * (steps[i] - steps[i - 1]) as real
  }

  lemma DetrendedStep(v: real, u: real, rate: real, s: int, r: int)
    requires v - u <= rate * (s - r) as real
    ensures v - rate * s as real <= u - rate * r as real
  {
    assert (s - r) as real == s as real - r as real;
    assert rate * (s as real - r as real) == rate * s as real - rate * r as real;
  }

  /** Values minus `rate` per step. */
  function Detrended(steps: seq<int>, values: seq<real>, rate: real): (w: seq<real>)
    requires |steps| == |values|
    ensures |w| == |steps|
  {
    Combine(1.0, values, -rate, AsReals(steps))
  }

  lemma {:induction false} DetrendedFalls(steps: seq<int>, values: seq<real>, rate: real, i: nat, j: nat)
    requires |steps| == |values| && Increasing(steps) && ChangesAtMost(steps, values, rate)
    requires i <= j < |steps|
    ensures steps[i] <= steps[j]
    ensures Detrended(steps, values, rate)[i] >= Detrended(steps, values, rate)[j]
  {
    if i < j {
      hide Detrended, Increasing, ChangesAtMost;
      DetrendedFalls(steps, values, rate, i, j - 1);
      DetrendedNext(steps, values, rate, j);
    }
  }

  lemma DetrendedNext(steps: seq<int>, values: seq<real>, rate: real, j: nat)
    requires |steps| == |values| && Increasing(steps) && ChangesAtMost(steps, values, rate)
    requires 0 < j < |steps|
    ensures steps[j - 1] < steps[j]
    ensures Detrended(steps, values, rate)[j - 1] >= Detrended(steps, values, rate)[j]
  {
    hide Detrended, Increasing, ChangesAtMost;
    NextChange(steps, values, rate, j);
    DetrendedAt(steps, values, rate, j);
    DetrendedAt(steps, values, rate, j - 1);
    DetrendedStep(values[j], values[j - 1], rate, steps[j], steps[j - 1]);
  }

  lemma NextChange(steps: seq<int>, values: seq<real>, rate: real, j: nat)
    requires |steps| == |values| && Increasing(steps) && ChangesAtMost(steps, values, rate)
    requires 0 < j < |steps|
    ensures steps[j - 1] < steps[j] && values[j] - values[j - 1] <= rate * (steps[j] - steps[j - 1]) as real
  {
  }

  lemma DetrendedAt(steps: seq<int>, values: seq<real>, rate: real, i: nat)
    requires |steps| == |values| && i < |steps|
    ensures Detrended(steps, values, rate)[i] == values[i] - rate * steps[i] as real
  {
  }

  lemma MeanCombine(a: real, u: seq<real>, b: real, v: seq<real>)
    requires |u| == |v| && |u| > 0
    ensures Mean(Combine(a, u, b, v)) == a * Mean(u) + b * Mean(v)
  {
    var w := Combine(a, u, b, v);
    SumCombine(a, u, b, v);
    MeanOfCombination(Sum(w), |w| as real, |u| as real, a, Sum(u), b, Sum(v), |v| as real);
  }

  lemma CentredCombineAt(a: real, u: seq<real>, b: real, v: seq<real>, i: nat)
    requires |u| == |v| && i < |u|
    ensures Centred(Combine(a, u, b, v))[i] == Combine(a, Centred(u), b, Centred(v))[i]
  {
    hide Mean, Centred, Combine;
    var w := Combine(a, u, b, v);
    MeanCombine(a, u, b, v);
    CentredAt(u, i);
    CentredAt(v, i);
    CentredAt(w, i);
    CentredTerm(a, u[i], Mean(u), Centred(u)[i], b, v[i], Mean(v), Centred(v)[i], w[i], Mean(w));
  }

  lemma CentredCombine(a: real, u: seq<real>, b: real, v: seq<real>)
    requires |u| == |v| && |u| > 0
    ensures Centred(Combine(a, u, b, v)) == Combine(a, Centred(u), b, Centred(v))
  {
    hide Mean, Centred, Combine;
    var y, z := Centred(Combine(a, u, b, v)), Combine(a, Centred(u), b, Centred(v));
    forall i | 0 <= i < |u| ensures y[i] == z[i] {
      CentredCombineAt(a, u, b, v, i);
    }
  }

  lemma MeanOfCombination(total: real, k: real, n: real, a: real, x: real, b: real, y: real, n': real)
    requires n > 0.0 && k == n && n' == n && total == a * x + b * y
    ensures total / k == a * (x / n) + b * (y / n')
  {
    var p, q := x / n, y / n;
    assert p * n == x && q * n == y;
    assert (a * p + b * q) * n == total;
  }

  lemma CentredTerm(a: real, x: real, m: real, x': real, b: real, y: real, k: real, y': real, t: real, c: real)
    requires t == a * x + b * y && c == a * m + b * k && x' == x - m && y' == y - k
    ensures t - c == a * x' + b * y'
  {
  }

  /** If no increment exceeds `rate` per step, neither does the slope. */
  lemma SlopeAtMost(steps: seq<int>, values: seq<real>, rate: real)
    requires |steps| == |values| && |steps| >= 2
    requires Increasing(steps) && ChangesAtMost(steps, values, rate)
    ensures LinearSlope(AsReals(steps), values) <= rate
  {
    hide Mean, Centred, Dot, Detrended, Opposed, Increasing, ChangesAtMost;
    var s, w := AsReals(steps), Detrended(steps, values, rate);
    OpposedToDetrended(steps, values, rate);
    Chebyshev(s, w);
    DetrendedCovariance(steps, values, rate);
    NotAllEqual(steps);
    IntegerSpread(steps);
    var y, x := Centred(s), Centred(values);
    var covariance, spread := Dot(y, x), Dot(y, y);
    assert Dot(y, Centred(w)) == covariance - rate * spread;
    QuotientAtMost(covariance, spread, rate);
  }

  lemma NotAllEqual(steps: seq<int>)
    requires Increasing(steps) && |steps| >= 2
    ensures !AllEqual(steps)
  {
    assert steps[1] != steps[0];
  }

  lemma DetrendedCovariance(steps: seq<int>, values: seq<real>, rate: real)
    requires |steps| == |values| && |steps| > 0
    ensures var y := Centred(AsReals(steps));
            Dot(y, Centred(Detrended(steps, values, rate))) == Dot(y, Centred(values)) - rate * Dot(y, y)
  {
    hide Mean, Centred, Dot, Combine;
    var y, x := Centred(AsReals(steps)), Centred(values);
    CentredCombine(1.0, values, -rate, AsReals(steps));
    DotSymmetric(y, Combine(1.0, x, -rate, y));
    DotCombine(1.0, x, -rate, y, y);
    DotSymmetric(x, y);
  }

  lemma OpposedToDetrended(steps: seq<int>, values: seq<real>, rate: real)
    requires |steps| == |values| && Increasing(steps) && ChangesAtMost(steps, values, rate)
    ensures Opposed(AsReals(steps), Detrended(steps, values, rate))
  {
    forall i, j | 0 <= i < j < |steps|
      ensures steps[i] <= steps[j] && Detrended(steps, values, rate)[i] >= Detrended(steps, values, rate)[j]
    {
      DetrendedFalls(steps, values, rate, i, j);
    }
  }

  lemma QuotientAtMost(x: real, q: real, rate: real)
    requires q > 0.0 && x - rate * q <= 0.0
    ensures x / q <= rate
  {
    var r := x / q;
    assert r * q == x;
    if r > rate {
      assert (r - rate) * q > 0.0;
    }
  }

  lemma NegatedSlope(steps: seq<real>, values: seq<real>)
    requires |steps| == |values| && |steps| > 0
    ensures LinearSlope(steps, Affine(-1.0, values, 0.0)) == -LinearSlope(steps, values)
  {
    hide Mean, Centred, Dot, Affine, Combine;
    var y, x := Centred(steps), Centred(values);
    CentredAffine(-1.0, values, 0.0);
    DotSymmetric(y, Centred(Affine(-1.0, values, 0.0)));
    DotCombine(-1.0, x, 0.0, x, y);
    DotSymmetric(x, y);
    if Dot(y, y) >= DEGENERATE {
      DivideScaled(-1.0, Dot(y, x), Dot(y, y));
    }
  }

  /** If every increment is at least `rate` per step, so is the slope. */
  lemma SlopeAtLeast(steps: seq<int>, values: seq<real>, rate: real)
    requires |steps| == |values| && |steps| >= 2
    requires Increasing(steps) && ChangesAtLeast(steps, values, rate)
    ensures LinearSlope(AsReals(steps), values) >= rate
  {
    NegatedChanges(steps, values, rate);
    hide LinearSlope, Affine, Increasing, ChangesAtMost, ChangesAtLeast;
    SlopeAtMost(steps, Affine(-1.0, values, 0.0), -rate);
    NegatedSlope(AsReals(steps), values);
  }

  lemma NegatedChanges(steps: seq<int>, values: seq<real>, rate: real)
    requires |steps| == |values| && ChangesAtLeast(steps, values, rate)
    ensures ChangesAtMost(steps, Affine(-1.0, values, 0.0), -rate)
  {
    hide Affine;
    var negated := Affine(-1.0, values, 0.0);
    forall i | 0 < i < |steps| ensures negated[i] - negated[i - 1] <= -rate * (steps[i] - steps[i - 1]) as real {
      NegatedStep(values[i], values[i - 1], rate, (steps[i] - steps[i - 1]) as real);
    }
  }

  lemma NegatedStep(v: real, u: real, rate: real, d: real)
    requires v - u >= rate * d
    ensures -v - -u <= -rate * d
  {
  }
}
