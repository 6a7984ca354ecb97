/**
 * Vectors of reals, their sums and inner products, means and variances, and the inequalities the
 * statistical detectors rest on.
 */
module RealSums {
  import opened Prelude

  function Sum(u: seq<real>): real {
    if |u| == 0 then 0.0 else u[0] + Sum(u[1..])
  }

  /** Inner product. */
  function Dot(u: seq<real>, v: seq<real>): real
    requires |u| == |v|
  {
    if |u| == 0 then 0.0 else u[0] * v[0] + Dot(u[1..], v[1..])
  }

  /** `a * u + b * v`. */
  function Combine(a: real, u: seq<real>, b: real, v: seq<real>): (r: seq<real>)
    requires |u| == |v|
    ensures |r| == |u|
    ensures forall i :: 0 <= i < |u| ==> r[i] == a * u[i] + b * v[i]
  {
    seq(|u|, i requires 0 <= i < |u| => a * u[i] + b * v[i])
  }

  function Constant(n: nat, x: real): (r: seq<real>)
    ensures |r| == n && forall i :: 0 <= i < n ==> r[i] == x
  {
    seq(n, i => x)
  }

  /** Deviations from `c`. */
  function Dev(s: seq<real>, c: real): (r: seq<real>)
    ensures |r| == |s|
    ensures forall i :: 0 <= i < |s| ==> r[i] == s[i] - c
  {
    seq(|s|, i requires 0 <= i < |s| => s[i] - c)
  }

  function Mean(s: seq<real>): real
    requires |s| > 0
  {
    Sum(s) / |s| as real
  }

  /** Deviations from the mean. */
  function Centred(s: seq<real>): (r: seq<real>)
    requires |s| > 0
    ensures |r| == |s|
  {
    Dev(s, Mean(s))
  }

  /** Population variance, `numpy.var`. */
  function Variance(s: seq<real>): real
    requires |s| > 0
  {
    Dot(Centred(s), Centred(s)) / |s| as real
  }

  lemma CentredAt(s: seq<real>, i: nat)
    requires i < |s|
    ensures Centred(s)[i] == s[i] - Mean(s)
  {
    hide Mean;
  }

  // Linearity.

  lemma Distribute(c: real, a: real, x: real, b: real, y: real, w: real)
    requires c == a * x + b * y
    ensures c * w == a * (x * w) + b * (y * w)
  {
  }

  lemma CombineTail(a: real, u: seq<real>, b: real, v: seq<real>)
    requires |u| == |v| && |u| > 0
    ensures Combine(a, u, b, v)[1..] == Combine(a, u[1..], b, v[1..])
  {
    var r, t := Combine(a, u, b, v)[1..], Combine(a, u[1..], b, v[1..]);
    forall i | 0 <= i < |r| ensures r[i] == t[i] {
      assert u[1..][i] == u[i + 1] && v[1..][i] == v[i + 1];
    }
  }

  lemma {:induction false} DotCombine(a: real, u: seq<real>, b: real, v: seq<real>, w: seq<real>)
    requires |u| == |v| == |w|
    ensures Dot(Combine(a, u, b, v), w) == a * Dot(u, w) + b * Dot(v, w)
  {
    if |u| > 0 {
      DotCombine(a, u[1..], b, v[1..], w[1..]);
      CombineTail(a, u, b, v);
      Distribute(Combine(a, u, b, v)[0], a, u[0], b, v[0], w[0]);
    }
  }

  lemma {:induction false} SumCombine(a: real, u: seq<real>, b: real, v: seq<real>)
    requires |u| == |v|
    ensures Sum(Combine(a, u, b, v)) == a * Sum(u) + b * Sum(v)
  {
    hide Combine, Sum;
    var w := Combine(a, u, b, v);
    if |u| == 0 {
      SumNone(u);
      SumNone(v);
      SumNone(w);
    } else {
      SumCombine(a, u[1..], b, v[1..]);
      CombineTail(a, u, b, v);
      SumCons(u);
      SumCons(v);
      SumCons(w);
      Collect(a, u[0], Sum(u[1..]), Sum(u), b, v[0], Sum(v[1..]), Sum(v));
    }
  }

  lemma SumNone(u: seq<real>)
    requires |u| == 0
    ensures Sum(u) == 0.0
  {
  }

  lemma SumCons(u: seq<real>)
    requires |u| > 0
    ensures Sum(u) == u[0] + Sum(u[1..])
  {
  }

  lemma Collect(a: real, x: real, xs: real, s: real, b: real, y: real, ys: real, t: real)
    requires s == x + xs && t == y + ys
    ensures (a * x + b * y) + (a * xs + b * ys) == a * s + b * t
  {
  }

  lemma {:induction false} DotSymmetric(u: seq<real>, v: seq<real>)
    requires |u| == |v|
    ensures Dot(u, v) == Dot(v, u)
  {
    if |u| > 0 {
      DotSymmetric(u[1..], v[1..]);
    }
  }

  lemma {:induction false} SumConstant(n: nat, x: real)
    ensures Sum(Constant(n, x)) == n as real * x
  {
    if n > 0 {
      SumConstant(n - 1, x);
      assert Constant(n, x)[1..] == Constant(n - 1, x);
      assert n as real == (n - 1) as real + 1.0;
    }
  }

  lemma SumOnes(n: nat)
    ensures Sum(Constant(n, 1.0)) == n as real
  {
    SumConstant(n, 1.0);
  }

  lemma {:induction false} DotOnes(u: seq<real>)
    ensures Dot(u, Constant(|u|, 1.0)) == Sum(u)
  {
    if |u| > 0 {
      DotOnes(u[1..]);
      assert Constant(|u|, 1.0)[1..] == Constant(|u[1..]|, 1.0);
    }
  }

  lemma {:induction false} SumDev(s: seq<real>, c: real)
    ensures Sum(Dev(s, c)) == Sum(s) - |s| as real * c
  {
    if |s| > 0 {
      SumDev(s[1..], c);
      assert Dev(s, c)[1..] == Dev(s[1..], c);
      assert |s| as real == |s[1..]| as real + 1.0;
    }
  }

  lemma CentredSum(s: seq<real>)
    requires |s| > 0
    ensures Sum(Centred(s)) == 0.0
  {
    SumDev(s, Mean(s));
  }

  /** Against a centred vector, the centre of the other one does not matter. */
  lemma CentreIsFree(y: seq<real>, s: seq<real>, c: real, d: real)
    requires |y| == |s| && Sum(y) == 0.0
    ensures Dot(y, Dev(s, c)) == Dot(y, Dev(s, d))
  {
    var ones := Constant(|s|, 1.0);
    assert Dev(s, c) == Combine(1.0, Dev(s, d), d - c, ones);
    DotCombine(1.0, Dev(s, d), d - c, ones, y);
    DotSymmetric(y, Dev(s, c));
    DotSymmetric(y, Dev(s, d));
    DotSymmetric(y, ones);
    DotOnes(y);
  }

  // Positivity.

  lemma Square(x: real)
    ensures x * x >= 0.0
  {
  }

  lemma {:induction false} DotNonNegative(u: seq<real>)
    ensures Dot(u, u) >= 0.0
  {
    if |u| > 0 {
      DotNonNegative(u[1..]);
      Square(u[0]);
    }
  }

  lemma {:induction false} SplitAt(u: seq<real>, k: nat)
    requires k < |u|
    ensures var others := u[..k] + u[k + 1..];
            Sum(u) == Sum(others) + u[k] && Dot(u, u) == Dot(others, others) + u[k] * u[k]
  {
    var others := u[..k] + u[k + 1..];
    if k == 0 {
      assert others == u[1..];
    } else {
      var rest := u[1..];
      SplitAt(rest, k - 1);
      assert others == [u[0]] + (rest[..k - 1] + rest[k..]);
      assert others[1..] == rest[..k - 1] + rest[k..];
    }
  }

  /** One term never exceeds the sum of squares. */
  lemma TermAtMostDot(u: seq<real>, k: nat)
    requires k < |u|
    ensures u[k] * u[k] <= Dot(u, u)
  {
    SplitAt(u, k);
    DotNonNegative(u[..k] + u[k + 1..]);
  }

  lemma CauchyStep(k: real, sum: real, sq: real, x: real)
    requires k > 0.0 && k * sq >= sum * sum
    ensures (k + 1.0) * (x * x + sq) >= (x + sum) * (x + sum)
  {
    var r := sq + k * x * x - 2.0 * sum * x;
    assert k * r == k * sq + (k * x) * (k * x) - 2.0 * sum * (k * x);
    Square(sum - k * x);
    assert (sum - k * x) * (sum - k * x) == sum * sum - 2.0 * sum * (k * x) + (k * x) * (k * x);
    assert k * r >= 0.0;
    assert r >= 0.0;
    assert (k + 1.0) * (x * x + sq) - (x + sum) * (x + sum) == (k * sq - sum * sum) + r;
  }

  /** Cauchy-Schwarz against the constant vector. */
  lemma {:induction false} CauchySchwarz(u: seq<real>)
    ensures |u| as real * Dot(u, u) >= Sum(u) * Sum(u)
  {
    if |u| > 1 {
      CauchySchwarz(u[1..]);
      CauchyStep(|u[1..]| as real, Sum(u[1..]), Dot(u[1..], u[1..]), u[0]);
    } else if |u| == 1 {
      assert Sum(u[1..]) == 0.0 && Dot(u[1..], u[1..]) == 0.0;
    }
  }

  lemma WithoutOne(u: seq<real>, k: nat) returns (rest: real)
    requires k < |u| && Sum(u) == 0.0
    ensures Dot(u, u) == rest + u[k] * u[k]
    ensures (|u| as real - 1.0) * rest >= u[k] * u[k]
  {
    var others := u[..k] + u[k + 1..];
    SplitAt(u, k);
    CauchySchwarz(others);
    rest := Dot(others, others);
    Opposite(|others| as real, |u| as real - 1.0, rest, Sum(others), u[k]);
  }

  lemma Opposite(n: real, n': real, q: real, x: real, y: real)
    requires n == n' && x == -y && n * q >= x * x
    ensures n' * q >= y * y
  {
  }

  lemma SamuelsonVector(u: seq<real>, k: nat)
    requires k < |u| && Sum(u) == 0.0
    ensures |u| as real * (u[k] * u[k]) <= (|u| as real - 1.0) * Dot(u, u)
  {
    var rest := WithoutOne(u, k);
    SamuelsonArithmetic(|u| as real, u[k], Dot(u, u), rest);
  }

  /** Samuelson's inequality: no value is further than `sqrt(n - 1)` standard deviations from the mean. */
  lemma Samuelson(s: seq<real>, k: nat)
    requires k < |s|
    ensures Centred(s)[k] * Centred(s)[k] <= (|s| - 1) as real * Variance(s)
  {
    CentredSum(s);
    SamuelsonVector(Centred(s), k);
    DivideBound(|s| as real, Centred(s)[k] * Centred(s)[k], Dot(Centred(s), Centred(s)));
  }

  lemma DivideBound(n: real, x: real, q: real)
    requires n > 0.0 && n * x <= (n - 1.0) * q
    ensures x <= (n - 1.0) * (q / n)
  {
    var r := q / n;
    assert n * r == q;
    assert n * ((n - 1.0) * r) == (n - 1.0) * q;
  }

  lemma SamuelsonArithmetic(n: real, d: real, q: real, rest: real)
    requires q == rest + d * d && (n - 1.0) * rest >= d * d
    ensures n * (d * d) <= (n - 1.0) * q
  {
    assert (n - 1.0) * q == (n - 1.0) * rest + (n - 1.0) * (d * d);
  }

  ghost predicate NonPositive(x: real, y: real) {
    x * y <= 0.0
  }

  /** Terms that are all non-positive have a non-positive sum. */
  lemma {:induction false} DotNonPositive(u: seq<real>, v: seq<real>)
    requires |u| == |v| && forall i :: 0 <= i < |u| ==> NonPositive(u[i], v[i])
    ensures Dot(u, v) <= 0.0
  {
    if |u| > 0 {
      assert NonPositive(u[0], v[0]);
      DotNonPositive(u[1..], v[1..]);
    }
  }

  ghost predicate Opposed(a: seq<real>, b: seq<real>)
    requires |a| == |b|
  {
    forall i, j :: 0 <= i < j < |a| ==> a[i] <= a[j] && b[i] >= b[j]
  }

  /** Chebyshev's sum inequality: a rising series and a falling one have a non-positive covariance. */
  lemma Chebyshev(a: seq<real>, b: seq<real>)
    requires |a| == |b| && |a| > 0 && Opposed(a, b)
    ensures Dot(Centred(a), Centred(b)) <= 0.0
  {
    var m := Mean(a);
    var d := b[Crossing(a, m)];
    CentredSum(a);
    CentreIsFree(Centred(a), b, Mean(b), d);
    forall i | 0 <= i < |a| ensures NonPositive(Centred(a)[i], Dev(b, d)[i]) {
      CrossingSides(a, b, m, i);
      OppositeSigns(a[i] - m, b[i] - d);
    }
    DotNonPositive(Centred(a), Dev(b, d));
  }

  lemma CrossingSides(a: seq<real>, b: seq<real>, m: real, i: nat)
    requires |a| == |b| && i < |a| && Opposed(a, b)
    ensures var k := Crossing(a, m);
            && (i < k ==> a[i] <= m && b[i] >= b[k])
            && (i > k ==> a[i] >= m && b[i] <= b[k])
  {
  }

  lemma OppositeSigns(x: real, y: real)
    requires x <= 0.0 <= y || y <= 0.0 <= x || y == 0.0
    ensures NonPositive(x, y)
  {
  }

  /** First index at which a rising series reaches `m`, or its last index. */
  function Crossing(a: seq<real>, m: real): (k: nat)
    requires |a| > 0
    ensures k < |a|
    ensures forall i :: 0 <= i < k ==> a[i] < m
    ensures a[k] >= m || k == |a| - 1
  {
    if |a| == 1 || a[0] >= m then 0 else 1 + Crossing(a[1..], m)
  }

  // Affine maps.

  /** `a * x + b`, element by element. */
  function Affine(a: real, s: seq<real>, b: real): (r: seq<real>)
    ensures |r| == |s|
    ensures forall i :: 0 <= i < |s| ==> r[i] == a * s[i] + b
  {
    Combine(a, s, b, Constant(|s|, 1.0))
  }

  lemma DivideAffine(total: real, n': real, a: real, x: real, b: real, ones: real, n: real)
    requires n > 0.0 && n' == n && ones == n && total == a * x + b * ones
    ensures total / n' == a * (x / n) + b
  {
    var q := x / n;
    assert q * n == x;
    assert (a * q + b) * n == total;
  }

  lemma MeanAffine(a: real, s: seq<real>, b: real)
    requires |s| > 0
    ensures Mean(Affine(a, s, b)) == a * Mean(s) + b
  {
    hide Sum, Combine;
    var ones := Constant(|s|, 1.0);
    SumCombine(a, s, b, ones);
    SumOnes(|s|);
    DivideAffine(Sum(Affine(a, s, b)), |Affine(a, s, b)| as real, a, Sum(s), b, Sum(ones), |s| as real);
  }

  lemma ScaledDifference(a: real, x: real, b: real, m: real)
    ensures (a * x + b) - (a * m + b) == a * (x - m)
  {
  }

  lemma CentredAffine(a: real, s: seq<real>, b: real)
    requires |s| > 0
    ensures Centred(Affine(a, s, b)) == Combine(a, Centred(s), 0.0, Centred(s))
  {
    hide Mean, Centred, Affine, Combine;
    MeanAffine(a, s, b);
    var u, v := Centred(Affine(a, s, b)), Combine(a, Centred(s), 0.0, Centred(s));
    forall i | 0 <= i < |s| ensures u[i] == v[i] {
      CentredAt(s, i);
      CentredAt(Affine(a, s, b), i);
      ScaledDifference(a, s[i], b, Mean(s));
    }
  }

  lemma DotScaled(a: real, u: seq<real>)
    ensures Dot(Combine(a, u, 0.0, u), Combine(a, u, 0.0, u)) == a * (a * Dot(u, u))
  {
    hide Dot, Combine;
    var v := Combine(a, u, 0.0, u);
    DotCombine(a, u, 0.0, u, v);
    DotSymmetric(u, v);
    DotCombine(a, u, 0.0, u, u);
  }

  lemma DivideScaled(a: real, x: real, n: real)
    requires n > 0.0
    ensures (a * x) / n == a * (x / n)
  {
    var q := x / n;
    assert q * n == x;
    assert (a * q) * n == a * x;
  }

  lemma VarianceAffine(a: real, s: seq<real>, b: real)
    requires |s| > 0
    ensures Variance(Affine(a, s, b)) == a * (a * Variance(s))
  {
    hide Dot, Affine, Centred, Mean, Combine;
    CentredAffine(a, s, b);
    DotScaled(a, Centred(s));
    var t := Affine(a, s, b);
    DivideTwice(Dot(Centred(t), Centred(t)), |t| as real, a, Dot(Centred(s), Centred(s)), |s| as real);
  }

  lemma DivideTwice(total: real, n': real, a: real, q: real, n: real)
    requires n > 0.0 && n' == n && total == a * (a * q)
    ensures total / n' == a * (a * (q / n))
  {
    DivideScaled(a, a * q, n);
    DivideScaled(a, q, n);
  }

  // Squares and quotients.

  lemma SameSign(g: real, x: real)
    requires g > 0.0
    ensures g * x > 0.0 <==> x > 0.0
  {
    if x <= 0.0 {
      assert g * (-x) >= 0.0;
    }
  }

  lemma SquarePositive(a: real)
    requires a != 0.0
    ensures a * a > 0.0
  {
    if a < 0.0 {
      assert a * a == (-a) * (-a);
    }
  }

  lemma ScaledComparison(g: real, x: real, y: real, x': real, y': real)
    requires g > 0.0 && x' == g * x && y' == g * y
    ensures x' > y' <==> x > y
  {
    SameSign(g, x - y);
    assert g * (x - y) == x' - y';
  }

  lemma SquareGrows(x: real, y: real)
    requires 0.0 <= x <= y
    ensures x * x <= y * y
    ensures x < y ==> x * x < y * y
  {
    assert y * y - x * x == (y - x) * (y - x) + 2.0 * (x * (y - x));
    assert x * (y - x) >= 0.0;
    if x < y {
      SquarePositive(y - x);
    } else {
      assert (y - x) * (y - x) == 0.0;
    }
  }

  lemma SquareOrder(x: real, y: real, v: real)
    requires x > 0.0 && y >= 0.0 && v == y * y
    ensures v >= x * x <==> y >= x
    ensures v > x * x <==> y > x
  {
    if y >= x {
      SquareGrows(x, y);
    } else {
      SquareGrows(y, x);
    }
  }

  lemma SquareOfAbs(z: real)
    ensures z * z == Abs(z) * Abs(z)
  {
  }

  lemma SquareOfProduct(d: real, z: real, sigma: real, v: real)
    requires d == z * sigma && v == sigma * sigma
    ensures d * d == v * (z * z)
  {
    assert d * d == z * (sigma * (z * sigma)) == (sigma * sigma) * (z * z);
  }

  lemma Regroup(t: real, v: real)
    ensures t * t * v == v * (t * t)
  {
  }

  lemma PositiveSquare(a: real, v: real)
    requires a > 0.0 && v == a * a
    ensures v > 0.0
  {
    assert v / a == a;
  }

  lemma ProductExceeds(z: real, d: real, sigma: real, t: real, v: real)
    requires sigma > 0.0 && t > 0.0 && v == sigma * sigma && d == z * sigma
    ensures Abs(z) > t <==> d * d > t * t * v
  {
    SquareOfProduct(d, z, sigma, v);
    Regroup(t, v);
    PositiveSquare(sigma, v);
    ScaledComparison(v, z * z, t * t, d * d, t * t * v);
    SquareOfAbs(z);
    SquareOrder(t, Abs(z), z * z);
  }
}
