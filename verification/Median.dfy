/** `numpy.median`: the middle of the sorted values, or the mean of the two middle ones. */
module Median {
  import opened Sorting

  function Median(s: seq<real>): real
    requires |s| > 0
  {
    var t, n := Sort(s, Identity()), |s|;
    if n % 2 == 1 then t[n / 2] else (t[n / 2 - 1] + t[n / 2]) / 2.0
  }

  function AtLeast(c: real): real -> bool {
    (x: real) => x >= c
  }

  function Below(c: real): real -> bool {
    (x: real) => x < c
  }

  /** The order of the samples does not matter. */
  lemma MedianPermutation(a: seq<real>, b: seq<real>)
    requires |a| > 0 && multiset(a) == multiset(b)
    ensures |b| > 0 && Median(a) == Median(b)
  {
    hide Sort, SortedBy;
    SameSize(a, b);
    SortSorted(a, Identity());
    SortSorted(b, Identity());
    SortedUnique(Sort(a, Identity()), Sort(b, Identity()));
  }

  /** For samples already in order it can be read off: the middle one, or the mean of the middle two. */
  lemma MedianOfSorted(t: seq<real>, s: seq<real>)
    requires |t| > 0 && (forall i, j :: 0 <= i < j < |t| ==> t[i] <= t[j])
    requires multiset(s) == multiset(t)
    ensures |s| == |t|
    ensures |t| % 2 == 1 ==> Median(s) == t[(|t| - 1) / 2]
    ensures |t| % 2 == 0 ==> 2.0 * Median(s) == t[|t| / 2 - 1] + t[|t| / 2]
  {
    hide Sort;
    SameSize(s, t);
    SortSorted(s, Identity());
    assert SortedBy(t, Identity());
    SortedUnique(Sort(s, Identity()), t);
  }

  lemma CountPrefix(t: seq<real>, p: real -> bool, k: nat)
    requires k <= |t| && forall i :: 0 <= i < k ==> p(t[i])
    ensures Count(t, p) >= k
  {
    assert t == t[..k] + t[k..];
    CountAppend(t[..k], t[k..], p);
    CountAll(t[..k], p);
  }

  lemma CountSuffix(t: seq<real>, p: real -> bool, k: nat)
    requires k <= |t| && forall i :: k <= i < |t| ==> p(t[i])
    ensures Count(t, p) >= |t| - k
  {
    assert t == t[..k] + t[k..];
    CountAppend(t[..k], t[k..], p);
    CountAll(t[k..], p);
  }

  lemma BelowPrefix(t: seq<real>, c: real, k: nat)
    requires SortedBy(t, Identity()) && k < |t| && t[k] < c
    ensures Count(t, Below(c)) >= k + 1
  {
    hide Count;
    forall i | 0 <= i < k + 1 ensures Below(c)(t[i]) {
      assert i < k ==> Identity()(t[i]) <= Identity()(t[k]);
    }
    CountPrefix(t, Below(c), k + 1);
  }

  lemma AtLeastSuffix(t: seq<real>, c: real, k: nat)
    requires SortedBy(t, Identity()) && k < |t| && t[k] >= c
    ensures Count(t, AtLeast(c)) >= |t| - k
  {
    hide Count;
    forall i | k <= i < |t| ensures AtLeast(c)(t[i]) {
      assert k < i ==> Identity()(t[k]) <= Identity()(t[i]);
    }
    CountSuffix(t, AtLeast(c), k);
  }

  /** In sorted order, fewer than half the values are below `c` iff the lower middle one is not. */
  lemma SortedCounts(s: seq<real>, c: real, k: nat)
    requires k < |s|
    ensures Sort(s, Identity())[k] < c ==> Count(s, Below(c)) >= k + 1
    ensures Sort(s, Identity())[k] >= c ==> Count(s, AtLeast(c)) >= |s| - k
  {
    hide Count, Sort, SortedBy;
    var t := Sort(s, Identity());
    SortSorted(s, Identity());
    if t[k] < c {
      BelowPrefix(t, c, k);
      CountPermutation(s, t, Below(c));
    } else {
      AtLeastSuffix(t, c, k);
      CountPermutation(s, t, AtLeast(c));
    }
  }

  lemma MiddleOrder(s: seq<real>)
    requires |s| > 1
    ensures Sort(s, Identity())[|s| / 2 - 1] <= Sort(s, Identity())[|s| / 2]
  {
    SortSorted(s, Identity());
    InOrder(Sort(s, Identity()), |s| / 2 - 1, |s| / 2);
  }

  lemma InOrder(t: seq<real>, i: nat, j: nat)
    requires SortedBy(t, Identity()) && i < j < |t|
    ensures t[i] <= t[j]
  {
    assert Identity()(t[i]) <= Identity()(t[j]);
  }

  lemma Opposites(s: seq<real>, c: real)
    ensures Count(s, AtLeast(c)) + Count(s, Below(c)) == |s|
  {
    CountNegation(s, AtLeast(c), Below(c));
  }

  lemma MajorityAtLeast(s: seq<real>, c: real)
    requires |s| > 0 && 2 * Count(s, AtLeast(c)) > |s|
    ensures Median(s) >= c
  {
    hide Count, Sort;
    Opposites(s, c);
    var n := |s|;
    if n % 2 == 1 {
      SortedCounts(s, c, n / 2);
    } else {
      SortedCounts(s, c, n / 2 - 1);
      MiddleOrder(s);
    }
  }

  lemma MajorityBelow(s: seq<real>, c: real)
    requires |s| > 0 && 2 * Count(s, Below(c)) > |s|
    ensures Median(s) < c
  {
    hide Count, Sort;
    Opposites(s, c);
    SortedCounts(s, c, |s| / 2);
    if |s| % 2 == 0 {
      MiddleOrder(s);
    }
  }

  /** A strict majority decides the side of the median. */
  lemma MajorityDecides(s: seq<real>, c: real)
    requires |s| > 0
    ensures 2 * Count(s, AtLeast(c)) > |s| ==> Median(s) >= c
    ensures 2 * Count(s, Below(c)) > |s| ==> Median(s) < c
  {
    if 2 * Count(s, AtLeast(c)) > |s| {
      MajorityAtLeast(s, c);
    }
    if 2 * Count(s, Below(c)) > |s| {
      MajorityBelow(s, c);
    }
  }
}
