/** Trailing runs: the longest suffix of a history whose elements all pass a test. */
module TrailingRuns {
  import opened Prelude

  /** Where the longest suffix satisfying `p` begins; `|s|` when the last element fails. */
  function RunStart<T>(s: seq<T>, p: T -> bool): (k: nat)
    ensures k <= |s|
    ensures forall i :: k <= i < |s| ==> p(s[i])
    ensures k > 0 ==> !p(s[k - 1])
  {
    if |s| == 0 then 0
    else if !p(s[|s| - 1]) then |s|
    else RunStart(s[..|s| - 1], p)
  }

  /** The contract of `RunStart` leaves no other answer. */
  lemma RunStartUnique<T>(s: seq<T>, p: T -> bool, k: nat)
    requires k <= |s|
    requires forall i :: k <= i < |s| ==> p(s[i])
    requires k > 0 ==> !p(s[k - 1])
    ensures k == RunStart(s, p)
  {
  }

  /** Every passing suffix lies inside the longest one. */
  lemma RunStartLeast<T>(s: seq<T>, p: T -> bool, k: nat)
    requires k <= |s|
    requires forall i :: k <= i < |s| ==> p(s[i])
    ensures RunStart(s, p) <= k
  {
  }

  /** Keeping only the last `n` elements caps the length of the trailing run at `n`, and does nothing else to it. */
  lemma RunOfLastN<T>(s: seq<T>, p: T -> bool, n: nat)
    ensures var run := |s| - RunStart(s, p);
            |LastN(s, n)| - RunStart(LastN(s, n), p) == if run <= n then run else n
  {
  }

}
