/** Types and sequence operations shared by the models of every component. */
module Prelude {

  /**
   * Identifiers of nodes, jobs, policies, alerts, diagnoses and accounts. The programs only ever compare
   * them; where an empty string stands for "no identifier" the models use `None`.
   */
  type Id = int

  datatype Option<+T> = None | Some(value: T)

  datatype Result<+T, +E> = Ok(value: T) | Err(error: E)

  const U64_MAX: nat := 0xFFFF_FFFF_FFFF_FFFF
  const I64_MAX: int := 0x7FFF_FFFF_FFFF_FFFF
  const I64_MIN: int := -0x8000_0000_0000_0000

  ghost predicate Distinct<T>(s: seq<T>) {
    forall i, j :: 0 <= i < j < |s| ==> s[i] != s[j]
  }

  /** Where `x` first occurs in `s`; `|s|` when it does not. */
  function IndexOf<T(==)>(s: seq<T>, x: T): (i: nat)
    ensures i <= |s|
    ensures i < |s| ==> s[i] == x
    ensures forall j :: 0 <= j < i ==> s[j] != x
  {
    if |s| == 0 || s[0] == x then 0 else 1 + IndexOf(s[1..], x)
  }

  /** The content of a `deque(maxlen=n)` after `s` has been appended to it, element by element. */
  function LastN<T>(s: seq<T>, n: nat): (r: seq<T>)
    ensures |r| == if |s| <= n then |s| else n
  {
    if |s| <= n then s else s[|s| - n..]
  }

  /** Python's `s[-n:]`; for `n <= 0` this drops elements from the front (all are kept for `n == 0`). */
  function SliceFromEnd<T>(s: seq<T>, n: int): (r: seq<T>)
    ensures n > 0 ==> r == LastN(s, n)
    ensures n <= 0 ==> |r| == (if -n <= |s| then |s| + n else 0) && r == s[|s| - |r|..]
  {
    if n > 0 then LastN(s, n) else s[if -n <= |s| then -n else |s|..]
  }

  /** Python's `s[:n]`; for a negative `n` this drops elements from the back. */
  function SliceFromStart<T>(s: seq<T>, n: int): (r: seq<T>)
    ensures |r| <= |s| && r == s[..|r|]
    ensures n >= 0 ==> |r| == if |s| <= n then |s| else n
  {
    if n >= 0 then s[..if |s| <= n then |s| else n]
    else s[..if |s| + n >= 0 then |s| + n else 0]
  }

  /** Python's `s[::n]`. */
  function EveryNth<T>(s: seq<T>, n: nat): (r: seq<T>)
    requires n > 0
    ensures forall x :: x in r ==> x in s
  {
    if |s| <= n then (if |s| == 0 then [] else [s[0]])
    else [s[0]] + EveryNth(s[n..], n)
  }

  lemma EveryNthOfNothing<T>(n: int)
    ensures n > 0 ==> EveryNth<T>([], n) == []
  {
  }

  /** Which elements those are, and that none at a multiple of `n` is left out. */
  lemma {:induction false} EveryNthAt<T>(s: seq<T>, n: nat, i: nat)
    requires n > 0
    ensures i < |EveryNth(s, n)| <==> i * n < |s|
    ensures i < |EveryNth(s, n)| ==> EveryNth(s, n)[i] == s[i * n]
    decreases i
  {
    if i > 0 {
      Multiple(i, n);
      if |s| > n {
        EveryNthAt(s[n..], n, i - 1);
      }
    }
  }

  lemma Multiple(i: nat, n: nat)
    requires i > 0
    ensures i * n == (i - 1) * n + n && (i - 1) * n >= 0
  {
  }

  /** Appending to a bounded deque keeps exactly the newest elements of the unbounded history. */
  lemma LastNAppend<T>(s: seq<T>, x: T, n: nat)
    ensures LastN(LastN(s, n) + [x], n) == LastN(s + [x], n)
  {
  }

  lemma LastNNested<T>(s: seq<T>, n: nat, m: nat)
    ensures LastN(LastN(s, n), m) == LastN(s, if n <= m then n else m)
  {
  }

  function Map<S, T>(s: seq<S>, f: S -> T): (r: seq<T>)
    ensures |r| == |s|
    ensures forall i :: 0 <= i < |s| ==> r[i] == f(s[i])
  {
    seq(|s|, i requires 0 <= i < |s| => f(s[i]))
  }

  lemma MapLastN<S, T>(s: seq<S>, f: S -> T, n: nat)
    ensures Map(LastN(s, n), f) == LastN(Map(s, f), n)
  {
  }

  function Filter<T>(s: seq<T>, p: T -> bool): (r: seq<T>)
    ensures |r| <= |s|
  {
    if |s| == 0 then []
    else
      var rest := Filter(s[..|s| - 1], p);
      if p(s[|s| - 1]) then rest + [s[|s| - 1]] else rest
  }

  lemma {:induction false} FilterMembers<T>(s: seq<T>, p: T -> bool, x: T)
    ensures x in Filter(s, p) <==> x in s && p(x)
  {
    if |s| > 0 {
      FilterMembers(s[..|s| - 1], p, x);
      assert s == s[..|s| - 1] + [s[|s| - 1]];
    }
  }

  lemma FilterAppend<T>(s: seq<T>, x: T, p: T -> bool)
    ensures Filter(s + [x], p) == if p(x) then Filter(s, p) + [x] else Filter(s, p)
  {
  }

  lemma {:induction false} FilterConcat<T>(s: seq<T>, t: seq<T>, p: T -> bool)
    ensures Filter(s + t, p) == Filter(s, p) + Filter(t, p)
  {
    hide Filter;
    if |t| == 0 {
      assert s + t == s;
      FilterNothing(t, p);
    } else {
      var t', x := t[..|t| - 1], t[|t| - 1];
      FilterConcat(s, t', p);
      assert t == t' + [x] && s + t == (s + t') + [x];
      FilterAppend(s + t', x, p);
      FilterAppend(t', x, p);
      AppendLast(Filter(s, p), Filter(t', p), x);
    }
  }

  lemma FilterNothing<T>(s: seq<T>, p: T -> bool)
    requires |s| == 0
    ensures Filter(s, p) == []
  {
  }

  lemma {:induction false} FilterEverything<T>(s: seq<T>, p: T -> bool)
    requires forall i :: 0 <= i < |s| ==> p(s[i])
    ensures Filter(s, p) == s
  {
    if |s| > 0 {
      FilterEverything(s[..|s| - 1], p);
    }
  }

  lemma {:induction false} FilterSame<T>(s: seq<T>, p: T -> bool, q: T -> bool)
    requires forall i :: 0 <= i < |s| ==> (p(s[i]) <==> q(s[i]))
    ensures Filter(s, p) == Filter(s, q)
  {
    if |s| > 0 {
      FilterSame(s[..|s| - 1], p, q);
    }
  }

  lemma AppendLast<T>(a: seq<T>, b: seq<T>, x: T)
    ensures (a + b) + [x] == a + (b + [x])
  {
  }

  function Abs(x: real): (r: real)
    ensures r >= 0.0 && (r == x || r == -x)
  {
    if x < 0.0 then -x else x
  }

  function MaxInt(a: int, b: int): (r: int)
    ensures r >= a && r >= b && (r == a || r == b)
  {
    if a < b then b else a
  }

  /** Python's `int(x)`: truncation towards zero. */
  function Trunc(x: real): (n: int)
    ensures x >= 0.0 ==> n as real <= x < n as real + 1.0
    ensures x < 0.0 ==> n as real - 1.0 < x <= n as real
  {
    if x >= 0.0 then x.Floor else -((-x).Floor)
  }

}
