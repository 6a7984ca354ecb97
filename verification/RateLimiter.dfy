/** Per-node cooldown for diagnosis requests. */
module RateLimiter {
  import opened Prelude
  import opened Sorting

  const DEFAULT_COOLDOWN_SECONDS := 30.0

  /** When a node last acquired; a node unknown to the limiter counts as having acquired at time zero. */
  function LastCall(lastCall: map<Id, real>, node: Id): real {
    if node in lastCall then lastCall[node] else 0.0
  }

  predicate Allows(lastCall: map<Id, real>, cooldown: real, node: Id, now: real) {
    !(now - LastCall(lastCall, node) < cooldown)
  }

  datatype Event = Granted(node: Id, at: real) | Forgotten(node: Id) | AllForgotten

  predicate IsReset(e: Event, node: Id) {
    e == Forgotten(node) || e == AllForgotten
  }

  predicate IsGrant(e: Event, node: Id) {
    e.Granted? && e.node == node
  }

  /** The times at which `node` was granted. */
  function GrantTimes(events: seq<Event>, node: Id): seq<real> {
    if |events| == 0 then []
    else
      var e := events[|events| - 1];
      GrantTimes(events[..|events| - 1], node) + if IsGrant(e, node) then [e.at] else []
  }

  /** The last grant of `node` that no later reset has forgotten. */
  function Remembered(events: seq<Event>, node: Id): Option<real> {
    if |events| == 0 || IsReset(events[|events| - 1], node) then None
    else if IsGrant(events[|events| - 1], node) then Some(events[|events| - 1].at)
    else Remembered(events[..|events| - 1], node)
  }

  ghost predicate Legal(before: seq<Event>, e: Event, cooldown: real) {
    e.Granted? && Remembered(before, e.node).Some? ==> e.at - Remembered(before, e.node).value >= cooldown
  }

  /** Every grant is at least a cooldown after the remembered one. */
  ghost predicate LegalRun(events: seq<Event>, cooldown: real) {
    forall i :: 0 <= i < |events| ==> Legal(events[..i], events[i], cooldown)
  }

  lemma LegalAppend(events: seq<Event>, e: Event, cooldown: real)
    requires LegalRun(events, cooldown) && Legal(events, e, cooldown)
    ensures LegalRun(events + [e], cooldown)
  {
    forall i | 0 <= i < |events| + 1 ensures Legal((events + [e])[..i], (events + [e])[i], cooldown) {
      assert (events + [e])[..i] == events[..i];
    }
    assert events[..|events|] == events;
  }

  lemma RememberedAppend(events: seq<Event>, e: Event, node: Id)
    ensures Remembered(events + [e], node)
            == if IsReset(e, node) then None else if IsGrant(e, node) then Some(e.at) else Remembered(events, node)
  {
    assert (events + [e])[..|events|] == events;
  }

  class Limiter {
    const cooldown: real
    var lastCall: map<Id, real>
    /** Every grant and reset so far. */
    ghost var events: seq<Event>

    /** The limiter remembers exactly the grants since the last reset, and has never granted too early. */
    ghost predicate Valid()
      reads this
    {
      && LegalRun(events, cooldown)
      && forall node :: Remembered(events, node) == if node in lastCall then Some(lastCall[node]) else None
    }

    constructor (cooldown: real := DEFAULT_COOLDOWN_SECONDS)
      ensures Valid() && this.cooldown == cooldown && lastCall == map[] && events == []
    {
      this.cooldown := cooldown;
      lastCall, events := map[], [];
    }

    method TryAcquire(node: Id, now: real) returns (granted: bool)
      requires Valid()
      modifies this
      ensures Valid()
      ensures granted == Allows(old(lastCall), cooldown, node, now)
      ensures granted <==> (if node in old(lastCall) then now - old(lastCall)[node] >= cooldown else now >= cooldown)
      ensures lastCall == if granted then old(lastCall)[node := now] else old(lastCall)
      ensures events == if granted then old(events) + [Granted(node, now)] else old(events)
    {
      var last := if node in lastCall then lastCall[node] else 0.0;
      if now - last < cooldown {
        return false;
      }
      Note(Granted(node, now));
      lastCall := lastCall[node := now];
      granted := true;
    }

    method Reset(node: Id)
      requires Valid()
      modifies this
      ensures Valid() && lastCall == old(lastCall) - {node}
      ensures events == old(events) + [Forgotten(node)]
    {
      Note(Forgotten(node));
      lastCall := lastCall - {node};
    }

    method ResetAll()
      requires Valid()
      modifies this
      ensures Valid() && lastCall == map[]
      ensures events == old(events) + [AllForgotten]
    {
      Note(AllForgotten);
      lastCall := map[];
    }

    /** Appends to the history what is about to happen. */
    ghost method Note(e: Event)
      requires LegalRun(events, cooldown) && Legal(events, e, cooldown)
      modifies this`events
      ensures events == old(events) + [e] && LegalRun(events, cooldown)
      ensures forall n :: Remembered(events, n)
                          == if IsReset(e, n) then None else if IsGrant(e, n) then Some(e.at)
                            else Remembered(old(events), n)
    {
      LegalAppend(events, e, cooldown);
      forall n {
        RememberedAppend(events, e, n);
      }
      events := events + [e];
    }
  }

  /** The first request of a node is granted iff the clock itself has reached the cooldown. */
  lemma FirstRequest(lastCall: map<Id, real>, cooldown: real, node: Id, now: real)
    requires node !in lastCall
    ensures Allows(lastCall, cooldown, node, now) <==> now >= cooldown
  {
  }

  // Grants over a run.

  /** Every grant is at least a cooldown after the one before it. */
  ghost predicate Spaced(grants: seq<real>, cooldown: real) {
    forall i :: 0 < i < |grants| ==> grants[i] - grants[i - 1] >= cooldown
  }

  function Between(from: real, to: real): real -> bool {
    (t: real) => from <= t <= to
  }

  lemma NextGap(k: real, cooldown: real, gap: real, first: real, prev: real, last: real)
    requires prev - first >= k * cooldown && last - prev >= cooldown
    ensures last - first >= (k + 1.0) * cooldown
  {
  }

  /** Grants `k` positions apart are `k` cooldowns apart. */
  lemma {:induction false} SpacedFar(grants: seq<real>, cooldown: real, i: nat, j: nat)
    requires Spaced(grants, cooldown) && i <= j < |grants|
    ensures grants[j] - grants[i] >= (j - i) as real * cooldown
  {
    if i < j {
      SpacedFar(grants, cooldown, i, j - 1);
      assert (j - i) as real == (j - 1 - i) as real + 1.0;
      NextGap((j - 1 - i) as real, cooldown, grants[j] - grants[j - 1], grants[i], grants[j - 1], grants[j]);
    }
  }

  lemma {:induction false} CountRange(grants: seq<real>, p: real -> bool, lo: nat, hi: nat)
    requires lo <= hi <= |grants|
    requires forall i :: 0 <= i < |grants| && p(grants[i]) ==> lo <= i < hi
    ensures Count(grants, p) <= hi - lo
  {
    if |grants| > 0 {
      if lo > 0 {
        CountRange(grants[1..], p, lo - 1, hi - 1);
      } else {
        forall i | 0 <= i < |grants[1..]| && p(grants[1..][i]) ensures 0 <= i < (if hi > 0 then hi - 1 else 0) {
          assert p(grants[i + 1]);
        }
        CountRange(grants[1..], p, 0, if hi > 0 then hi - 1 else 0);
      }
    }
  }

  /** `floor(length / cooldown) + 1` bounds the grants that fit into an interval. */
  function Capacity(length: real, cooldown: real): int
    requires cooldown > 0.0
  {
    (length / cooldown).Floor + 1
  }

  /** It is one more than the whole cooldowns in the interval. */
  lemma WholeCooldowns(length: real, cooldown: real)
    requires cooldown > 0.0
    ensures var n := Capacity(length, cooldown);
            (n - 1) as real * cooldown <= length < n as real * cooldown
  {
    hide Capacity;
    var q, n := length / cooldown, Capacity(length, cooldown);
    CapacityAbove(length, cooldown);
    QuotientTimes(length, cooldown, q);
    SmallerProduct((n - 1) as real, q, cooldown);
    LargerProduct(q, n as real, cooldown);
  }

  lemma CapacityAbove(length: real, cooldown: real)
    requires cooldown > 0.0
    ensures (Capacity(length, cooldown) - 1) as real <= length / cooldown < Capacity(length, cooldown) as real
  {
  }

  lemma QuotientTimes(x: real, c: real, q: real)
    requires c > 0.0 && q == x / c
    ensures q * c == x
  {
  }

  lemma SmallerProduct(x: real, y: real, c: real)
    requires c > 0.0 && x <= y
    ensures x * c <= y * c
  {
  }

  lemma LargerProduct(x: real, y: real, c: real)
    requires c > 0.0 && x < y
    ensures x * c < y * c
  {
  }

  lemma FitsIn(k: int, length: real, cooldown: real)
    requires cooldown > 0.0 && k as real * cooldown <= length
    ensures k + 1 <= Capacity(length, cooldown)
  {
    QuotientAtLeast(k as real, length / cooldown, length, cooldown);
  }

  lemma QuotientAtLeast(x: real, q: real, length: real, c: real)
    requires c > 0.0 && x * c <= length && q == length / c
    ensures x <= q
  {
  }

  lemma SpacedInInterval(grants: seq<real>, cooldown: real, from: real, length: real)
    requires cooldown > 0.0 && length >= 0.0 && Spaced(grants, cooldown)
    ensures Count(grants, Between(from, from + length)) <= Capacity(length, cooldown)
  {
    hide Capacity, Spaced, Count;
    var p := Between(from, from + length);
    FitsIn(0, length, cooldown);
    if exists i :: 0 <= i < |grants| && p(grants[i]) {
      var lo := FirstHit(grants, p);
      var hi := LastHit(grants, p);
      assert lo <= hi;
      CountRange(grants, p, lo, hi + 1);
      SpacedFar(grants, cooldown, lo, hi);
      assert grants[hi] - grants[lo] <= length;
      FitsIn(hi - lo, length, cooldown);
    } else {
      CountRange(grants, p, 0, 0);
    }
  }

  ghost predicate NoReset(events: seq<Event>, node: Id) {
    forall i :: 0 <= i < |events| ==> !IsReset(events[i], node)
  }

  /** Between resets of a node its grants are spaced, whatever happened before. */
  lemma {:induction false} SegmentSpaced(before: seq<Event>, segment: seq<Event>, cooldown: real, node: Id)
    requires LegalRun(before + segment, cooldown) && NoReset(segment, node)
    ensures var grants := GrantTimes(segment, node);
            && Spaced(grants, cooldown)
            && (|grants| > 0 ==> Remembered(before + segment, node) == Some(grants[|grants| - 1]))
  {
    if |segment| > 0 {
      var shorter, e := segment[..|segment| - 1], segment[|segment| - 1];
      var all := before + segment;
      assert all == (before + shorter) + [e];
      assert LegalRun(before + shorter, cooldown) by {
        forall i | 0 <= i < |before + shorter| ensures Legal((before + shorter)[..i], (before + shorter)[i], cooldown) {
          assert all[..i] == (before + shorter)[..i];
        }
      }
      SegmentSpaced(before, shorter, cooldown, node);
      RememberedAppend(before + shorter, e, node);
      assert all[..|all| - 1] == before + shorter;
      assert Legal(all[..|all| - 1], all[|all| - 1], cooldown);
    }
  }

  /**
   * In any stretch of a run that holds no reset of a node, at most `floor(length / cooldown) + 1` of the
   * node's grants fall into an interval of `length` seconds.
   */
  lemma GrantsInInterval(before: seq<Event>, segment: seq<Event>, cooldown: real, node: Id, from: real, length: real)
    requires LegalRun(before + segment, cooldown) && NoReset(segment, node)
    requires cooldown > 0.0 && length >= 0.0
    ensures Count(GrantTimes(segment, node), Between(from, from + length)) <= Capacity(length, cooldown)
  {
    SegmentSpaced(before, segment, cooldown, node);
    SpacedInInterval(GrantTimes(segment, node), cooldown, from, length);
  }

  lemma {:induction false} FirstHit(grants: seq<real>, p: real -> bool) returns (lo: nat)
    requires exists i :: 0 <= i < |grants| && p(grants[i])
    ensures lo < |grants| && p(grants[lo]) && forall i :: 0 <= i < lo ==> !p(grants[i])
  {
    lo := 0;
    while !p(grants[lo])
      invariant lo < |grants| && forall i :: 0 <= i < lo ==> !p(grants[i])
      decreases |grants| - lo
    {
      lo := lo + 1;
    }
  }

  lemma LastHit(grants: seq<real>, p: real -> bool) returns (hi: nat)
    requires exists i :: 0 <= i < |grants| && p(grants[i])
    ensures hi < |grants| && p(grants[hi]) && forall i :: hi < i < |grants| ==> !p(grants[i])
  {
    var k := |grants| - 1;
    while !p(grants[k])
      invariant 0 <= k < |grants| && forall i :: k < i < |grants| ==> !p(grants[i])
      decreases k
    {
      k := k - 1;
    }
    hi := k;
  }
}
