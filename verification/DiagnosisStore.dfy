/** The bounded store of diagnoses with its side index of fingerprints. */
module DiagnosisStore {
  import opened Prelude

  datatype Status = Completed | Failed | RateLimited | Cached

  /** What a fingerprint hashes: the list of normalised parts of an alert. */
  type Fingerprint = seq<int>

  datatype Diagnosis = Diagnosis(
    id: Id, alertId: Id, node: Id, timestampMs: int, rootCause: Id, confidence: real, status: Status,
    cachedFrom: Option<Id>)

  predicate Usable(d: Diagnosis, fingerprints: map<Id, Fingerprint>, fingerprint: Fingerprint, minConfidence: real) {
    && d.status == Completed
    && !(d.confidence < minConfidence)
    && d.id in fingerprints && fingerprints[d.id] == fingerprint
  }

  /** The newest-first scan: skips what is unusable, and gives up at the first entry older than the cutoff. */
  function Lookup(diagnoses: seq<Diagnosis>, fingerprints: map<Id, Fingerprint>, fingerprint: Fingerprint,
                  minConfidence: real, cutoffMs: int): Option<Diagnosis> {
    if |diagnoses| == 0 || diagnoses[|diagnoses| - 1].timestampMs < cutoffMs then None
    else if Usable(diagnoses[|diagnoses| - 1], fingerprints, fingerprint, minConfidence)
    then Some(diagnoses[|diagnoses| - 1])
    else Lookup(diagnoses[..|diagnoses| - 1], fingerprints, fingerprint, minConfidence, cutoffMs)
  }

  /** The entry at `k` is a match within the TTL, and there is no newer one. */
  ghost predicate NewestMatch(diagnoses: seq<Diagnosis>, fingerprints: map<Id, Fingerprint>, fingerprint: Fingerprint,
                              minConfidence: real, cutoffMs: int, k: nat) {
    && k < |diagnoses| && diagnoses[k].timestampMs >= cutoffMs
    && Usable(diagnoses[k], fingerprints, fingerprint, minConfidence)
    && forall i :: k < i < |diagnoses| && diagnoses[i].timestampMs >= cutoffMs ==>
         !Usable(diagnoses[i], fingerprints, fingerprint, minConfidence)
  }

  /** No entry after position `k` is older than the cutoff. */
  ghost predicate NothingStaleAfter(diagnoses: seq<Diagnosis>, cutoffMs: int, k: int) {
    forall i :: k < i < |diagnoses| && 0 <= i ==> diagnoses[i].timestampMs >= cutoffMs
  }

  /** Whatever the order of timestamps, a result passes every filter. */
  lemma {:induction false} LookupIsSound(diagnoses: seq<Diagnosis>, fingerprints: map<Id, Fingerprint>,
                                         fingerprint: Fingerprint, minConfidence: real, cutoffMs: int)
    ensures var r := Lookup(diagnoses, fingerprints, fingerprint, minConfidence, cutoffMs);
            r.Some? ==>
              && r.value in diagnoses && r.value.timestampMs >= cutoffMs
              && r.value.status == Completed && r.value.confidence >= minConfidence
              && r.value.id in fingerprints && fingerprints[r.value.id] == fingerprint
  {
    if |diagnoses| > 0 {
      LookupIsSound(diagnoses[..|diagnoses| - 1], fingerprints, fingerprint, minConfidence, cutoffMs);
    }
  }

  /** Exactly when the early exit loses the newest match: when something older than the cutoff was stored after it. */
  lemma {:induction false} LookupFindsNewestMatch(
    diagnoses: seq<Diagnosis>, fingerprints: map<Id, Fingerprint>, fingerprint: Fingerprint,
    minConfidence: real, cutoffMs: int, k: nat)
    requires NewestMatch(diagnoses, fingerprints, fingerprint, minConfidence, cutoffMs, k)
    ensures Lookup(diagnoses, fingerprints, fingerprint, minConfidence, cutoffMs)
            == if NothingStaleAfter(diagnoses, cutoffMs, k) then Some(diagnoses[k]) else None
  {
    var n := |diagnoses| - 1;
    if k < n && diagnoses[n].timestampMs >= cutoffMs {
      LookupFindsNewestMatch(diagnoses[..n], fingerprints, fingerprint, minConfidence, cutoffMs, k);
      assert NothingStaleAfter(diagnoses, cutoffMs, k) <==> NothingStaleAfter(diagnoses[..n], cutoffMs, k) by {
        assert forall i :: 0 <= i < n ==> diagnoses[..n][i] == diagnoses[i];
      }
    } else if k < n {
      assert !NothingStaleAfter(diagnoses, cutoffMs, k);
    }
  }

  /** Any usable fresh entry is missed once something stale is stored after it. */
  lemma StaleEntryHidesMatch(d: Diagnosis, stale: Diagnosis, fingerprints: map<Id, Fingerprint>,
                             fingerprint: Fingerprint, minConfidence: real, cutoffMs: int)
    requires Usable(d, fingerprints, fingerprint, minConfidence)
    requires stale.timestampMs < cutoffMs <= d.timestampMs
    ensures NewestMatch([d, stale], fingerprints, fingerprint, minConfidence, cutoffMs, 0)
    ensures Lookup([d, stale], fingerprints, fingerprint, minConfidence, cutoffMs) == None
  {
    assert !NothingStaleAfter([d, stale], cutoffMs, 0) by {
      assert [d, stale][1] == stale;
    }
    LookupFindsNewestMatch([d, stale], fingerprints, fingerprint, minConfidence, cutoffMs, 0);
  }

  ghost predicate Chronological(diagnoses: seq<Diagnosis>) {
    forall i, j :: 0 <= i < j < |diagnoses| ==> diagnoses[i].timestampMs <= diagnoses[j].timestampMs
  }

  /** With nondecreasing timestamps the scan is exact: it returns the newest match, and nothing iff there is none. */
  lemma LookupIsExact(diagnoses: seq<Diagnosis>, fingerprints: map<Id, Fingerprint>, fingerprint: Fingerprint,
                      minConfidence: real, cutoffMs: int)
    requires Chronological(diagnoses)
    ensures var r := Lookup(diagnoses, fingerprints, fingerprint, minConfidence, cutoffMs);
            && (forall k: nat :: NewestMatch(diagnoses, fingerprints, fingerprint, minConfidence, cutoffMs, k) ==>
                              r == Some(diagnoses[k]))
            && (r.None? ==> forall i :: 0 <= i < |diagnoses| && diagnoses[i].timestampMs >= cutoffMs ==>
                                          !Usable(diagnoses[i], fingerprints, fingerprint, minConfidence))
  {
    var r := Lookup(diagnoses, fingerprints, fingerprint, minConfidence, cutoffMs);
    forall k: nat | NewestMatch(diagnoses, fingerprints, fingerprint, minConfidence, cutoffMs, k)
      ensures r == Some(diagnoses[k])
    {
      LookupFindsNewestMatch(diagnoses, fingerprints, fingerprint, minConfidence, cutoffMs, k);
    }
    if i :| 0 <= i < |diagnoses| && diagnoses[i].timestampMs >= cutoffMs
            && Usable(diagnoses[i], fingerprints, fingerprint, minConfidence) {
      var k := NewestOf(diagnoses, fingerprints, fingerprint, minConfidence, cutoffMs, i);
      LookupFindsNewestMatch(diagnoses, fingerprints, fingerprint, minConfidence, cutoffMs, k);
    }
  }

  /** Some held entry is a match within the TTL. */
  ghost predicate HasMatch(diagnoses: seq<Diagnosis>, fingerprints: map<Id, Fingerprint>, fingerprint: Fingerprint,
                           minConfidence: real, cutoffMs: int) {
    exists i :: 0 <= i < |diagnoses| && diagnoses[i].timestampMs >= cutoffMs
                && Usable(diagnoses[i], fingerprints, fingerprint, minConfidence)
  }

  lemma LookupIffMatch(diagnoses: seq<Diagnosis>, fingerprints: map<Id, Fingerprint>, fingerprint: Fingerprint,
                       minConfidence: real, cutoffMs: int)
    requires Chronological(diagnoses)
    ensures Lookup(diagnoses, fingerprints, fingerprint, minConfidence, cutoffMs).Some?
            <==> HasMatch(diagnoses, fingerprints, fingerprint, minConfidence, cutoffMs)
  {
    hide Lookup, Chronological, NewestMatch;
    LookupIsExact(diagnoses, fingerprints, fingerprint, minConfidence, cutoffMs);
    LookupIsSound(diagnoses, fingerprints, fingerprint, minConfidence, cutoffMs);
  }

  lemma NewestOf(diagnoses: seq<Diagnosis>, fingerprints: map<Id, Fingerprint>, fingerprint: Fingerprint,
                 minConfidence: real, cutoffMs: int, i: nat) returns (k: nat)
    requires i < |diagnoses| && diagnoses[i].timestampMs >= cutoffMs
    requires Usable(diagnoses[i], fingerprints, fingerprint, minConfidence)
    ensures k >= i && NewestMatch(diagnoses, fingerprints, fingerprint, minConfidence, cutoffMs, k)
  {
    k := i;
    for j := i + 1 to |diagnoses|
      invariant i <= k < j && diagnoses[k].timestampMs >= cutoffMs
      invariant Usable(diagnoses[k], fingerprints, fingerprint, minConfidence)
      invariant forall l :: k < l < j && diagnoses[l].timestampMs >= cutoffMs ==>
                              !Usable(diagnoses[l], fingerprints, fingerprint, minConfidence)
    {
      if diagnoses[j].timestampMs >= cutoffMs && Usable(diagnoses[j], fingerprints, fingerprint, minConfidence) {
        k := j;
      }
    }
  }

  // Pruning the index.

  function LiveIds(diagnoses: seq<Diagnosis>): set<Id> {
    set i | 0 <= i < |diagnoses| :: diagnoses[i].id
  }

  function Pruned(diagnoses: seq<Diagnosis>, fingerprints: map<Id, Fingerprint>): map<Id, Fingerprint> {
    map k | k in fingerprints && k in LiveIds(diagnoses) :: fingerprints[k]
  }

  class Store {
    const maxSize: nat
    var diagnoses: seq<Diagnosis>
    var fingerprints: map<Id, Fingerprint>
    /** Everything ever added, and everything ever indexed. */
    ghost var added: seq<Diagnosis>
    ghost var indexed: map<Id, Fingerprint>

    /** The deque holds the newest additions; the index agrees with one that is never pruned on everything held. */
    ghost predicate Valid()
      reads this
    {
      && diagnoses == LastN(added, maxSize)
      && (forall k :: k in fingerprints ==> k in indexed && fingerprints[k] == indexed[k])
      && (forall k :: k in indexed && k in LiveIds(diagnoses) ==> k in fingerprints)
      && |fingerprints| <= maxSize + 1
    }

    constructor (maxSize: nat)
      ensures Valid() && added == [] && indexed == map[] && this.maxSize == maxSize
    {
      this.maxSize := maxSize;
      diagnoses, fingerprints, added, indexed := [], map[], [], map[];
    }

    /** Ids are fresh: the new diagnosis has not been indexed before it is stored. */
    method Add(d: Diagnosis)
      requires Valid() && d.id !in indexed
      modifies this`diagnoses, this`added
      ensures Valid() && added == old(added) + [d]
      ensures diagnoses == LastN(old(diagnoses) + [d], maxSize)
    {
      LastNAppend(added, d, maxSize);
      ghost var before := diagnoses;
      diagnoses := LastN(diagnoses + [d], maxSize);
      added := added + [d];
      forall k | k in indexed && k in LiveIds(diagnoses) ensures k in fingerprints {
        var i :| 0 <= i < |diagnoses| && diagnoses[i].id == k;
        assert diagnoses[i] in before + [d];
        assert diagnoses[i] in before;
      }
    }

    /** The lookup gives the answer that the never-pruned index would give. */
    method FindCachedMatch(fingerprint: Fingerprint, maxAgeMs: int, minConfidence: real, nowMs: int)
      returns (r: Option<Diagnosis>)
      requires Valid()
      ensures r == Lookup(diagnoses, fingerprints, fingerprint, minConfidence, nowMs - maxAgeMs)
      ensures r == Lookup(diagnoses, indexed, fingerprint, minConfidence, nowMs - maxAgeMs)
    {
      SameLookup(diagnoses, fingerprints, indexed, fingerprint, minConfidence, nowMs - maxAgeMs);
      var cutoffMs := nowMs - maxAgeMs;
      var i := |diagnoses|;
      assert diagnoses[..i] == diagnoses;
      while i > 0
        invariant 0 <= i <= |diagnoses|
        invariant Lookup(diagnoses, fingerprints, fingerprint, minConfidence, cutoffMs)
                  == Lookup(diagnoses[..i], fingerprints, fingerprint, minConfidence, cutoffMs)
      {
        i := i - 1;
        var d := diagnoses[i];
        assert diagnoses[..i + 1][..i] == diagnoses[..i];
        if d.timestampMs < cutoffMs {
          return None;
        }
        if d.status != Completed {
          continue;
        }
        if d.confidence < minConfidence {
          continue;
        }
        if d.id in fingerprints && fingerprints[d.id] == fingerprint {
          return Some(d);
        }
      }
      r := None;
    }

    method IndexFingerprint(id: Id, fingerprint: Fingerprint)
      requires Valid()
      modifies this`fingerprints, this`indexed
      ensures Valid() && indexed == old(indexed)[id := fingerprint]
      ensures fingerprints == Pruned(diagnoses, old(fingerprints))[id := fingerprint]
      ensures id in LiveIds(diagnoses) ==> fingerprints.Keys <= LiveIds(diagnoses)
    {
      var liveIds := LiveIds(diagnoses);
      fingerprints := map k | k in fingerprints && k in liveIds :: fingerprints[k];
      FewIds(diagnoses);
      Subset(fingerprints, liveIds);
      fingerprints := fingerprints[id := fingerprint];
      indexed := indexed[id := fingerprint];
    }
  }

  lemma {:induction false} FewIds(diagnoses: seq<Diagnosis>)
    ensures |LiveIds(diagnoses)| <= |diagnoses|
  {
    if |diagnoses| > 0 {
      var n := |diagnoses| - 1;
      FewIds(diagnoses[..n]);
      assert LiveIds(diagnoses) == LiveIds(diagnoses[..n]) + {diagnoses[n].id};
    }
  }

  lemma Subset(m: map<Id, Fingerprint>, s: set<Id>)
    requires m.Keys <= s
    ensures |m| <= |s|
  {
    if |m.Keys| > |s| {
      assert |s - m.Keys| == |s| - |m.Keys|;
    }
  }

  lemma {:induction false} SameLookup(diagnoses: seq<Diagnosis>, a: map<Id, Fingerprint>, b: map<Id, Fingerprint>,
                                      fingerprint: Fingerprint, minConfidence: real, cutoffMs: int)
    requires forall k :: k in LiveIds(diagnoses) ==> (k in a <==> k in b)
    requires forall k :: k in LiveIds(diagnoses) && k in a && k in b ==> a[k] == b[k]
    ensures Lookup(diagnoses, a, fingerprint, minConfidence, cutoffMs)
            == Lookup(diagnoses, b, fingerprint, minConfidence, cutoffMs)
  {
    if |diagnoses| > 0 {
      var n := |diagnoses| - 1;
      assert LiveIds(diagnoses) == LiveIds(diagnoses[..n]) + {diagnoses[n].id};
      SameLookup(diagnoses[..n], a, b, fingerprint, minConfidence, cutoffMs);
    }
  }
}
