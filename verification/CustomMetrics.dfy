/** User-defined metrics: ring buffers per (name, job), and the newest-first query over them. */
module CustomMetrics {
  import opened Prelude
  import opened Sorting
  import PC = PolicyConditions

  datatype CustomMetric = CustomMetric(nodeId: Id, jobId: Option<Id>, name: Id, timestampMs: int, value: real)

  type Key = (Id, Option<Id>)

  function KeyOf(m: CustomMetric): Key {
    (m.name, m.jobId)
  }

  function HasKey(k: Key): CustomMetric -> bool {
    (m: CustomMetric) => KeyOf(m) == k
  }

  datatype Query = Query(name: Option<Id>, job: Option<Option<Id>>, node: Option<Id>)

  predicate KeyMatches(q: Query, k: Key) {
    (q.name.Some? ==> k.0 == q.name.value) && (q.job.Some? ==> k.1 == q.job.value)
  }

  function NodeMatches(q: Query): CustomMetric -> bool {
    (m: CustomMetric) => q.node.Some? ==> m.nodeId == q.node.value
  }

  predicate Matches(q: Query, m: CustomMetric) {
    KeyMatches(q, KeyOf(m)) && NodeMatches(q)(m)
  }

  function NewestFirst(): CustomMetric -> real {
    (m: CustomMetric) => -(m.timestampMs as real)
  }

  /** The retained samples that match, buffer by buffer. */
  function Candidates(keys: seq<Key>, buffers: map<Key, seq<CustomMetric>>, q: Query): seq<CustomMetric>
    requires forall i :: 0 <= i < |keys| ==> keys[i] in buffers
  {
    if |keys| == 0 then []
    else
      var k := keys[|keys| - 1];
      Candidates(keys[..|keys| - 1], buffers, q) + Contribution(k, buffers[k], q)
  }

  /** What one buffer contributes. */
  function Contribution(k: Key, buf: seq<CustomMetric>, q: Query): seq<CustomMetric> {
    if KeyMatches(q, k) then Filter(buf, NodeMatches(q)) else []
  }

  lemma FilterByKeyAppend(history: seq<CustomMetric>, m: CustomMetric)
    ensures Filter(history + [m], HasKey(KeyOf(m))) == Filter(history, HasKey(KeyOf(m))) + [m]
    ensures forall k: Key :: k != KeyOf(m) ==> Filter(history + [m], HasKey(k)) == Filter(history, HasKey(k))
  {
    FilterAppend(history, m, HasKey(KeyOf(m)));
    forall k: Key | k != KeyOf(m) ensures Filter(history + [m], HasKey(k)) == Filter(history, HasKey(k)) {
      FilterAppend(history, m, HasKey(k));
    }
  }

  class Store {
    const maxPerKey: nat
    var buffers: map<Key, seq<CustomMetric>>
    /** The keys of `buffers` in insertion order. */
    var keys: seq<Key>
    /** Every metric ever added. */
    ghost var history: seq<CustomMetric>

    ghost predicate Valid()
      reads this
    {
      && Distinct(keys)
      && (forall k :: k in keys <==> k in buffers)
      && (forall k :: k in buffers <==> Filter(history, HasKey(k)) != [])
      && (forall k :: k in buffers ==> buffers[k] == LastN(Filter(history, HasKey(k)), maxPerKey))
    }

    constructor (maxPerKey: nat)
      ensures Valid() && history == [] && this.maxPerKey == maxPerKey
    {
      this.maxPerKey := maxPerKey;
      buffers, keys, history := map[], [], [];
    }

    method Add(metric: CustomMetric)
      requires Valid()
      modifies this
      ensures Valid() && history == old(history) + [metric]
    {
      var key := KeyOf(metric);
      FilterByKeyAppend(history, metric);
      LastNAppend(Filter(history, HasKey(key)), metric, maxPerKey);
      if key !in buffers {
        buffers := buffers[key := []];
        keys := keys + [key];
      }
      buffers := buffers[key := LastN(buffers[key] + [metric], maxPerKey)];
      history := history + [metric];
    }

    method RunQuery(q: Query, limit: int) returns (r: seq<CustomMetric>)
      requires Valid()
      ensures r == SliceFromStart(Sort(Candidates(keys, buffers, q), NewestFirst()), limit)
      ensures forall m :: m in r ==>
                            && m in history && (q.name.Some? ==> m.name == q.name.value)
                            && (q.job.Some? ==> m.jobId == q.job.value)
                            && (q.node.Some? ==> m.nodeId == q.node.value)
    {
      var candidates := [];
      for i := 0 to |keys|
        invariant candidates == Candidates(keys[..i], buffers, q)
      {
        assert keys[..i + 1][..i] == keys[..i];
        if KeyMatches(q, keys[i]) {
          var matching := MatchingIn(buffers[keys[i]], q);
          candidates := candidates + matching;
        }
      }
      assert keys[..|keys|] == keys;
      r := SliceFromStart(Sort(candidates, NewestFirst()), limit);
      hide Candidates, Sort, SliceFromStart;
      forall m | m in r
        ensures && m in history && (q.name.Some? ==> m.name == q.name.value)
                && (q.job.Some? ==> m.jobId == q.job.value) && (q.node.Some? ==> m.nodeId == q.node.value)
      {
        SortMember(candidates, NewestFirst(), m);
        CandidatesAreTheRecentMatches(this, q, m);
        assert m in multiset(candidates);
        RecentIsRecorded(history, m, maxPerKey);
      }
    }

    static method MatchingIn(buf: seq<CustomMetric>, q: Query) returns (matching: seq<CustomMetric>)
      ensures matching == Filter(buf, NodeMatches(q))
    {
      hide Filter;
      matching := [];
      FilterNothing(buf[..0], NodeMatches(q));
      for j := 0 to |buf|
        invariant matching == Filter(buf[..j], NodeMatches(q))
      {
        assert buf[..j + 1] == buf[..j] + [buf[j]];
        FilterAppend(buf[..j], buf[j], NodeMatches(q));
        if q.node.Some? && buf[j].nodeId != q.node.value {
          continue;
        }
        matching := matching + [buf[j]];
      }
      assert buf[..|buf|] == buf;
    }

    /** `_custom_reader`: the newest samples of one metric on one node, oldest first. */
    method CustomReader(node: Id, field: Id, windowMinutes: int) returns (samples: seq<PC.Sample>)
      requires Valid()
      ensures samples == Reading(Candidates(keys, buffers, Query(Some(field), None, Some(node))), windowMinutes)
      ensures var all := Candidates(keys, buffers, Query(Some(field), None, Some(node)));
              var limit := if windowMinutes < 1 then 1 else windowMinutes * 60;
              var newest := SliceFromStart(Sort(all, NewestFirst()), limit);
              |samples| == |newest| && forall i :: 0 <= i < |newest| ==>
                var m := newest[|newest| - 1 - i];
                && samples[i] == PC.Sample(m.timestampMs, Some(m.value), m.jobId)
                && m in history && m.name == field && m.nodeId == node
    {
      hide Candidates, Sort, SliceFromStart, Map, Reverse;
      var limit := MaxInt(1, windowMinutes * 60);
      var history := RunQuery(Query(Some(field), None, Some(node)), limit);
      samples := OldestFirst(history);
      forall i | 0 <= i < |history| ensures history[i] in this.history {
        assert history[i] in history;
      }
    }

    static method OldestFirst(history: seq<CustomMetric>) returns (samples: seq<PC.Sample>)
      ensures samples == Map(Reverse(history), ToSample())
      ensures |samples| == |history| && forall i :: 0 <= i < |history| ==>
                var m := history[|history| - 1 - i];
                samples[i] == PC.Sample(m.timestampMs, Some(m.value), m.jobId)
    {
      samples := [];
      var i := |history|;
      while i > 0
        invariant 0 <= i <= |history| && |samples| == |history| - i
        invariant forall j :: 0 <= j < |samples| ==> samples[j] == ToSample()(history[|history| - 1 - j])
      {
        i := i - 1;
        samples := samples + [ToSample()(history[i])];
      }
    }
  }

  function Reverse<T>(s: seq<T>): (r: seq<T>)
    ensures |r| == |s|
    ensures forall i :: 0 <= i < |s| ==> r[i] == s[|s| - 1 - i]
  {
    seq(|s|, i requires 0 <= i < |s| => s[|s| - 1 - i])
  }

  function ToSample(): CustomMetric -> PC.Sample {
    (m: CustomMetric) => PC.Sample(m.timestampMs, Some(m.value), m.jobId)
  }

  function Reading(candidates: seq<CustomMetric>, windowMinutes: int): seq<PC.Sample> {
    Map(Reverse(SliceFromStart(Sort(candidates, NewestFirst()), MaxInt(1, windowMinutes * 60))), ToSample())
  }

  /** The candidates are the retained samples that match, each as often as it is retained. */
  lemma {:induction false} CandidatesAreTheMatches(
    keys: seq<Key>, buffers: map<Key, seq<CustomMetric>>, q: Query, m: CustomMetric)
    requires Distinct(keys)
    requires forall i :: 0 <= i < |keys| ==> keys[i] in buffers
    requires forall k, i :: k in buffers && 0 <= i < |buffers[k]| ==> KeyOf(buffers[k][i]) == k
    ensures multiset(Candidates(keys, buffers, q))[m]
            == if Matches(q, m) && KeyOf(m) in keys then multiset(buffers[KeyOf(m)])[m] else 0
  {
    if |keys| > 0 {
      hide Contribution, Matches, KeyOf;
      var k, rest := keys[|keys| - 1], keys[..|keys| - 1];
      CandidatesAreTheMatches(rest, buffers, q, m);
      BufferMatches(k, buffers[k], q, m);
      InLonger(rest, k, KeyOf(m));
      assert keys == rest + [k];
    }
  }

  lemma InLonger(rest: seq<Key>, k: Key, x: Key)
    ensures x in rest + [k] <==> x in rest || x == k
  {
  }

  lemma BufferMatches(k: Key, buf: seq<CustomMetric>, q: Query, m: CustomMetric)
    requires forall i :: 0 <= i < |buf| ==> KeyOf(buf[i]) == k
    ensures multiset(Contribution(k, buf, q))[m]
            == if Matches(q, m) && KeyOf(m) == k then multiset(buf)[m] else 0
  {
    FilterMultiplicity(buf, NodeMatches(q), m);
    if KeyOf(m) != k {
      assert m !in buf;
    }
  }

  /** The newest `n` samples ever added with the name and the job of `m`. */
  ghost function RecentLike(history: seq<CustomMetric>, m: CustomMetric, n: nat): seq<CustomMetric> {
    LastN(Filter(history, (x: CustomMetric) => x.name == m.name && x.jobId == m.jobId), n)
  }

  lemma RecentIsRecorded(history: seq<CustomMetric>, m: CustomMetric, n: nat)
    ensures m in multiset(RecentLike(history, m, n)) ==> m in history
  {
    FilterMembers(history, (x: CustomMetric) => x.name == m.name && x.jobId == m.jobId, m);
  }

  /**
   * What a query sorts and cuts, in terms of everything ever added: a sample counts as often as it occurs
   * among the newest `maxPerKey` samples of its own name and job, if it has the name, job and node asked for,
   * and not at all otherwise.
   */
  lemma CandidatesAreTheRecentMatches(store: Store, q: Query, m: CustomMetric)
    requires store.Valid()
    ensures multiset(Candidates(store.keys, store.buffers, q))[m]
            == if && (q.name.Some? ==> m.name == q.name.value) && (q.job.Some? ==> m.jobId == q.job.value)
                  && (q.node.Some? ==> m.nodeId == q.node.value)
               then multiset(RecentLike(store.history, m, store.maxPerKey))[m] else 0
  {
    var keys, buffers := store.keys, store.buffers;
    forall k, i | k in buffers && 0 <= i < |buffers[k]| ensures KeyOf(buffers[k][i]) == k {
      FilterMembers(store.history, HasKey(k), buffers[k][i]);
    }
    CandidatesAreTheMatches(keys, buffers, q, m);
    FilterSame(store.history, HasKey(KeyOf(m)), (x: CustomMetric) => x.name == m.name && x.jobId == m.jobId);
  }

  lemma {:induction false} FilterMultiplicity<T>(s: seq<T>, p: T -> bool, x: T)
    ensures multiset(Filter(s, p))[x] == if p(x) then multiset(s)[x] else 0
  {
    if |s| > 0 {
      FilterMultiplicity(s[..|s| - 1], p, x);
      assert s == s[..|s| - 1] + [s[|s| - 1]];
    }
  }

  /** Cutting a sorted sequence: what is cut off is not newer than what is kept. */
  lemma SortedCut(s: seq<CustomMetric>, n: nat, x: CustomMetric, y: CustomMetric)
    requires SortedBy(s, NewestFirst())
    requires n <= |s| && y in s[..n] && x in s[n..]
    ensures x.timestampMs <= y.timestampMs
  {
  }

  /**
   * A query returns the `limit` newest candidates: newest first, each no more often than it occurs, as many
   * as the limit allows, and nothing left out is newer than anything returned.
   */
  lemma QueryReturnsTheNewest(candidates: seq<CustomMetric>, limit: nat)
    ensures var r := SliceFromStart(Sort(candidates, NewestFirst()), limit);
            && (forall i, j :: 0 <= i < j < |r| ==> r[i].timestampMs >= r[j].timestampMs)
            && |r| == (if |candidates| <= limit then |candidates| else limit)
            && exists rest: seq<CustomMetric> ::
                 && multiset(r) + multiset(rest) == multiset(candidates)
                 && forall x, y :: x in rest && y in r ==> x.timestampMs <= y.timestampMs
  {
    hide Sort, SortedBy, SliceFromStart;
    var s := Sort(candidates, NewestFirst());
    SortSorted(candidates, NewestFirst());
    var r := SliceFromStart(s, limit);
    CutIsNewest(s, |r|);
    assert r == s[..|r|] && multiset(r) + multiset(s[|r|..]) == multiset(candidates);
  }

  lemma CutIsNewest(s: seq<CustomMetric>, n: nat)
    requires SortedBy(s, NewestFirst()) && n <= |s|
    ensures forall i, j :: 0 <= i < j < n ==> s[i].timestampMs >= s[j].timestampMs
    ensures forall x, y :: x in s[n..] && y in s[..n] ==> x.timestampMs <= y.timestampMs
    ensures multiset(s[..n]) + multiset(s[n..]) == multiset(s)
  {
    assert s == s[..n] + s[n..];
    forall i, j | 0 <= i < j < n ensures s[i].timestampMs >= s[j].timestampMs {
      assert NewestFirst()(s[i]) <= NewestFirst()(s[j]);
    }
    hide SortedBy;
    forall x, y | x in s[n..] && y in s[..n] ensures x.timestampMs <= y.timestampMs {
      SortedCut(s, n, x, y);
    }
  }

  function At(ts: int): CustomMetric -> bool {
    (m: CustomMetric) => m.timestampMs == ts
  }

  lemma {:induction false} FilterNone<T>(s: seq<T>, p: T -> bool)
    requires forall i :: 0 <= i < |s| ==> !p(s[i])
    ensures Filter(s, p) == []
  {
    if |s| > 0 {
      FilterNone(s[..|s| - 1], p);
    }
  }

  lemma {:induction false} InsertStable(x: CustomMetric, s: seq<CustomMetric>, ts: int)
    requires SortedBy(s, NewestFirst())
    ensures Filter(Insert(x, s, NewestFirst()), At(ts)) == Filter([x] + s, At(ts))
  {
    var key := NewestFirst();
    if |s| > 0 && !(key(x) <= key(s[0])) {
      var t := s[1..];
      assert s == [s[0]] + t;
      InsertStable(x, t, ts);
      FilterConcat([s[0]], Insert(x, t, key), At(ts));
      FilterConcat([x], s, At(ts));
      FilterConcat([x], t, At(ts));
      FilterConcat([s[0]], t, At(ts));
      assert Filter([x], At(ts)) == if x.timestampMs == ts then [x] else [];
      assert Filter([s[0]], At(ts)) == if s[0].timestampMs == ts then [s[0]] else [];
    }
  }

  /** Samples with equal timestamps keep the order in which they were collected, although the sort is reversed. */
  lemma {:induction false} SortStable(s: seq<CustomMetric>, ts: int)
    ensures Filter(Sort(s, NewestFirst()), At(ts)) == Filter(s, At(ts))
  {
    if |s| > 0 {
      var t := s[1..];
      assert s == [s[0]] + t;
      SortStable(t, ts);
      SortSorted(t, NewestFirst());
      InsertStable(s[0], Sort(t, NewestFirst()), ts);
      FilterConcat([s[0]], Sort(t, NewestFirst()), At(ts));
      FilterConcat([s[0]], t, At(ts));
    }
  }

  /**
   * The reader hands the suffix scans what they rely on: a series that does not decrease in time and ends
   * with the newest candidate.
   */
  lemma ReadingIsChronological(candidates: seq<CustomMetric>, windowMinutes: int)
    ensures var samples := Reading(candidates, windowMinutes);
            && PC.Chronological(samples)
            && (samples == [] <==> candidates == [])
            && (forall m :: m in candidates ==> m.timestampMs <= PC.Last(samples).ts)
  {
    var limit := MaxInt(1, windowMinutes * 60);
    var s := Sort(candidates, NewestFirst());
    SortSorted(candidates, NewestFirst());
    var r := SliceFromStart(s, limit);
    var samples := Reading(candidates, windowMinutes);
    forall i, j | 0 <= i < j < |samples| ensures samples[i].ts <= samples[j].ts {
      assert NewestFirst()(s[|r| - 1 - j]) <= NewestFirst()(s[|r| - 1 - i]);
    }
    forall m | m in candidates ensures m.timestampMs <= PC.Last(samples).ts {
      assert m in multiset(s);
      var j :| 0 <= j < |s| && s[j] == m;
      assert PC.Last(samples).ts == s[0].timestampMs;
      assert j == 0 || NewestFirst()(s[0]) <= NewestFirst()(s[j]);
    }
  }
}
