/** The bounded registry of training jobs: evicts the job whose last registration is oldest. */
module JobStore {
  import opened Prelude

  datatype Status = Registered | Running | Completed | Failed

  datatype Job = Job(name: Option<string>, status: Status, config: map<string, string>, nodeIds: seq<Id>,
                     createdAtMs: int, updatedAtMs: int)

  function ParseStatus(s: string): (r: Option<Status>)
    ensures r.Some? <==> s in {"registered", "running", "completed", "failed"}
  {
    if s == "registered" then Some(Registered)
    else if s == "running" then Some(Running)
    else if s == "completed" then Some(Completed)
    else if s == "failed" then Some(Failed)
    else None
  }

  /** `s` is the status that is written this way. */
  ghost predicate Names(written: string, s: Status) {
    match s
    case Registered => written == "registered"
    case Running => written == "running"
    case Completed => written == "completed"
    case Failed => written == "failed"
  }

  function Without<T(==)>(s: seq<T>, x: T): seq<T> {
    var i := IndexOf(s, x);
    if i < |s| then s[..i] + s[i + 1..] else s
  }

  /** `OrderedDict.move_to_end` (or insertion, when `x` is new) on the key order. */
  function MoveToEnd<T(==)>(s: seq<T>, x: T): seq<T> {
    Without(s, x) + [x]
  }

  /** Distinct job ids of a list of registrations, in order of last registration. */
  ghost function Recency<T>(registrations: seq<T>): (r: seq<T>) {
    if |registrations| == 0 then []
    else MoveToEnd(Recency(registrations[..|registrations| - 1]), registrations[|registrations| - 1])
  }

  lemma MoveToEndDistinct<T>(s: seq<T>, x: T)
    requires Distinct(s)
    ensures Distinct(MoveToEnd(s, x))
  {
  }

  lemma MoveToEndMembers<T>(s: seq<T>, x: T, y: T)
    ensures y in MoveToEnd(s, x) ==> y in s || y == x
    ensures y in s || y == x ==> y in MoveToEnd(s, x)
  {
  }

  lemma {:induction false} RecencyDistinct<T>(registrations: seq<T>)
    ensures Distinct(Recency(registrations))
  {
    if |registrations| > 0 {
      hide MoveToEnd;
      var before := registrations[..|registrations| - 1];
      RecencyDistinct(before);
      MoveToEndDistinct(Recency(before), registrations[|registrations| - 1]);
    }
  }

  lemma {:induction false} RecencyMembers<T>(registrations: seq<T>, x: T)
    ensures x in Recency(registrations) <==> x in registrations
  {
    if |registrations| > 0 {
      hide MoveToEnd;
      var before, last := registrations[..|registrations| - 1], registrations[|registrations| - 1];
      RecencyMembers(before, x);
      MoveToEndMembers(Recency(before), last, x);
      InLastOrBefore(registrations, x);
    }
  }

  lemma InLastOrBefore<T>(s: seq<T>, x: T)
    requires |s| > 0
    ensures x in s <==> x in s[..|s| - 1] || x == s[|s| - 1]
  {
  }

  lemma RecencyAppend<T>(registrations: seq<T>, x: T)
    ensures Recency(registrations + [x]) == MoveToEnd(Recency(registrations), x)
  {
  }

  /** `x` is registered at position `i` and nowhere later. */
  ghost predicate LastAt<T>(registrations: seq<T>, x: T, i: nat) {
    && i < |registrations| && registrations[i] == x
    && forall j :: i < j < |registrations| ==> registrations[j] != x
  }

  /** Where the elements left over come from. */
  lemma WithoutAt<T>(s: seq<T>, x: T, a: nat)
    requires a < |Without(s, x)|
    ensures var c := if a < IndexOf(s, x) then a else a + 1;
            c < |s| && s[c] == Without(s, x)[a]
  {
    var k := IndexOf(s, x);
    hide IndexOf;
    if k < |s| {
      assert Without(s, x) == s[..k] + s[k + 1..];
    }
  }

  lemma WithoutOrder<T>(s: seq<T>, x: T, a: nat, b: nat) returns (c: nat, d: nat)
    requires a < b < |Without(s, x)|
    ensures c < d < |s| && s[c] == Without(s, x)[a] && s[d] == Without(s, x)[b]
  {
    hide IndexOf, Without;
    WithoutAt(s, x, a);
    WithoutAt(s, x, b);
    var k := IndexOf(s, x);
    c := if a < k then a else a + 1;
    d := if b < k then b else b + 1;
  }

  /** Only the last entry of `Recency` is the last registration. */
  lemma WithoutRemoves<T>(registrations: seq<T>, a: nat)
    requires a < |Recency(registrations)| - 1
    ensures Recency(registrations)[a] != registrations[|registrations| - 1]
  {
    RecencyDistinct(registrations);
    var r := Recency(registrations);
    assert r[|r| - 1] == registrations[|registrations| - 1];
  }

  lemma LastAtBefore<T>(registrations: seq<T>, x: T, i: nat)
    requires LastAt(registrations, x, i)
    requires registrations[|registrations| - 1] != x
    ensures LastAt(registrations[..|registrations| - 1], x, i)
  {
  }

  /** `Recency` is the order of last registrations. */
  lemma {:induction false} RecencyOrder<T>(registrations: seq<T>, a: nat, b: nat, i: nat, j: nat)
    requires a < b < |Recency(registrations)|
    requires LastAt(registrations, Recency(registrations)[a], i)
    requires LastAt(registrations, Recency(registrations)[b], j)
    ensures i < j
  {
    var n := |registrations| - 1;
    var x := registrations[n];
    WithoutRemoves(registrations, a);
    LastAtBefore(registrations, Recency(registrations)[a], i);
    if b < |Recency(registrations)| - 1 {
      WithoutRemoves(registrations, b);
      LastAtBefore(registrations, Recency(registrations)[b], j);
      var c, d := WithoutOrder(Recency(registrations[..n]), x, a, b);
      RecencyOrder(registrations[..n], c, d, i, j);
    } else {
      assert Recency(registrations)[b] == x;
    }
  }

  lemma {:induction false} IndexOfConcat<T>(s: seq<T>, t: seq<T>, x: T)
    ensures IndexOf(s + t, x) == if x in s then IndexOf(s, x) else |s| + IndexOf(t, x)
  {
    if |s| == 0 {
      assert s + t == t;
    } else if s[0] != x {
      assert (s + t)[1..] == s[1..] + t;
      assert s == [s[0]] + s[1..];
      IndexOfConcat(s[1..], t, x);
    }
  }

  lemma WithoutConcat<T>(s: seq<T>, t: seq<T>, x: T)
    ensures Without(s + t, x) == if x in s then Without(s, x) + t else s + Without(t, x)
  {
    IndexOfConcat(s, t, x);
    FoundIff(s, x);
    FoundIff(t, x);
    hide IndexOf;
    if x in s {
      CutInFirst(s, t, IndexOf(s, x));
    } else if IndexOf(t, x) < |t| {
      CutInSecond(s, t, IndexOf(t, x));
    }
  }

  lemma FoundIff<T>(s: seq<T>, x: T)
    ensures x in s <==> IndexOf(s, x) < |s|
  {
  }

  lemma CutInFirst<T>(s: seq<T>, t: seq<T>, i: nat)
    requires i < |s|
    ensures (s + t)[..i] + (s + t)[i + 1..] == s[..i] + s[i + 1..] + t
  {
  }

  lemma CutInSecond<T>(s: seq<T>, t: seq<T>, k: nat)
    requires k < |t|
    ensures (s + t)[..|s| + k] + (s + t)[|s| + k + 1..] == s + (t[..k] + t[k + 1..])
  {
  }

  /** The inclusion property: bounding after every registration keeps what bounding once at the end keeps. */
  lemma BoundedRecencyStep<T>(recency: seq<T>, x: T, n: nat)
    requires Distinct(recency)
    ensures LastN(MoveToEnd(LastN(recency, n), x), n) == LastN(MoveToEnd(recency, x), n)
  {
    if |recency| > n {
      var older, kept := recency[..|recency| - n], recency[|recency| - n..];
      assert recency == older + kept;
      BoundedMove(older, kept, x, n);
    }
  }

  lemma BoundedMove<T>(older: seq<T>, kept: seq<T>, x: T, n: nat)
    requires Distinct(older + kept) && |kept| == n
    ensures LastN(MoveToEnd(kept, x), n) == LastN(MoveToEnd(older + kept, x), n)
  {
    hide *;
    MoveInConcat(older, kept, x);
    MovedLength(kept, x);
    if x in older {
      SuffixOfConcat(Without(older, x), MoveToEnd(kept, x), n);
    } else {
      SuffixOfConcat(older, MoveToEnd(kept, x), n);
    }
  }

  lemma MovedLength<T>(s: seq<T>, x: T)
    ensures |MoveToEnd(s, x)| >= |s|
  {
  }

  /** Moving an element of a list of distinct ones does not reach beyond the part that holds it. */
  lemma MoveInConcat<T>(s: seq<T>, t: seq<T>, x: T)
    requires Distinct(s + t)
    ensures MoveToEnd(s + t, x) == if x in s then Without(s, x) + MoveToEnd(t, x) else s + MoveToEnd(t, x)
  {
    hide IndexOf, Without;
    WithoutConcat(s, t, x);
    AppendLast(if x in s then Without(s, x) else s, if x in s then t else Without(t, x), x);
    if x in s {
      var i :| 0 <= i < |s| && s[i] == x;
      assert (s + t)[i] == x;
      forall j | 0 <= j < |t| ensures t[j] != x {
        assert t[j] == (s + t)[|s| + j];
      }
      WithoutNothing(t, x);
    }
  }

  lemma WithoutNothing<T>(s: seq<T>, x: T)
    requires x !in s
    ensures Without(s, x) == s
  {
  }

  lemma SuffixOfConcat<T>(s: seq<T>, t: seq<T>, n: nat)
    requires |t| >= n
    ensures LastN(s + t, n) == LastN(t, n)
  {
  }

  /** What registering `x` does to a full registry: a held job moves, an unknown one is appended. */
  lemma RegisterOrder<T(!new)>(registrations: seq<T>, x: T, n: nat)
    ensures var order := LastN(Recency(registrations), n);
            && LastN(Recency(registrations + [x]), n) == LastN(MoveToEnd(order, x), n)
            && Distinct(order)
            && (x in order ==> LastN(MoveToEnd(order, x), n) == MoveToEnd(order, x))
            && (x in order ==> forall y :: y in MoveToEnd(order, x) <==> y in order)
            && (x !in order ==> MoveToEnd(order, x) == order + [x])
            && Distinct(MoveToEnd(order, x))
  {
    hide IndexOf, Recency;
    var order := LastN(Recency(registrations), n);
    RecencyAppend(registrations, x);
    RecencyDistinct(registrations);
    BoundedRecencyStep(Recency(registrations), x, n);
    MoveToEndDistinct(order, x);
    forall y ensures x in order ==> (y in MoveToEnd(order, x) <==> y in order) {
      MoveToEndMembers(order, x, y);
    }
  }

  lemma DropFirst<T>(s: seq<T>)
    requires Distinct(s) && |s| > 0
    ensures Distinct(s[1..])
    ensures forall x :: x in s[1..] <==> x in s && x != s[0]
  {
    assert s == [s[0]] + s[1..];
  }

  class Store {
    const maxSize: nat
    /** The `OrderedDict`: its key order and its entries. */
    var order: seq<Id>
    var jobs: map<Id, Job>
    /** Every id ever passed to `Register`, in order. */
    ghost var registrations: seq<Id>

    /** The held jobs are exactly the `maxSize` most recently registered distinct ones, in that order. */
    ghost predicate Valid()
      reads this
    {
      && order == LastN(Recency(registrations), maxSize)
      && (forall x :: x in order <==> x in jobs)
    }

    constructor (maxSize: nat)
      ensures Valid() && registrations == [] && this.maxSize == maxSize
    {
      this.maxSize := maxSize;
      order, jobs, registrations := [], map[], [];
    }

    /**
     * Held jobs keep their status and creation time, and a re-registered one also its name unless a new one is given.
     */
    method Register(jobId: Id, config: map<string, string>, nodeIds: seq<Id>, name: Option<string>, nowMs: int)
      requires Valid()
      modifies this
      ensures Valid() && registrations == old(registrations) + [jobId]
      ensures forall x :: x in order && x != jobId ==> x in old(jobs) && jobs[x] == old(jobs[x])
      ensures jobId in old(jobs) ==>
                jobId in jobs && jobs[jobId]
                  == old(jobs[jobId]).(config := config, nodeIds := nodeIds, updatedAtMs := nowMs,
                  name := if name.Some? then name else old(jobs[jobId]).name)
      ensures jobId !in old(jobs) && jobId in jobs ==>
                jobs[jobId] == Job(name, Registered, config, nodeIds, nowMs, nowMs)
      ensures maxSize > 0 ==> jobId in jobs
    {
      hide Recency, IndexOf, Without, MoveToEnd;
      RegisterOrder(registrations, jobId, maxSize);
      registrations := registrations + [jobId];
      if jobId in jobs {
        order := MoveToEnd(order, jobId);
        var existing := jobs[jobId];
        existing := existing.(config := config, nodeIds := nodeIds);
        if name.Some? {
          existing := existing.(name := name);
        }
        jobs := jobs[jobId := existing.(updatedAtMs := nowMs)];
        return;
      }
      jobs := jobs[jobId := Job(name, Registered, config, nodeIds, nowMs, nowMs)];
      order := order + [jobId];
      EvictOldest();
      assert maxSize > 0 ==> order[|order| - 1] == jobId;
    }

    method EvictOldest()
      requires Distinct(order)
      requires forall x :: x in order <==> x in jobs
      modifies this`order, this`jobs
      ensures order == LastN(old(order), maxSize)
      ensures forall x :: x in order <==> x in jobs
      ensures forall x :: x in jobs ==> x in old(jobs) && jobs[x] == old(jobs)[x]
    {
      while |order| > maxSize
        invariant |order| <= |old(order)| && order == old(order)[|old(order)| - |order|..]
        invariant |order| >= |LastN(old(order), maxSize)|
        invariant Distinct(order)
        invariant forall x :: x in order <==> x in jobs
        invariant forall x :: x in jobs ==> x in old(jobs) && jobs[x] == old(jobs)[x]
      {
        DropFirst(order);
        jobs := jobs - {order[0]};
        order := order[1..];
      }
    }

    /** Only a held job changes, and only its status and update time; an unknown status is an error. */
    method UpdateStatus(jobId: Id, status: string, nowMs: int) returns (r: Result<(), string>)
      requires Valid()
      modifies this`jobs
      ensures Valid()
      ensures r.Ok? <==> status in {"registered", "running", "completed", "failed"}
      ensures jobs.Keys == old(jobs).Keys
      ensures r.Ok? && jobId in jobs ==>
                && Names(status, jobs[jobId].status)
                && jobs == old(jobs)[jobId := old(jobs)[jobId].(status := jobs[jobId].status, updatedAtMs := nowMs)]
      ensures r.Err? || jobId !in jobs ==> jobs == old(jobs)
    {
      var s := ParseStatus(status);
      if s.None? {
        return Err("invalid job status");
      }
      if jobId in jobs {
        jobs := jobs[jobId := jobs[jobId].(status := s.value, updatedAtMs := nowMs)];
      }
      r := Ok(());
    }

    method Touch(jobId: Id, nowMs: int)
      requires Valid()
      modifies this`jobs
      ensures Valid()
      ensures jobs == if jobId in old(jobs) then old(jobs)[jobId := old(jobs)[jobId].(updatedAtMs := nowMs)]
          else old(jobs)
    {
      if jobId in jobs {
        jobs := jobs[jobId := jobs[jobId].(updatedAtMs := nowMs)];
      }
    }

    /** `_mark_job_progress`: telemetry of a registered job starts it; a job past that state is only touched. */
    method MarkProgress(job: Option<Id>, nowMs: int)
      requires Valid()
      modifies this`jobs
      ensures Valid() && jobs.Keys == old(jobs).Keys
      ensures forall x :: x in jobs ==>
                jobs[x] == if job != Some(x) then old(jobs)[x]
                           else old(jobs)[x].(updatedAtMs := nowMs,
                             status := if old(jobs)[x].status == Registered then Running else old(jobs)[x].status)
    {
      if job.None? || job.value !in jobs {
        return;
      }
      var jobId := job.value;
      if jobs[jobId].status == Registered {
        var _ := UpdateStatus(jobId, "running", nowMs);
      } else {
        Touch(jobId, nowMs);
      }
    }
  }
}
