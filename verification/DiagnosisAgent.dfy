/** The diagnosis agent as a step machine over the diagnosis store and the rate limiter. */
module DiagnosisAgent {
  import opened Prelude
  import opened Sorting
  import DS = DiagnosisStore
  import RL = RateLimiter

  const CACHE_TTL_MS := 300000
  const CACHE_MIN_CONFIDENCE := 0.7

  // Root causes: the one of failed diagnoses, and those the rules name.

  const UNKNOWN: Id := 0
  const GRADIENT_INSTABILITY: Id := 1
  const DATA_CORRUPTION: Id := 2
  const THROUGHPUT_REGRESSION: Id := 3
  const NUMERIC_INSTABILITY: Id := 4
  const TRAINING_STALLED: Id := 5
  const LOSS_PLATEAU: Id := 6
  const POLICY_VIOLATION: Id := 7

  lemma CausesDiffer()
    ensures Distinct([UNKNOWN, GRADIENT_INSTABILITY, DATA_CORRUPTION, THROUGHPUT_REGRESSION, NUMERIC_INSTABILITY,
                      TRAINING_STALLED, LOSS_PLATEAU, POLICY_VIOLATION])
  {
  }

  datatype AlertType =
    | GradientExplosion | LossSpike | StragglerDetected | NumericInstability
    | TrainingStalled | LossPlateau | ThroughputRegression | PolicyViolation | OtherType

  /** An alert, with the parts its fingerprint is made of. */
  datatype Alert = Alert(id: Id, node: Id, kind: AlertType, parts: DS.Fingerprint)

  datatype Urgency = Immediate | Soon | Monitor | UnknownUrgency

  datatype ActionData = ActionData(action: Option<Id>, urgency: Option<Urgency>)

  /** The arguments of the model's tool call; any field may be missing. */
  datatype ToolInput = ToolInput(rootCause: Option<Id>, confidence: Option<real>, reasoning: Option<Id>,
                                 evidence: Option<seq<Id>>, action: Option<ActionData>)

  datatype Block = SubmitDiagnosis(input: ToolInput) | OtherBlock

  datatype LlmOutcome = RateLimitError | TimeoutError | ApiError | UnexpectedError | Response(content: seq<Block>)

  /** What one call of `diagnose` finds in its environment. */
  datatype Env = Env(id: Id, lookupMs: int, resultMs: int, monotonic: real, clientReady: bool, contextReady: bool,
                     llm: LlmOutcome)

  datatype Path = CacheHit | NotPermitted | NoClient | ContextFailed | LlmFailed | Unparsable | Parsed | Raised

  datatype Record = Record(alert: Alert, bypass: bool, env: Env, path: Path, result: Option<DS.Diagnosis>)

  /** The rule-based diagnosis for alert types with clear recovery semantics: root cause and confidence. */
  function Fallback(kind: AlertType): Option<(Id, real)> {
    match kind
    case GradientExplosion => Some((GRADIENT_INSTABILITY, 0.78))
    case LossSpike => Some((DATA_CORRUPTION, 0.7))
    case StragglerDetected => Some((THROUGHPUT_REGRESSION, 0.72))
    case ThroughputRegression => Some((THROUGHPUT_REGRESSION, 0.72))
    case NumericInstability => Some((NUMERIC_INSTABILITY, 0.76))
    case TrainingStalled => Some((TRAINING_STALLED, 0.74))
    case LossPlateau => Some((LOSS_PLATEAU, 0.68))
    case PolicyViolation => Some((POLICY_VIOLATION, 0.66))
    case OtherType => None
  }

  function FailedResult(alert: Alert, env: Env, status: DS.Status): DS.Diagnosis {
    DS.Diagnosis(env.id, alert.id, alert.node, env.resultMs, UNKNOWN, 0.0, status, None)
  }

  /** A local diagnosis where there is a rule for the alert, else a failed one. */
  function UnavailableResult(alert: Alert, env: Env, status: DS.Status): (d: DS.Diagnosis)
    ensures d.id == env.id && d.timestampMs == env.resultMs && d.cachedFrom == None
    ensures d.status == if Fallback(alert.kind).Some? then DS.Completed else status
  {
    match Fallback(alert.kind)
    case Some((cause, confidence)) =>
      DS.Diagnosis(env.id, alert.id, alert.node, env.resultMs, cause, confidence, DS.Completed, None)
    case None => FailedResult(alert, env, status)
  }

  /** The first diagnosis submitted among the response blocks. */
  function Submitted(content: seq<Block>): (r: Option<ToolInput>)
    ensures r.None? <==> forall i :: 0 <= i < |content| ==> content[i].OtherBlock?
  {
    if |content| == 0 then None
    else if content[0].SubmitDiagnosis? then Some(content[0].input)
    else Submitted(content[1..])
  }

  predicate Complete(t: ToolInput) {
    && t.rootCause.Some? && t.confidence.Some? && t.reasoning.Some? && t.evidence.Some? && t.action.Some?
    && t.action.value.action.Some? && t.action.value.urgency.Some?
  }

  /** The result model accepts only a known urgency and a confidence between 0 and 1; otherwise it raises. */
  predicate WellTyped(t: ToolInput)
    requires Complete(t)
  {
    t.action.value.urgency.value != UnknownUrgency && 0.0 <= t.confidence.value <= 1.0
  }

  datatype Parse = Diagnosed(d: DS.Diagnosis) | Rejected(d: DS.Diagnosis) | Invalid

  function ParseOf(content: seq<Block>, alert: Alert, env: Env): Parse {
    match Submitted(content)
    case None => Rejected(FailedResult(alert, env, DS.Failed))
    case Some(t) =>
      if !Complete(t) then Rejected(FailedResult(alert, env, DS.Failed))
      else if !WellTyped(t) then Invalid
      else Diagnosed(DS.Diagnosis(env.id, alert.id, alert.node, env.resultMs, t.rootCause.value, t.confidence.value,
                                  DS.Completed, None))
  }

  method ParseResponse(content: seq<Block>, alert: Alert, env: Env) returns (r: Parse)
    ensures r == ParseOf(content, alert, env)
  {
    var input: Option<ToolInput> := None;
    assert content[0..] == content;
    for i := 0 to |content|
      invariant input == None && Submitted(content) == Submitted(content[i..])
    {
      assert content[i..][1..] == content[i + 1..];
      if content[i].SubmitDiagnosis? {
        input := Some(content[i].input);
        break;
      }
    }
    if input.None? {
      return Rejected(FailedResult(alert, env, DS.Failed));
    }
    var t := input.value;
    if t.rootCause.None? || t.confidence.None? || t.reasoning.None? || t.evidence.None? || t.action.None? {
      return Rejected(FailedResult(alert, env, DS.Failed));
    }
    var action := t.action.value;
    if action.action.None? || action.urgency.None? {
      return Rejected(FailedResult(alert, env, DS.Failed));
    }
    if action.urgency.value == UnknownUrgency {
      return Invalid;
    }
    if t.confidence.value < 0.0 || t.confidence.value > 1.0 {
      return Invalid;
    }
    r := Diagnosed(DS.Diagnosis(env.id, alert.id, alert.node, env.resultMs, t.rootCause.value, t.confidence.value,
                                DS.Completed, None));
  }

  /** What a cache hit stores: the source's diagnosis under the new alert, naming the source. */
  function Clone(source: DS.Diagnosis, alert: Alert, env: Env): DS.Diagnosis {
    DS.Diagnosis(env.id, alert.id, alert.node, env.resultMs, source.rootCause, source.confidence, DS.Cached,
      Some(source.id))
  }

  /** How a call that was neither a hit nor refused ends. */
  ghost predicate Follows(path: Path, r: Option<DS.Diagnosis>, alert: Alert, env: Env) {
    if !env.clientReady then path == NoClient && r == Some(FailedResult(alert, env, DS.Failed))
    else if !env.contextReady then path == ContextFailed && r == Some(FailedResult(alert, env, DS.Failed))
    else if !env.llm.Response? then path == LlmFailed && r == Some(UnavailableResult(alert, env, DS.Failed))
    else match ParseOf(env.llm.content, alert, env)
      case Diagnosed(d) => path == Parsed && r == Some(d)
      case Rejected(d) => path == Unparsable && r == Some(d)
      case Invalid => path == Raised && r == None
  }

  lemma FollowsShape(path: Path, r: Option<DS.Diagnosis>, alert: Alert, env: Env)
    requires Follows(path, r, alert, env)
    ensures path != CacheHit && path != NotPermitted && (r.None? <==> path == Raised)
    ensures r.Some? ==> Stamped(r.value, env) && r.value.status != DS.Cached
    ensures path == Parsed ==>
              && env.llm.Response? && r.value.status == DS.Completed
              && ParseOf(env.llm.content, alert, env) == Diagnosed(r.value)
  {
  }

  // The answers of a call, in terms of the alert, the environment and the response alone.

  /** Made for this alert by this call, and not copied from another one. */
  ghost predicate IsOwn(d: DS.Diagnosis, alert: Alert, env: Env) {
    && d.id == env.id && d.alertId == alert.id && d.node == alert.node && d.timestampMs == env.resultMs
    && d.cachedFrom == None
  }

  /** The cause is unknown and the confidence zero. */
  ghost predicate Unexplained(d: DS.Diagnosis, status: DS.Status) {
    d.rootCause == UNKNOWN && d.confidence == 0.0 && d.status == status
  }

  /** A completed diagnosis for every kind of alert but `OtherType`, which gets one of the given status. */
  ghost predicate AnsweredLocally(d: DS.Diagnosis, alert: Alert, env: Env, status: DS.Status) {
    && IsOwn(d, alert, env)
    && (alert.kind != OtherType ==> d.status == DS.Completed)
    && match alert.kind
       case GradientExplosion => d.rootCause == GRADIENT_INSTABILITY && d.confidence == 0.78
       case LossSpike => d.rootCause == DATA_CORRUPTION && d.confidence == 0.7
       case StragglerDetected => d.rootCause == THROUGHPUT_REGRESSION && d.confidence == 0.72
       case ThroughputRegression => d.rootCause == THROUGHPUT_REGRESSION && d.confidence == 0.72
       case NumericInstability => d.rootCause == NUMERIC_INSTABILITY && d.confidence == 0.76
       case TrainingStalled => d.rootCause == TRAINING_STALLED && d.confidence == 0.74
       case LossPlateau => d.rootCause == LOSS_PLATEAU && d.confidence == 0.68
       case PolicyViolation => d.rootCause == POLICY_VIOLATION && d.confidence == 0.66
       case OtherType => Unexplained(d, status)
  }

  /**
   * A submission with all fields is taken as it is if its urgency is known and its confidence between 0 and 1, and
   * makes the call raise otherwise; one that lacks a field gives a failed diagnosis.
   */
  ghost predicate Answers(t: ToolInput, r: Option<DS.Diagnosis>, alert: Alert, env: Env) {
    match t
    case ToolInput(Some(cause), Some(confidence), Some(_), Some(_), Some(ActionData(Some(_), Some(urgency)))) =>
      if (urgency == Immediate || urgency == Soon || urgency == Monitor) && 0.0 <= confidence && confidence <= 1.0 then
        && r.Some? && IsOwn(r.value, alert, env)
        && r.value.rootCause == cause && r.value.confidence == confidence && r.value.status == DS.Completed
      else r.None?
    case _ => r.Some? && IsOwn(r.value, alert, env) && Unexplained(r.value, DS.Failed)
  }

  /** The first submission decides; a response without one gives a failed diagnosis. */
  ghost predicate AnsweredByModel(content: seq<Block>, r: Option<DS.Diagnosis>, alert: Alert, env: Env) {
    && (forall i :: && 0 <= i < |content| && content[i].SubmitDiagnosis?
                    && (forall j :: 0 <= j < i ==> content[j].OtherBlock?) ==>
                      Answers(content[i].input, r, alert, env))
    && ((forall i :: 0 <= i < |content| ==> content[i].OtherBlock?) ==>
          r.Some? && IsOwn(r.value, alert, env) && Unexplained(r.value, DS.Failed))
  }

  /** What a call that was neither a hit nor refused returns. */
  ghost predicate Answered(r: Option<DS.Diagnosis>, alert: Alert, env: Env) {
    if !env.clientReady || !env.contextReady then
      r.Some? && IsOwn(r.value, alert, env) && Unexplained(r.value, DS.Failed)
    else match env.llm
      case Response(content) => AnsweredByModel(content, r, alert, env)
      case _ => r.Some? && AnsweredLocally(r.value, alert, env, DS.Failed)
  }

  lemma LocalAnswer(alert: Alert, env: Env, status: DS.Status)
    ensures AnsweredLocally(UnavailableResult(alert, env, status), alert, env, status)
  {
  }

  lemma {:induction false} FirstSubmitted(content: seq<Block>)
    ensures Submitted(content).Some? ==>
              exists i :: 0 <= i < |content| && content[i] == SubmitDiagnosis(Submitted(content).value)
                          && forall j :: 0 <= j < i ==> content[j].OtherBlock?
  {
    if |content| > 0 && content[0].SubmitDiagnosis? {
      assert content[0] == SubmitDiagnosis(Submitted(content).value);
    } else if Submitted(content).Some? {
      FirstSubmitted(content[1..]);
      var i :| 0 <= i < |content[1..]| && content[1..][i] == SubmitDiagnosis(Submitted(content[1..]).value)
               && forall j :: 0 <= j < i ==> content[1..][j].OtherBlock?;
      assert content[i + 1] == SubmitDiagnosis(Submitted(content).value);
      assert forall j :: 0 < j < i + 1 ==> content[j] == content[1..][j - 1];
    }
  }

  /** The diagnosis a parse comes to, if it does not raise. */
  function ResultOf(p: Parse): Option<DS.Diagnosis> {
    match p case Diagnosed(d) => Some(d) case Rejected(d) => Some(d) case Invalid => None
  }

  lemma SubmissionAnswers(content: seq<Block>, alert: Alert, env: Env)
    ensures var r := ResultOf(ParseOf(content, alert, env));
            if Submitted(content).Some? then Answers(Submitted(content).value, r, alert, env)
            else r.Some? && IsOwn(r.value, alert, env) && Unexplained(r.value, DS.Failed)
  {
    hide Submitted;
  }

  lemma ModelAnswer(content: seq<Block>, alert: Alert, env: Env)
    ensures AnsweredByModel(content, ResultOf(ParseOf(content, alert, env)), alert, env)
  {
    hide ParseOf, Submitted, Answers;
    SubmissionAnswers(content, alert, env);
    FirstSubmitted(content);
    if Submitted(content).Some? {
      var k :| 0 <= k < |content| && content[k] == SubmitDiagnosis(Submitted(content).value)
               && forall j :: 0 <= j < k ==> content[j].OtherBlock?;
      forall i | && 0 <= i < |content| && content[i].SubmitDiagnosis?
                 && (forall j :: 0 <= j < i ==> content[j].OtherBlock?)
        ensures i == k
      {
      }
    }
  }

  lemma FollowsAnswers(path: Path, r: Option<DS.Diagnosis>, alert: Alert, env: Env)
    requires Follows(path, r, alert, env)
    ensures Answered(r, alert, env)
  {
    hide ParseOf, AnsweredByModel, AnsweredLocally, UnavailableResult;
    LocalAnswer(alert, env, DS.Failed);
    if env.llm.Response? {
      ModelAnswer(env.llm.content, alert, env);
    }
  }

  // Provenance.

  /** A call completed by parsing an LLM response, whose result `id` was indexed under `parts`. */
  ghost predicate IsSource(r: Record, id: Id, parts: DS.Fingerprint) {
    && r.path == Parsed && r.alert.parts == parts && ComesFromResponse(r)
    && r.result.Some? && r.result.value.id == id && r.result.value.status == DS.Completed
  }

  /** The result is what the response of the model says, and nothing made up locally. */
  ghost predicate ComesFromResponse(r: Record) {
    r.env.llm.Response? && r.result.Some? && ParseOf(r.env.llm.content, r.alert, r.env) == Diagnosed(r.result.value)
  }

  /** `source` entitles `hit` to reuse its diagnosis. */
  ghost predicate Justifies(source: Record, hit: Record) {
    && hit.result.Some? && hit.result.value.status == DS.Cached && hit.result.value.cachedFrom.Some?
    && IsSource(source, hit.result.value.cachedFrom.value, hit.alert.parts)
    && source.result.value.confidence >= 0.7
    && hit.env.lookupMs - source.result.value.timestampMs <= 300000
    && hit.result.value.rootCause == source.result.value.rootCause
    && hit.result.value.confidence == source.result.value.confidence
  }

  /** A result carries the id and the time of the call that made it. */
  ghost predicate Stamped(d: DS.Diagnosis, env: Env) {
    d.id == env.id && d.timestampMs == env.resultMs
  }

  ghost predicate FreshIds(log: seq<Record>) {
    && (forall i, j :: 0 <= i < j < |log| ==> log[i].env.id != log[j].env.id)
    && (forall i :: 0 <= i < |log| && log[i].result.Some? ==> Stamped(log[i].result.value, log[i].env))
  }

  ghost predicate Recorded(log: seq<Record>, d: DS.Diagnosis) {
    exists i :: 0 <= i < |log| && log[i].result == Some(d)
  }

  ghost predicate Indexed(log: seq<Record>, id: Id, parts: DS.Fingerprint) {
    exists i :: 0 <= i < |log| && IsSource(log[i], id, parts)
  }

  ghost predicate Justified(log: seq<Record>, i: nat)
    requires i < |log|
  {
    exists j :: 0 <= j < i && Justifies(log[j], log[i])
  }

  /** A cache hit, or any other call whose result is marked as cached. */
  ghost predicate Reuses(r: Record) {
    r.path == CacheHit || (r.result.Some? && r.result.value.status == DS.Cached)
  }

  /** Every reuse so far, and everything held for later reuse, goes back to a parsed response. */
  ghost predicate Provenance(log: seq<Record>, diagnoses: seq<DS.Diagnosis>, indexed: map<Id, DS.Fingerprint>) {
    && FreshIds(log)
    && (forall i :: 0 <= i < |diagnoses| ==> Recorded(log, diagnoses[i]))
    && (forall id :: id in indexed ==> Indexed(log, id, indexed[id]))
    && (forall i :: 0 <= i < |log| && Reuses(log[i]) ==> Justified(log, i))
  }

  /** A held diagnosis found under `parts` is the result of the very call that indexed it. */
  lemma SourceOfMatch(log: seq<Record>, diagnoses: seq<DS.Diagnosis>, indexed: map<Id, DS.Fingerprint>,
                      d: DS.Diagnosis, parts: DS.Fingerprint) returns (j: nat)
    requires Provenance(log, diagnoses, indexed)
    requires d in diagnoses && d.id in indexed && indexed[d.id] == parts
    ensures j < |log| && IsSource(log[j], d.id, parts) && log[j].result == Some(d)
  {
    hide ComesFromResponse, Justified;
    var k :| 0 <= k < |diagnoses| && diagnoses[k] == d;
    assert Recorded(log, diagnoses[k]);
    var i :| 0 <= i < |log| && log[i].result == Some(d);
    assert Indexed(log, d.id, parts);
    j :| 0 <= j < |log| && IsSource(log[j], d.id, parts);
    assert log[i].env.id == d.id == log[j].env.id;
  }

  /** Recording one more call keeps provenance, if a reuse among it is justified. */
  lemma RecordKeeps(log: seq<Record>, diagnoses: seq<DS.Diagnosis>, indexed: map<Id, DS.Fingerprint>, r: Record)
    requires Provenance(log, diagnoses, indexed)
    requires forall i :: 0 <= i < |log| ==> log[i].env.id != r.env.id
    requires r.result.Some? ==> Stamped(r.result.value, r.env)
    requires Reuses(r) ==> exists j :: 0 <= j < |log| && Justifies(log[j], r)
    ensures Provenance(log + [r], diagnoses, indexed)
    ensures r.result.Some? ==> Recorded(log + [r], r.result.value)
    ensures r.result.Some? ==> forall parts :: IsSource(r, r.env.id, parts) ==> Indexed(log + [r], r.env.id, parts)
  {
    hide ComesFromResponse;
    var all := log + [r];
    assert forall i :: 0 <= i < |log| ==> all[i] == log[i];
    assert all[|log|] == r;
    forall d | Recorded(log, d) ensures Recorded(all, d) {
      var i :| 0 <= i < |log| && log[i].result == Some(d);
      assert all[i].result == Some(d);
    }
    forall id, parts | Indexed(log, id, parts) ensures Indexed(all, id, parts) {
      var i :| 0 <= i < |log| && IsSource(log[i], id, parts);
      assert IsSource(all[i], id, parts);
    }
    forall i | 0 <= i < |log| && Justified(log, i) ensures Justified(all, i) {
      var j :| 0 <= j < i && Justifies(log[j], log[i]);
      assert Justifies(all[j], all[i]);
    }
    if Reuses(r) {
      var j :| 0 <= j < |log| && Justifies(log[j], r);
      assert Justifies(all[j], all[|log|]);
      assert Justified(all, |log|);
    }
  }

  /** The next lookup only needs what the bounded deque keeps. */
  lemma DequeKeeps(log: seq<Record>, diagnoses: seq<DS.Diagnosis>, indexed: map<Id, DS.Fingerprint>,
                   d: DS.Diagnosis, n: nat)
    requires Provenance(log, diagnoses, indexed) && Recorded(log, d)
    ensures Provenance(log, LastN(diagnoses + [d], n), indexed)
  {
  }

  /** Only what a parsed response completed may be indexed. */
  lemma IndexKeeps(log: seq<Record>, diagnoses: seq<DS.Diagnosis>, indexed: map<Id, DS.Fingerprint>,
                   id: Id, parts: DS.Fingerprint)
    requires Provenance(log, diagnoses, indexed) && Indexed(log, id, parts)
    ensures Provenance(log, diagnoses, indexed[id := parts])
  {
  }

  // The order of the stored results.

  ghost function StoredIn(log: seq<Record>): seq<DS.Diagnosis> {
    if |log| == 0 then []
    else
      var rest, r := StoredIn(log[..|log| - 1]), log[|log| - 1].result;
      if r.Some? then rest + [r.value] else rest
  }

  lemma StoredAppend(log: seq<Record>, r: Record)
    ensures StoredIn(log + [r]) == if r.result.Some? then StoredIn(log) + [r.result.value] else StoredIn(log)
  {
    assert (log + [r])[..|log|] == log;
  }

  /** The clock that stamps results never goes back from one call that stores a result to a later one. */
  ghost predicate ClockForward(log: seq<Record>) {
    forall i, j :: 0 <= i < j < |log| && log[i].result.Some? && log[j].result.Some? ==>
      log[i].env.resultMs <= log[j].env.resultMs
  }

  lemma {:induction false} StoredComesFrom(log: seq<Record>, d: DS.Diagnosis) returns (i: nat)
    requires d in StoredIn(log)
    ensures i < |log| && log[i].result == Some(d)
  {
    var last := |log| - 1;
    if log[last].result == Some(d) {
      i := last;
    } else {
      i := StoredComesFrom(log[..last], d);
    }
  }

  lemma {:induction false} StoredInOrder(log: seq<Record>)
    requires FreshIds(log) && ClockForward(log)
    ensures DS.Chronological(StoredIn(log))
  {
    if |log| > 0 {
      var rest, r := log[..|log| - 1], log[|log| - 1];
      StoredInOrder(rest);
      if r.result.Some? {
        forall k | 0 <= k < |StoredIn(rest)| ensures StoredIn(rest)[k].timestampMs <= r.result.value.timestampMs {
          var i := StoredComesFrom(rest, StoredIn(rest)[k]);
          assert log[i] == rest[i];
        }
      }
    }
  }

  lemma NewestInOrder(diagnoses: seq<DS.Diagnosis>, n: nat)
    requires DS.Chronological(diagnoses)
    ensures DS.Chronological(LastN(diagnoses, n))
  {
  }

  // Permits.

  /** Calls that took a permit: all that got past the rate limit without bypassing it. */
  ghost predicate TookPermit(r: Record) {
    !r.bypass && r.path != CacheHit && r.path != NotPermitted
  }

  /** Calls that reached the LLM. */
  ghost predicate CalledLlm(r: Record) {
    r.path == LlmFailed || r.path == Unparsable || r.path == Parsed || r.path == Raised
  }

  /** What happens to an agent: calls of `Diagnose`, and resets of its limiter, with the monotonic time. */
  datatype Event = Called(record: Record) | NodeReset(node: Id, at: real) | LimiterReset(at: real)

  ghost function CallsIn(trace: seq<Event>): seq<Record> {
    if |trace| == 0 then []
    else
      var rest, e := CallsIn(trace[..|trace| - 1]), trace[|trace| - 1];
      if e.Called? then rest + [e.record] else rest
  }

  /** What an event does to the limiter. */
  ghost function PermitOf(e: Event): Option<RL.Event> {
    match e
    case Called(r) => if TookPermit(r) then Some(RL.Granted(r.alert.node, r.env.monotonic)) else None
    case NodeReset(node, _) => Some(RL.Forgotten(node))
    case LimiterReset(_) => Some(RL.AllForgotten)
  }

  ghost function PermitsIn(trace: seq<Event>): seq<RL.Event> {
    if |trace| == 0 then []
    else
      var rest, e := PermitsIn(trace[..|trace| - 1]), PermitOf(trace[|trace| - 1]);
      if e.Some? then rest + [e.value] else rest
  }

  lemma TraceAppend(trace: seq<Event>, e: Event)
    ensures CallsIn(trace + [e]) == if e.Called? then CallsIn(trace) + [e.record] else CallsIn(trace)
    ensures PermitsIn(trace + [e])
            == if PermitOf(e).Some? then PermitsIn(trace) + [PermitOf(e).value] else PermitsIn(trace)
  {
    assert (trace + [e])[..|trace|] == trace;
  }

  lemma {:induction false} TraceConcat(a: seq<Event>, b: seq<Event>)
    ensures CallsIn(a + b) == CallsIn(a) + CallsIn(b) && PermitsIn(a + b) == PermitsIn(a) + PermitsIn(b)
  {
    hide CallsIn, PermitsIn, PermitOf;
    EmptyTrace();
    if |b| == 0 {
      assert a + b == a && b == [];
    } else {
      var b', e := b[..|b| - 1], b[|b| - 1];
      TraceConcat(a, b');
      assert b == b' + [e] && a + b == (a + b') + [e];
      TraceAppend(a + b', e);
      TraceAppend(b', e);
      if e.Called? {
        AppendLast(CallsIn(a), CallsIn(b'), e.record);
      }
      if PermitOf(e).Some? {
        AppendLast(PermitsIn(a), PermitsIn(b'), PermitOf(e).value);
      }
    }
  }

  lemma EmptyTrace()
    ensures CallsIn([]) == [] && PermitsIn([]) == []
  {
  }

  ghost predicate ResetsNode(e: Event, node: Id) {
    e.LimiterReset? || (e.NodeReset? && e.node == node)
  }

  ghost predicate NoReset(trace: seq<Event>, node: Id) {
    forall i :: 0 <= i < |trace| ==> !ResetsNode(trace[i], node)
  }

  /** Non-bypassed LLM calls of a node at a monotonic time between `from` and `to`. */
  ghost function LlmCallOf(node: Id, from: real, to: real): Record -> bool {
    (r: Record) => r.alert.node == node && !r.bypass && CalledLlm(r) && from <= r.env.monotonic <= to
  }

  /** Every LLM call that does not bypass the limiter took a permit. */
  lemma {:induction false} CallsAreGrants(trace: seq<Event>, node: Id, from: real, to: real)
    ensures Count(CallsIn(trace), LlmCallOf(node, from, to))
            <= Count(RL.GrantTimes(PermitsIn(trace), node), RL.Between(from, to))
  {
    hide Count, CallsIn, PermitsIn, RL.GrantTimes;
    if |trace| == 0 {
      assert trace == [];
      EmptyTrace();
      CountNone([], LlmCallOf(node, from, to));
    } else {
      var rest, e := trace[..|trace| - 1], trace[|trace| - 1];
      CallsAreGrants(rest, node, from, to);
      assert trace == rest + [e];
      TraceAppend(rest, e);
      if e.Called? {
        CountAppend(CallsIn(rest), [e.record], LlmCallOf(node, from, to));
        CountOne(e.record, LlmCallOf(node, from, to));
      }
      if PermitOf(e).Some? {
        GrantAppend(PermitsIn(rest), PermitOf(e).value, node, RL.Between(from, to));
      }
    }
  }

  lemma CountNone<T>(s: seq<T>, p: T -> bool)
    requires |s| == 0
    ensures Count(s, p) == 0
  {
  }

  lemma GrantAppend(events: seq<RL.Event>, e: RL.Event, node: Id, p: real -> bool)
    ensures Count(RL.GrantTimes(events + [e], node), p)
            == Count(RL.GrantTimes(events, node), p) + if RL.IsGrant(e, node) && p(e.at) then 1 else 0
  {
    assert (events + [e])[..|events|] == events;
    if RL.IsGrant(e, node) {
      CountAppend(RL.GrantTimes(events, node), [e.at], p);
      CountOne(e.at, p);
    } else {
      assert RL.GrantTimes(events, node) + [] == RL.GrantTimes(events, node);
    }
  }

  lemma CountOne<T>(x: T, p: T -> bool)
    ensures Count([x], p) == if p(x) then 1 else 0
  {
  }

  lemma {:induction false} ResetsCarryOver(trace: seq<Event>, node: Id)
    requires NoReset(trace, node)
    ensures RL.NoReset(PermitsIn(trace), node)
  {
    if |trace| > 0 {
      ResetsCarryOver(trace[..|trace| - 1], node);
    }
  }

  /**
   * Over every run, in any stretch without a reset of the node and any interval of `length` seconds, a node
   * causes at most `floor(length / cooldown) + 1` LLM calls that do not bypass the limiter. What was reset
   * before or after the stretch does not matter.
   */
  lemma LlmCallsAreBounded(before: seq<Event>, segment: seq<Event>, cooldown: real, node: Id, from: real, length: real)
    requires RL.LegalRun(PermitsIn(before + segment), cooldown) && NoReset(segment, node)
    requires cooldown > 0.0 && length >= 0.0
    ensures Count(CallsIn(segment), LlmCallOf(node, from, from + length)) <= RL.Capacity(length, cooldown)
  {
    hide *;
    TraceConcat(before, segment);
    ResetsCarryOver(segment, node);
    RL.GrantsInInterval(PermitsIn(before), PermitsIn(segment), cooldown, node, from, length);
    CallsAreGrants(segment, node, from, from + length);
  }

  function TimeOf(e: Event): real {
    match e case Called(r) => r.env.monotonic case NodeReset(_, at) => at case LimiterReset(at) => at
  }

  ghost predicate Monotone(trace: seq<Event>) {
    forall i, j :: 0 <= i < j < |trace| ==> TimeOf(trace[i]) <= TimeOf(trace[j])
  }

  /** The same in terms of time alone, the clock being monotonic: no reset of the node falls into the interval. */
  lemma LlmCallsInTime(trace: seq<Event>, cooldown: real, node: Id, from: real, length: real)
    requires RL.LegalRun(PermitsIn(trace), cooldown) && Monotone(trace)
    requires forall i :: 0 <= i < |trace| && from <= TimeOf(trace[i]) <= from + length ==> !ResetsNode(trace[i], node)
    requires cooldown > 0.0 && length >= 0.0
    ensures Count(CallsIn(trace), LlmCallOf(node, from, from + length)) <= RL.Capacity(length, cooldown)
  {
    hide RL.LegalRun, Count, LlmCallOf, PermitsIn, CallsIn, Monotone, ResetsNode, RL.Capacity, TimeOf;
    var lo, hi := Stretch(trace, from, from + length);
    var a, b, c := trace[..lo], trace[lo..hi], trace[hi..];
    assert trace == (a + b) + c;
    TraceConcat(a + b, c);
    TraceConcat(a, b);
    LegalPrefix(PermitsIn(a + b), PermitsIn(c), cooldown);
    LlmCallsAreBounded(a, b, cooldown, node, from, length);
    var p := LlmCallOf(node, from, from + length);
    NoCallOutside(a, node, from, from + length);
    NoCallOutside(c, node, from, from + length);
    CountAppend(CallsIn(a + b), CallsIn(c), p);
    CountAppend(CallsIn(a), CallsIn(b), p);
  }

  /** The events of a monotonic trace that fall into an interval are consecutive. */
  lemma Stretch(trace: seq<Event>, from: real, to: real) returns (lo: nat, hi: nat)
    requires Monotone(trace)
    ensures lo <= hi <= |trace|
    ensures forall i :: 0 <= i < lo ==> TimeOf(trace[i]) < from
    ensures forall i :: lo <= i < hi ==> from <= TimeOf(trace[i]) <= to
    ensures forall i :: hi <= i < |trace| ==> TimeOf(trace[i]) > to
  {
    lo := 0;
    while lo < |trace| && TimeOf(trace[lo]) < from
      invariant lo <= |trace| && forall i :: 0 <= i < lo ==> TimeOf(trace[i]) < from
    {
      lo := lo + 1;
    }
    hi := |trace|;
    while hi > lo && TimeOf(trace[hi - 1]) > to
      invariant lo <= hi <= |trace| && forall i :: hi <= i < |trace| ==> TimeOf(trace[i]) > to
    {
      hi := hi - 1;
    }
  }

  lemma LegalPrefix(a: seq<RL.Event>, b: seq<RL.Event>, cooldown: real)
    requires RL.LegalRun(a + b, cooldown)
    ensures RL.LegalRun(a, cooldown)
  {
    forall i | 0 <= i < |a| ensures RL.Legal(a[..i], a[i], cooldown) {
      assert (a + b)[..i] == a[..i] && (a + b)[i] == a[i];
    }
  }

  lemma {:induction false} NoCallOutside(trace: seq<Event>, node: Id, from: real, to: real)
    requires forall i :: 0 <= i < |trace| ==> !(from <= TimeOf(trace[i]) <= to)
    ensures Count(CallsIn(trace), LlmCallOf(node, from, to)) == 0
  {
    if |trace| > 0 {
      var rest, e := trace[..|trace| - 1], trace[|trace| - 1];
      NoCallOutside(rest, node, from, to);
      if e.Called? {
        CountAppend(CallsIn(rest), [e.record], LlmCallOf(node, from, to));
        CountOne(e.record, LlmCallOf(node, from, to));
      }
    }
  }

  class Agent {
    const store: DS.Store
    const limiter: RL.Limiter
    /** Every call of `Diagnose` so far, and the same with the limiter's resets in between. */
    ghost var log: seq<Record>
    ghost var trace: seq<Event>

    ghost predicate Valid()
      reads this, store, limiter
    {
      && Coherent()
      && limiter.events == PermitsIn(trace)
    }

    /** All of validity but the agreement of the limiter with the trace, which lags behind during a call. */
    ghost predicate Coherent()
      reads this, store, limiter
    {
      && store.Valid() && limiter.Valid()
      && log == CallsIn(trace) && store.added == StoredIn(log)
      && Provenance(log, store.diagnoses, store.indexed)
    }

    constructor (maxSize: nat, cooldown: real := RL.DEFAULT_COOLDOWN_SECONDS)
      ensures Valid() && log == [] && trace == [] && fresh(store) && fresh(limiter)
      ensures store.maxSize == maxSize && store.added == [] && store.indexed == map[]
      ensures limiter.cooldown == cooldown && limiter.lastCall == map[]
    {
      store := new DS.Store(maxSize);
      limiter := new RL.Limiter(cooldown);
      log, trace := [], [];
    }

    lemma Holds()
      requires Valid()
      ensures store.Valid() && store.diagnoses == LastN(store.added, store.maxSize)
    {
    }

    /** Over every run: the bound for any stretch of it that holds no reset of the node. */
    lemma CallsPerInterval(lo: nat, hi: nat, node: Id, from: real, length: real)
      requires Valid() && lo <= hi <= |trace| && NoReset(trace[lo..hi], node)
      requires limiter.cooldown > 0.0 && length >= 0.0
      ensures Count(CallsIn(trace[lo..hi]), LlmCallOf(node, from, from + length))
              <= RL.Capacity(length, limiter.cooldown)
    {
      assert trace == trace[..hi] + trace[hi..] && trace[..hi] == trace[..lo] + trace[lo..hi];
      TraceConcat(trace[..hi], trace[hi..]);
      LegalPrefix(PermitsIn(trace[..hi]), PermitsIn(trace[hi..]), limiter.cooldown);
      LlmCallsAreBounded(trace[..lo], trace[lo..hi], limiter.cooldown, node, from, length);
    }

    /**
     * Over every run whose result clock does not go back, a lookup finds something iff the deque holds a usable
     * match within the TTL.
     */
    lemma LookupIsExact(parts: DS.Fingerprint, cutoffMs: int)
      requires Valid() && ClockForward(log)
      ensures DS.Lookup(store.diagnoses, store.indexed, parts, CACHE_MIN_CONFIDENCE, cutoffMs).Some?
              <==> DS.HasMatch(store.diagnoses, store.indexed, parts, CACHE_MIN_CONFIDENCE, cutoffMs)
    {
      hide DS.Lookup, DS.HasMatch, StoredIn, ClockForward, CallsIn, PermitsIn;
      StoredInOrder(log);
      NewestInOrder(store.added, store.maxSize);
      DS.LookupIffMatch(store.diagnoses, store.indexed, parts, CACHE_MIN_CONFIDENCE, cutoffMs);
    }

    method ResetNode(node: Id, ghost at: real)
      requires Valid()
      modifies this`trace, limiter
      ensures Valid() && trace == old(trace) + [NodeReset(node, at)]
      ensures limiter.lastCall == old(limiter.lastCall) - {node}
    {
      TraceAppend(trace, NodeReset(node, at));
      limiter.Reset(node);
      trace := trace + [NodeReset(node, at)];
    }

    method ResetLimiter(ghost at: real)
      requires Valid()
      modifies this`trace, limiter
      ensures Valid() && trace == old(trace) + [LimiterReset(at)]
      ensures limiter.lastCall == map[]
    {
      TraceAppend(trace, LimiterReset(at));
      limiter.ResetAll();
      trace := trace + [LimiterReset(at)];
    }

    /**
     * One call: the result is stored and logged, a reuse names its source, and only a call that neither hits
     * the cache nor bypasses the limiter can change the limiter.
     */
    method Diagnose(alert: Alert, bypass: bool, env: Env) returns (r: Option<DS.Diagnosis>, ghost path: Path)
      requires Valid()
      requires forall i :: 0 <= i < |log| ==> log[i].env.id != env.id
      modifies this, store, limiter
      ensures Valid()
      ensures log == old(log) + [Record(alert, bypass, env, path, r)]
      ensures trace == old(trace) + [Called(Record(alert, bypass, env, path, r))]
      ensures store.added == if r.Some? then old(store.added) + [r.value] else old(store.added)
      ensures limiter.lastCall == if TookPermit(log[|log| - 1]) then old(limiter.lastCall)[alert.node := env.monotonic]
                                  else old(limiter.lastCall)
      ensures var hit := DS.Lookup(old(store.diagnoses), old(store.indexed), alert.parts, 0.7, env.lookupMs - 300000);
              && (path == CacheHit <==> hit.Some?)
              && (path == CacheHit ==>
                    r == Some(DS.Diagnosis(env.id, alert.id, alert.node, env.resultMs, hit.value.rootCause,
                                           hit.value.confidence, DS.Cached, Some(hit.value.id))))
              && (ClockForward(old(log)) ==>
                    (path == CacheHit <==> DS.HasMatch(old(store.diagnoses), old(store.indexed), alert.parts, 0.7,
                                                       env.lookupMs - 300000)))
              && (path == NotPermitted <==>
                   && hit.None? && !bypass
                   && (if alert.node in old(limiter.lastCall)
                       then env.monotonic - old(limiter.lastCall)[alert.node] < limiter.cooldown
                       else env.monotonic < limiter.cooldown))
      ensures path == NotPermitted ==> r.Some? && AnsweredLocally(r.value, alert, env, DS.RateLimited)
      ensures path != CacheHit && path != NotPermitted ==> Answered(r, alert, env) && Follows(path, r, alert, env)
      ensures path == Parsed ==> store.indexed == old(store.indexed)[env.id := alert.parts]
      ensures path != Parsed ==> store.indexed == old(store.indexed)
    {
      hide UnavailableResult, FailedResult, ParseOf, RL.Allows, DS.Lookup, DS.Usable, Provenance, CallsIn,
           PermitsIn, RL.LegalRun, RL.Remembered, Follows, DS.HasMatch, ClockForward, StoredIn, Answered,
           AnsweredLocally;
      if ClockForward(log) {
        LookupIsExact(alert.parts, env.lookupMs - CACHE_TTL_MS);
      }
      IndexedIdsAreLogged(log, store.diagnoses, store.indexed, env.id);
      var cached := store.FindCachedMatch(alert.parts, CACHE_TTL_MS, CACHE_MIN_CONFIDENCE, env.lookupMs);
      if cached.Some? {
        r := Reuse(alert, bypass, env, cached.value);
        return r, CacheHit;
      }
      if !bypass {
        var granted := limiter.TryAcquire(alert.node, env.monotonic);
        if !granted {
          var result := UnavailableResult(alert, env, DS.RateLimited);
          LocalAnswer(alert, env, DS.RateLimited);
          StoreResult(alert, bypass, env, NotPermitted, result);
          return Some(result), NotPermitted;
        }
      }
      r, path := CallLlm(alert, bypass, env);
      FollowsShape(path, r, alert, env);
      FollowsAnswers(path, r, alert, env);
    }

    /** Stores a copy of a match under the new alert. */
    method Reuse(alert: Alert, bypass: bool, env: Env, source: DS.Diagnosis) returns (r: Option<DS.Diagnosis>)
      requires Valid() && env.id !in store.indexed
      requires forall i :: 0 <= i < |log| ==> log[i].env.id != env.id
      requires Some(source) == DS.Lookup(store.diagnoses, store.indexed, alert.parts, CACHE_MIN_CONFIDENCE,
                                         env.lookupMs - CACHE_TTL_MS)
      modifies this, store
      ensures Valid() && r == Some(Clone(source, alert, env))
      ensures log == old(log) + [Record(alert, bypass, env, CacheHit, r)]
      ensures trace == old(trace) + [Called(Record(alert, bypass, env, CacheHit, r))]
      ensures store.added == old(store.added) + [r.value] && store.indexed == old(store.indexed)
    {
      var cloned := Clone(source, alert, env);
      DS.LookupIsSound(store.diagnoses, store.indexed, alert.parts, CACHE_MIN_CONFIDENCE, env.lookupMs - CACHE_TTL_MS);
      ghost var j := SourceOfMatch(log, store.diagnoses, store.indexed, source, alert.parts);
      assert Justifies(log[j], Record(alert, bypass, env, CacheHit, Some(cloned)));
      StoreResult(alert, bypass, env, CacheHit, cloned);
      r := Some(cloned);
    }

    /** The limiter already counts the permit of the call in progress. */
    ghost predicate Taken(alert: Alert, bypass: bool, env: Env)
      reads this, limiter
    {
      limiter.events == if bypass then PermitsIn(trace)
                        else PermitsIn(trace) + [RL.Granted(alert.node, env.monotonic)]
    }

    /** The phases after the permit: client, context, LLM call, parsing. */
    method CallLlm(alert: Alert, bypass: bool, env: Env) returns (r: Option<DS.Diagnosis>, path: Path)
      requires Coherent() && Taken(alert, bypass, env)
      requires forall i :: 0 <= i < |log| ==> log[i].env.id != env.id
      requires env.id !in store.indexed
      modifies this, store
      ensures Valid()
      ensures log == old(log) + [Record(alert, bypass, env, path, r)]
      ensures trace == old(trace) + [Called(Record(alert, bypass, env, path, r))]
      ensures store.added == if r.Some? then old(store.added) + [r.value] else old(store.added)
      ensures Follows(path, r, alert, env)
      ensures path == Parsed ==> store.indexed == old(store.indexed)[env.id := alert.parts]
      ensures path != Parsed ==> store.indexed == old(store.indexed)
    {
      hide Follows, ParseOf, Provenance, CallsIn, PermitsIn, RL.LegalRun;
      r, path := Attempt(alert, env);
      FollowsShape(path, r, alert, env);
      if r.None? {
        NoteRaised(Record(alert, bypass, env, Raised, None));
      } else if path == Parsed {
        StoreParsed(alert, bypass, env, r.value);
      } else {
        StoreRecord(Record(alert, bypass, env, path, r), r.value);
      }
    }

    /** What the phases after the permit come to; nothing is stored yet. */
    static method Attempt(alert: Alert, env: Env) returns (r: Option<DS.Diagnosis>, path: Path)
      ensures Follows(path, r, alert, env)
    {
      if !env.clientReady {
        return Some(FailedResult(alert, env, DS.Failed)), NoClient;
      }
      if !env.contextReady {
        return Some(FailedResult(alert, env, DS.Failed)), ContextFailed;
      }
      if !env.llm.Response? {
        return Some(UnavailableResult(alert, env, DS.Failed)), LlmFailed;
      }
      var parse := ParseResponse(env.llm.content, alert, env);
      match parse {
        case Diagnosed(d) => path, r := Parsed, Some(d);
        case Rejected(d) => path, r := Unparsable, Some(d);
        case Invalid => path, r := Raised, None;
      }
    }

    /** A call whose result could not be built: nothing is stored, the exception goes to the caller. */
    ghost method NoteRaised(record: Record)
      requires Coherent() && record.result == None && record.path == Raised
      requires forall i :: 0 <= i < |log| ==> log[i].env.id != record.env.id
      modifies this`log, this`trace
      ensures Coherent()
      ensures log == old(log) + [record] && trace == old(trace) + [Called(record)]
      ensures PermitsIn(trace) == if TookPermit(record)
                                  then PermitsIn(old(trace)) + [RL.Granted(record.alert.node, record.env.monotonic)]
                                  else PermitsIn(old(trace))
    {
      hide Provenance, Recorded, StoredIn, CallsIn, PermitsIn, Justifies, DS.Store.Valid, RL.Limiter.Valid;
      RecordKeeps(log, store.diagnoses, store.indexed, record);
      TraceAppend(trace, Called(record));
      StoredAppend(log, record);
      log, trace := log + [record], trace + [Called(record)];
    }

    /** Stores a result that is not indexed, and logs the call. */
    method StoreRecord(ghost record: Record, d: DS.Diagnosis)
      requires Coherent()
      requires d.id !in store.indexed && Stamped(d, record.env) && record.result == Some(d)
      requires forall i :: 0 <= i < |log| ==> log[i].env.id != d.id
      requires Reuses(record) ==> exists j :: 0 <= j < |log| && Justifies(log[j], record)
      modifies this, store
      ensures Coherent()
      ensures log == old(log) + [record] && store.added == old(store.added) + [d] && store.indexed == old(store.indexed)
      ensures trace == old(trace) + [Called(record)]
      ensures PermitsIn(trace) == if TookPermit(record)
                                  then PermitsIn(old(trace)) + [RL.Granted(record.alert.node, record.env.monotonic)]
                                  else PermitsIn(old(trace))
      ensures store.diagnoses == LastN(old(store.diagnoses) + [d], store.maxSize)
    {
      hide Provenance, Recorded, StoredIn, CallsIn, PermitsIn, Justifies, Reuses, DS.Store.Valid, RL.Limiter.Valid;
      RecordKeeps(log, store.diagnoses, store.indexed, record);
      DequeKeeps(log + [record], store.diagnoses, store.indexed, d, store.maxSize);
      TraceAppend(trace, Called(record));
      StoredAppend(log, record);
      store.Add(d);
      log, trace := log + [record], trace + [Called(record)];
    }

    method StoreResult(alert: Alert, bypass: bool, env: Env, ghost path: Path, d: DS.Diagnosis)
      requires Valid() && Stamped(d, env) && env.id !in store.indexed
      requires forall i :: 0 <= i < |log| ==> log[i].env.id != env.id
      requires path == CacheHit || path == NotPermitted
      requires var record := Record(alert, bypass, env, path, Some(d));
               Reuses(record) ==> exists j :: 0 <= j < |log| && Justifies(log[j], record)
      modifies this, store
      ensures Valid()
      ensures log == old(log) + [Record(alert, bypass, env, path, Some(d))]
      ensures trace == old(trace) + [Called(Record(alert, bypass, env, path, Some(d)))]
      ensures store.added == old(store.added) + [d] && store.indexed == old(store.indexed)
    {
      StoreRecord(Record(alert, bypass, env, path, Some(d)), d);
    }

    /** Stores and indexes a result that an LLM response completed. */
    method StoreParsed(alert: Alert, bypass: bool, env: Env, d: DS.Diagnosis)
      requires Coherent() && Taken(alert, bypass, env)
      requires forall i :: 0 <= i < |log| ==> log[i].env.id != env.id
      requires Stamped(d, env) && env.id !in store.indexed && d.status == DS.Completed
      requires env.llm.Response? && ParseOf(env.llm.content, alert, env) == Diagnosed(d)
      modifies this, store
      ensures Valid()
      ensures log == old(log) + [Record(alert, bypass, env, Parsed, Some(d))]
      ensures trace == old(trace) + [Called(Record(alert, bypass, env, Parsed, Some(d)))]
      ensures store.added == old(store.added) + [d] && store.indexed == old(store.indexed)[env.id := alert.parts]
    {
      hide ParseOf, Provenance, CallsIn, PermitsIn, RL.LegalRun, RL.Remembered;
      StoreRecord(Record(alert, bypass, env, Parsed, Some(d)), d);
      assert IsSource(log[|log| - 1], env.id, alert.parts);
      IndexKeeps(log, store.diagnoses, store.indexed, env.id, alert.parts);
      store.IndexFingerprint(env.id, alert.parts);
    }
  }

  /** A complete answer of the model, with confidence 0.9. */
  const ANSWER := ToolInput(Some(1), Some(0.9), Some(1), Some([]), Some(ActionData(Some(1), Some(Soon))))

  /**
   * Two calls between which the clock goes back hide a usable diagnosis: the first stores it at 400000 ms,
   * the second stores a failure at 50000 ms, and a lookup at 400000 ms finds nothing although there is a match.
   */
  method ClockGoingBack() returns (agent: Agent, found: Option<DS.Diagnosis>)
    ensures agent.Valid() && found == None && agent.limiter.cooldown == 30.0
    ensures DS.NewestMatch(agent.store.diagnoses, agent.store.indexed, [1], CACHE_MIN_CONFIDENCE,
                           400000 - CACHE_TTL_MS, 0)
  {
    hide Agent.Valid, Agent.Coherent, Agent.Taken, RL.Allows, UnavailableResult, TookPermit, Follows, DS.Lookup, Clone,
         DS.NewestMatch;
    agent := new Agent(100);
    var alert, other := Alert(1, 1, LossSpike, [1]), Alert(2, 1, LossSpike, [2]);
    var first := Env(1, 400000, 400000, 100.0, true, true, Response([SubmitDiagnosis(ANSWER)]));
    var second := Env(2, 50000, 50000, 200.0, false, true, TimeoutError);
    agent.Holds();
    NothingToFind([1], 100000);
    var d, path := agent.Diagnose(alert, true, first);
    FirstAnswer(path, d, alert, first);
    agent.Holds();
    assert agent.store.diagnoses == [d.value];
    OtherParts(d.value, agent.store.indexed, [2], -250000);
    var stale, path' := agent.Diagnose(other, true, second);
    Unanswered(path', stale, other, second);
    agent.Holds();
    assert agent.store.diagnoses == [d.value, stale.value];
    DS.StaleEntryHidesMatch(d.value, stale.value, agent.store.indexed, [1], CACHE_MIN_CONFIDENCE, 100000);
    found := agent.store.FindCachedMatch([1], CACHE_TTL_MS, CACHE_MIN_CONFIDENCE, 400000);
  }

  lemma NothingToFind(parts: DS.Fingerprint, cutoffMs: int)
    ensures DS.Lookup([], map[], parts, CACHE_MIN_CONFIDENCE, cutoffMs) == None
  {
  }

  lemma OtherParts(d: DS.Diagnosis, indexed: map<Id, DS.Fingerprint>, parts: DS.Fingerprint, cutoffMs: int)
    requires d.id in indexed ==> indexed[d.id] != parts
    ensures DS.Lookup([d], indexed, parts, CACHE_MIN_CONFIDENCE, cutoffMs) == None
  {
    assert DS.Lookup([], indexed, parts, CACHE_MIN_CONFIDENCE, cutoffMs) == None;
  }

  lemma FirstAnswer(path: Path, r: Option<DS.Diagnosis>, alert: Alert, env: Env)
    requires Follows(path, r, alert, env) && env.clientReady && env.contextReady
    requires env.llm == Response([SubmitDiagnosis(ANSWER)])
    ensures path == Parsed
    ensures r == Some(DS.Diagnosis(env.id, alert.id, alert.node, env.resultMs, 1, 0.9, DS.Completed, None))
  {
  }

  lemma Unanswered(path: Path, r: Option<DS.Diagnosis>, alert: Alert, env: Env)
    requires Follows(path, r, alert, env) && !env.clientReady
    ensures path == NoClient && r == Some(FailedResult(alert, env, DS.Failed))
  {
  }

  /** Only ids of logged calls are ever indexed. */
  lemma IndexedIdsAreLogged(log: seq<Record>, diagnoses: seq<DS.Diagnosis>, indexed: map<Id, DS.Fingerprint>, id: Id)
    requires Provenance(log, diagnoses, indexed)
    requires forall i :: 0 <= i < |log| ==> log[i].env.id != id
    ensures id !in indexed
  {
  }
}
