/** Monitoring policies with per-key cooldowns: their store, and the evaluator that runs over it. */
module PolicyEvaluator {
  import opened Prelude
  import MS = MetricsStore
  import CM = CustomMetrics
  import PC = PolicyConditions

  datatype Source = Gpu | Training | DiLoCo | Custom

  datatype Policy = Policy(
    enabled: bool, scopeNode: Option<Id>, scopeJob: Option<Id>, source: Source, field: Id,
    operator: PC.Operator, threshold: real, forSeconds: real, cooldownSeconds: real,
    createdAtMs: int, updatedAtMs: int, lastTriggeredAtMs: Option<int>)

  datatype Scope = Scope(node: Option<Id>, job: Option<Id>)

  datatype Metric = Metric(source: Source, field: Id)

  datatype Condition = Condition(operator: PC.Operator, threshold: real, forSeconds: real)

  datatype Patch = Patch(enabled: Option<bool>, scope: Option<Scope>, metric: Option<Metric>,
                         condition: Option<Condition>, cooldownSeconds: Option<real>)

  /** The parts that a patch gives are replaced, all others stay. */
  ghost predicate IsPatched(was: Policy, now: Policy, patch: Patch, nowMs: int) {
    && now.enabled == (if patch.enabled.Some? then patch.enabled.value else was.enabled)
    && now.scopeNode == (if patch.scope.Some? then patch.scope.value.node else was.scopeNode)
    && now.scopeJob == (if patch.scope.Some? then patch.scope.value.job else was.scopeJob)
    && now.source == (if patch.metric.Some? then patch.metric.value.source else was.source)
    && now.field == (if patch.metric.Some? then patch.metric.value.field else was.field)
    && now.operator == (if patch.condition.Some? then patch.condition.value.operator else was.operator)
    && now.threshold == (if patch.condition.Some? then patch.condition.value.threshold else was.threshold)
    && now.forSeconds == (if patch.condition.Some? then patch.condition.value.forSeconds else was.forSeconds)
    && now.cooldownSeconds == (if patch.cooldownSeconds.Some? then patch.cooldownSeconds.value else was.cooldownSeconds)
    && now.createdAtMs == was.createdAtMs && now.updatedAtMs == nowMs && now.lastTriggeredAtMs == was.lastTriggeredAtMs
  }

  /** Cooldowns are kept per policy, node and job. */
  datatype Key = Key(policy: Id, node: Id, job: Option<Id>)

  /** What matters of a run for cooldowns: alerts raised, with the cooldown in force, and policies deleted. */
  datatype Entry = Triggered(key: Key, nowMs: int, cooldownSeconds: real) | Deleted(policy: Id)

  /** When `key` last triggered, unless its policy was deleted since. */
  function LastTrigger(log: seq<Entry>, key: Key): Option<int> {
    if |log| == 0 then None
    else
      match log[|log| - 1]
      case Triggered(k, now, _) => if k == key then Some(now) else LastTrigger(log[..|log| - 1], key)
      case Deleted(p) => if p == key.policy then None else LastTrigger(log[..|log| - 1], key)
  }

  lemma LastTriggerAppend(log: seq<Entry>, e: Entry, key: Key)
    ensures LastTrigger(log + [e], key)
            == match e
               case Triggered(k, now, _) => (if k == key then Some(now) else LastTrigger(log, key))
               case Deleted(p) => (if p == key.policy then None else LastTrigger(log, key))
  {
  }

  function CooldownMs(seconds: real): int {
    Trunc(seconds * 1000.0)
  }

  /** A positive cooldown separates a trigger from the one before it. */
  ghost predicate Spaced(before: seq<Entry>, e: Entry) {
    e.Triggered? && e.cooldownSeconds > 0.0 && LastTrigger(before, e.key).Some? ==>
      e.nowMs - LastTrigger(before, e.key).value >= CooldownMs(e.cooldownSeconds)
  }

  ghost predicate WellSpaced(log: seq<Entry>) {
    forall j :: 0 <= j < |log| ==> Spaced(log[..j], log[j])
  }

  /** The cooldowns remember the last trigger of every key. */
  ghost predicate Agrees(cooldowns: map<Key, int>, log: seq<Entry>) {
    forall k :: LastTrigger(log, k) == if k in cooldowns then Some(cooldowns[k]) else None
  }

  lemma DeletionKeeps(cooldowns: map<Key, int>, log: seq<Entry>, policy: Id)
    requires Agrees(cooldowns, log) && WellSpaced(log)
    ensures Agrees(map k | k in cooldowns && k.policy != policy :: cooldowns[k], log + [Deleted(policy)])
    ensures WellSpaced(log + [Deleted(policy)])
  {
    hide LastTrigger;
    WellSpacedAppend(log, Deleted(policy));
    forall k: Key {
      LastTriggerAppend(log, Deleted(policy), k);
    }
  }

  lemma WellSpacedAppend(log: seq<Entry>, e: Entry)
    requires WellSpaced(log) && Spaced(log, e)
    ensures WellSpaced(log + [e])
  {
    forall j | 0 <= j < |log + [e]| ensures Spaced((log + [e])[..j], (log + [e])[j]) {
      if j < |log| {
        assert (log + [e])[..j] == log[..j];
      } else {
        assert (log + [e])[..j] == log;
      }
    }
  }

  /**
   * Consecutive triggers of one key, with no deletion of its policy between them, are at least the cooldown
   * in force at the later one apart. Nothing is assumed about the clock.
   */
  lemma ConsecutiveTriggersAreSpaced(log: seq<Entry>, i: nat, j: nat)
    requires WellSpaced(log)
    requires i < j < |log| && log[i].Triggered? && log[j].Triggered? && log[i].key == log[j].key
    requires log[j].cooldownSeconds > 0.0
    requires forall k :: i < k < j ==> log[k] != Deleted(log[i].key.policy)
    requires forall k :: i < k < j && log[k].Triggered? ==> log[k].key != log[i].key
    ensures log[j].nowMs - log[i].nowMs >= CooldownMs(log[j].cooldownSeconds)
  {
    LastTriggerIs(log[..j], i);
    assert Spaced(log[..j], log[j]);
  }

  lemma {:induction false} LastTriggerIs(log: seq<Entry>, i: nat)
    requires i < |log| && log[i].Triggered?
    requires forall k :: i < k < |log| ==> log[k] != Deleted(log[i].key.policy)
    requires forall k :: i < k < |log| && log[k].Triggered? ==> log[k].key != log[i].key
    ensures LastTrigger(log, log[i].key) == Some(log[i].nowMs)
  {
    if i < |log| - 1 {
      LastTriggerIs(log[..|log| - 1], i);
    }
  }

  predicate InCooldown(cooldowns: map<Key, int>, key: Key, cooldownSeconds: real, nowMs: int) {
    cooldownSeconds > 0.0 && key in cooldowns && nowMs - cooldowns[key] < CooldownMs(cooldownSeconds)
  }

  /**
   * The bound needs a positive cooldown: with none, a trigger is never suppressed, so that a clock going
   * back by any amount lets the same key trigger again at an earlier time.
   */
  lemma NoCooldownNoBound(cooldowns: map<Key, int>, key: Key, nowMs: int, back: nat)
    ensures !InCooldown(cooldowns[key := nowMs], key, 0.0, nowMs - back)
    ensures WellSpaced([Triggered(key, nowMs, 0.0), Triggered(key, nowMs - back, 0.0)])
  {
  }

  class PolicyStore {
    /** The policies in insertion order, and by id. */
    var order: seq<Id>
    var policies: map<Id, Policy>
    var cooldowns: map<Key, int>
    /** Every trigger and deletion so far. */
    ghost var log: seq<Entry>

    ghost predicate Valid()
      reads this
    {
      && Distinct(order)
      && (forall p :: p in order <==> p in policies)
      && (forall k :: k in cooldowns ==> k.policy in policies)
      && Agrees(cooldowns, log)
      && WellSpaced(log)
    }

    constructor ()
      ensures Valid() && log == [] && order == []
    {
      order, policies, cooldowns, log := [], map[], map[], [];
    }

    method Create(policyId: Id, p: Policy, nowMs: int) returns (r: Result<Policy, Id>)
      requires Valid()
      modifies this
      ensures Valid() && log == old(log) && cooldowns == old(cooldowns)
      ensures policyId in old(policies) ==> r == Err(policyId) && order == old(order) && policies == old(policies)
      ensures policyId !in old(policies) ==>
                && r == Ok(p.(createdAtMs := nowMs, updatedAtMs := nowMs))
                && order == old(order) + [policyId] && policies == old(policies)[policyId := r.value]
    {
      if policyId in policies {
        return Err(policyId);
      }
      var entry := p.(createdAtMs := nowMs, updatedAtMs := nowMs);
      policies := policies[policyId := entry];
      order := order + [policyId];
      r := Ok(entry);
    }

    method Update(policyId: Id, patch: Patch, nowMs: int) returns (r: Option<Policy>)
      requires Valid()
      modifies this`policies
      ensures Valid()
      ensures policyId !in old(policies) ==> r == None && policies == old(policies)
      ensures policyId in old(policies) ==>
                && r.Some? && IsPatched(old(policies)[policyId], r.value, patch, nowMs)
                && policies == old(policies)[policyId := r.value]
    {
      if policyId !in policies {
        return None;
      }
      var entry := policies[policyId];
      if patch.enabled.Some? {
        entry := entry.(enabled := patch.enabled.value);
      }
      if patch.scope.Some? {
        entry := entry.(scopeNode := patch.scope.value.node, scopeJob := patch.scope.value.job);
      }
      if patch.metric.Some? {
        entry := entry.(source := patch.metric.value.source, field := patch.metric.value.field);
      }
      if patch.condition.Some? {
        var c := patch.condition.value;
        entry := entry.(operator := c.operator, threshold := c.threshold, forSeconds := c.forSeconds);
      }
      if patch.cooldownSeconds.Some? {
        entry := entry.(cooldownSeconds := patch.cooldownSeconds.value);
      }
      entry := entry.(updatedAtMs := nowMs);
      policies := policies[policyId := entry];
      r := Some(entry);
    }

    method Toggle(policyId: Id, nowMs: int) returns (r: Option<Policy>)
      requires Valid()
      modifies this`policies
      ensures Valid()
      ensures policyId !in old(policies) ==> r == None && policies == old(policies)
      ensures policyId in old(policies) ==>
                && r == Some(old(policies)[policyId].(enabled := !old(policies)[policyId].enabled,
                    updatedAtMs := nowMs))
                && policies == old(policies)[policyId := r.value]
    {
      if policyId !in policies {
        return None;
      }
      var entry := policies[policyId];
      entry := entry.(enabled := !entry.enabled, updatedAtMs := nowMs);
      policies := policies[policyId := entry];
      r := Some(entry);
    }

    /** Deleting a policy forgets its cooldowns, and only those. */
    method Delete(policyId: Id) returns (deleted: bool)
      requires Valid()
      modifies this
      ensures Valid()
      ensures deleted == (policyId in old(policies))
      ensures policies == old(policies) - {policyId}
      ensures cooldowns == map k | k in old(cooldowns) && k.policy != policyId :: old(cooldowns)[k]
      ensures log == if deleted then old(log) + [Deleted(policyId)] else old(log)
      ensures KeepsOrder(old(order), order)
    {
      if policyId !in policies {
        return false;
      }
      hide WellSpaced, Agrees, KeepsOrder;
      DeletionKeeps(cooldowns, log, policyId);
      policies := policies - {policyId};
      var at := IndexOf(order, policyId);
      RemoveAt(order, at);
      order := order[..at] + order[at + 1..];
      cooldowns := map k | k in cooldowns && k.policy != policyId :: cooldowns[k];
      log := log + [Deleted(policyId)];
      deleted := true;
    }

    method ListEnabled() returns (r: seq<(Id, Policy)>)
      requires Valid()
      ensures r == EnabledPolicies(order, policies)
    {
      r := [];
      for i := 0 to |order|
        invariant r == EnabledPolicies(order[..i], policies)
      {
        assert order[..i + 1][..i] == order[..i];
        var id := order[i];
        assert id in order && id in policies;
        if policies[id].enabled {
          r := r + [(id, policies[id])];
        }
      }
      assert order[..|order|] == order;
    }

    /**
     * Records a trigger without asking anything; the store stays valid when the policy is stored and the key
     * not in cooldown, which is what the evaluator has made sure of.
     */
    method MarkTriggered(key: Key, nowMs: int, ghost cooldownSeconds: real)
      modifies this
      ensures (old(Valid()) && key.policy in old(policies)
               && !InCooldown(old(cooldowns), key, cooldownSeconds, nowMs)) ==> Valid()
      ensures order == old(order) && cooldowns == old(cooldowns)[key := nowMs]
      ensures policies
              == if key.policy !in old(policies) then old(policies)
                 else old(policies)[key.policy := old(policies)[key.policy].(lastTriggeredAtMs := Some(nowMs))]
      ensures log == old(log) + [Triggered(key, nowMs, cooldownSeconds)]
    {
      ghost var e := Triggered(key, nowMs, cooldownSeconds);
      forall k: Key {
        LastTriggerAppend(log, e, k);
      }
      if Valid() && !InCooldown(cooldowns, key, cooldownSeconds, nowMs) {
        WellSpacedAppend(log, e);
      }
      cooldowns := cooldowns[key := nowMs];
      if key.policy in policies {
        policies := policies[key.policy := policies[key.policy].(lastTriggeredAtMs := Some(nowMs))];
      }
      log := log + [e];
    }
  }

  /** Removing an entry of a list of distinct ones removes just it and keeps the others in order. */
  lemma RemoveAt(s: seq<Id>, at: nat)
    requires Distinct(s) && at < |s|
    ensures var r := s[..at] + s[at + 1..];
            && Distinct(r)
            && (forall x :: x in r <==> x in s && x != s[at])
            && KeepsOrder(s, r)
  {
    var r := s[..at] + s[at + 1..];
    forall i, j | 0 <= i < j < |r| ensures r[i] != r[j] && Precedes(s, r[i], r[j]) {
      var a, b := if i < at then i else i + 1, if j < at then j else j + 1;
      assert s[a] == r[i] && s[b] == r[j];
    }
    forall x | x in s && x != s[at] ensures x in r {
      var i :| 0 <= i < |s| && s[i] == x;
      assert r[if i < at then i else i - 1] == x;
    }
  }

  /** What is left is in the order it was in. */
  ghost predicate KeepsOrder(was: seq<Id>, now: seq<Id>) {
    forall i, j :: 0 <= i < j < |now| ==> Precedes(was, now[i], now[j])
  }

  ghost predicate Precedes(s: seq<Id>, p: Id, q: Id) {
    exists i, j :: 0 <= i < j < |s| && s[i] == p && s[j] == q
  }

  function EnabledPolicies(order: seq<Id>, policies: map<Id, Policy>): (r: seq<(Id, Policy)>)
    ensures forall i :: 0 <= i < |r| ==> r[i].0 in policies
  {
    if |order| == 0 then []
    else
      var id := order[|order| - 1];
      EnabledPolicies(order[..|order| - 1], policies)
      + if id in policies && policies[id].enabled then [(id, policies[id])] else []
  }

  // One evaluation.

  /** A reader of samples: source, field, node and window to a series. */
  type Reader = (Source, Id, Id, int) -> seq<PC.Sample>

  /** How the readers find a field by its name; a custom field is the name of a metric. */
  datatype Fields = Fields(gpu: Id -> string, training: Id -> MS.TrainingMetrics -> Option<real>,
                           diloco: Id -> MS.DiLoCoMetrics -> Option<real>)

  /** Where samples come from. */
  datatype Sources = Sources(telemetry: MS.Store, custom: CM.Store, fields: Fields) {
    ghost predicate Valid()
      reads telemetry, custom
    {
      telemetry.Valid() && custom.Valid()
    }

    /** What the readers return, in terms of everything ever ingested and of the custom buffers. */
    ghost function Reader(): Reader
      requires Valid()
      reads telemetry, custom
    {
      ReaderOver(fields, telemetry.history, custom.keys, custom.buffers)
    }

    method Read(source: Source, field: Id, node: Id, windowMinutes: int) returns (samples: seq<PC.Sample>)
      requires Valid()
      ensures samples == Reader()(source, field, node, windowMinutes)
    {
      match source {
        case Gpu => samples := PC.GpuReader(telemetry, node, fields.gpu(field), windowMinutes);
        case Training => samples := PC.TrainingReader(telemetry, node, fields.training(field), windowMinutes);
        case DiLoCo => samples := PC.DiLoCoReader(telemetry, node, fields.diloco(field), windowMinutes);
        case Custom => samples := custom.CustomReader(node, field, windowMinutes);
      }
    }
  }

  ghost function ReaderOver(fields: Fields, history: seq<MS.Batch>, keys: seq<CM.Key>,
                            buffers: map<CM.Key, seq<CM.CustomMetric>>): Reader
    requires forall i :: 0 <= i < |keys| ==> keys[i] in buffers
  {
    (source: Source, field: Id, node: Id, windowMinutes: int) =>
      var batches := MS.BatchesFor(history, node);
      match source
      case Gpu => Map(MS.Window(MS.GpuIn(batches), windowMinutes), PC.GpuReading(fields.gpu(field)))
      case Training => Map(MS.Window(MS.TrainingIn(batches), windowMinutes), PC.TrainingReading(fields.training(field)))
      case DiLoCo => Map(MS.Window(MS.DiLoCoIn(batches), windowMinutes), PC.DiLoCoReading(fields.diloco(field)))
      case Custom => CM.Reading(CM.Candidates(keys, buffers, CM.Query(Some(field), None, Some(node))), windowMinutes)
  }

  /** The reading of everything a node ever sent, without ring buffers or windows. */
  ghost function EverRead(fields: Fields, history: seq<MS.Batch>, source: Source, field: Id, node: Id): seq<PC.Sample>
    requires source != Custom
  {
    var batches := MS.BatchesFor(history, node);
    match source
    case Gpu => Map(MS.GpuIn(batches), PC.GpuReading(fields.gpu(field)))
    case Training => Map(MS.TrainingIn(batches), PC.TrainingReading(fields.training(field)))
    case DiLoCo => Map(MS.DiLoCoIn(batches), PC.DiLoCoReading(fields.diloco(field)))
  }

  function ScopeMatches(job: Option<Id>): PC.Sample -> bool {
    (s: PC.Sample) => job.Some? ==> s.job == job
  }

  /** The samples a policy judges on one node. */
  function Observed(p: Policy, node: Id, read: Reader): seq<PC.Sample> {
    var samples := read(p.source, p.field, node, PC.WindowMinutes(p.forSeconds));
    if p.scopeJob.Some? then Filter(samples, (s: PC.Sample) => s.job == p.scopeJob) else samples
  }

  predicate Violated(p: Policy, node: Id, read: Reader) {
    PC.Verdict(Observed(p, node, read), p.operator, p.threshold, p.forSeconds)
  }

  function KeyOf(policyId: Id, p: Policy, node: Id, read: Reader): Key
    requires |Observed(p, node, read)| > 0
  {
    Key(policyId, node, if p.scopeJob.Some? then p.scopeJob else PC.Last(Observed(p, node, read)).job)
  }

  /** The trigger that one policy raises on one node, given the cooldowns. */
  function Trigger(cooldowns: map<Key, int>, policyId: Id, p: Policy, node: Id, read: Reader, nowMs: int)
    : (r: Option<Entry>)
    ensures r.Some? ==>
      && r.value.Triggered? && r.value.key.policy == policyId && r.value.key.node == node && r.value.nowMs == nowMs
      && !InCooldown(cooldowns, r.value.key, r.value.cooldownSeconds, nowMs)
  {
    if Violated(p, node, read)
       && !InCooldown(cooldowns, KeyOf(policyId, p, node, read), p.cooldownSeconds, nowMs)
    then Some(Triggered(KeyOf(policyId, p, node, read), nowMs, p.cooldownSeconds))
    else None
  }

  function Marked(cooldowns: map<Key, int>, e: Option<Entry>): map<Key, int> {
    if e.Some? && e.value.Triggered? then cooldowns[e.value.key := e.value.nowMs] else cooldowns
  }

  datatype Outcome = Outcome(cooldowns: map<Key, int>, triggers: seq<Entry>)

  function Extend(o: Outcome, e: Option<Entry>): Outcome {
    Outcome(Marked(o.cooldowns, e), if e.Some? then o.triggers + [e.value] else o.triggers)
  }

  function EvaluateNodes(o: Outcome, policyId: Id, p: Policy, nodes: seq<Id>, read: Reader, nowMs: int): Outcome {
    if |nodes| == 0 then o
    else
      var before := EvaluateNodes(o, policyId, p, nodes[..|nodes| - 1], read, nowMs);
      Extend(before, Trigger(before.cooldowns, policyId, p, nodes[|nodes| - 1], read, nowMs))
  }

  lemma NoNodes(o: Outcome, policyId: Id, p: Policy, read: Reader, nowMs: int)
    ensures EvaluateNodes(o, policyId, p, [], read, nowMs) == o
  {
  }

  lemma NextNode(o: Outcome, policyId: Id, p: Policy, nodes: seq<Id>, i: nat, read: Reader, nowMs: int)
    requires i < |nodes|
    ensures var before := EvaluateNodes(o, policyId, p, nodes[..i], read, nowMs);
            EvaluateNodes(o, policyId, p, nodes[..i + 1], read, nowMs)
            == Extend(before, Trigger(before.cooldowns, policyId, p, nodes[i], read, nowMs))
  {
    assert nodes[..i + 1][..i] == nodes[..i];
  }

  function CandidateNodes(p: Policy, nodeIds: seq<Id>): seq<Id> {
    if p.scopeNode.Some? then [p.scopeNode.value] else nodeIds
  }

  function EvaluatePolicies(o: Outcome, enabled: seq<(Id, Policy)>, nodeIds: seq<Id>, read: Reader,
                            nowMs: int): Outcome
  {
    if |enabled| == 0 then o
    else
      var (id, p) := enabled[|enabled| - 1];
      EvaluateNodes(EvaluatePolicies(o, enabled[..|enabled| - 1], nodeIds, read, nowMs),
                    id, p, CandidateNodes(p, nodeIds), read, nowMs)
  }

  lemma NextPolicy(o: Outcome, enabled: seq<(Id, Policy)>, i: nat, nodeIds: seq<Id>, read: Reader, nowMs: int)
    requires i < |enabled|
    ensures EvaluatePolicies(o, enabled[..i + 1], nodeIds, read, nowMs)
            == EvaluateNodes(EvaluatePolicies(o, enabled[..i], nodeIds, read, nowMs), enabled[i].0, enabled[i].1,
                             CandidateNodes(enabled[i].1, nodeIds), read, nowMs)
  {
    assert enabled[..i + 1][..i] == enabled[..i];
  }

  /** Which of the two scans a policy asks for. */
  method Scan(samples: seq<PC.Sample>, p: Policy) returns (violated: bool)
    ensures violated == PC.Verdict(samples, p.operator, p.threshold, p.forSeconds)
  {
    hide PC.RunSpan, PC.HeldFor, PC.HoldsFrom, PC.Chronological;
    if p.operator == PC.StaleFor {
      var duration, latest;
      violated, duration, latest := PC.StaleSince(samples, p.forSeconds);
    } else {
      var r := PC.SustainedViolation(samples, p.operator, p.threshold, p.forSeconds);
      violated := r.violated;
    }
  }

  /** Judges one policy on one node: reads, scopes, scans, and looks at the cooldown. */
  method JudgeNode(cooldowns: map<Key, int>, policyId: Id, p: Policy, node: Id, from: Sources, nowMs: int)
    returns (trigger: Option<Entry>)
    requires from.Valid()
    ensures trigger == Trigger(cooldowns, policyId, p, node, from.Reader(), nowMs)
  {
    hide Sources.Reader, ReaderOver, PC.Verdict, PC.WindowMinutes;
    var samples := from.Read(p.source, p.field, node, PC.WindowMinutes(p.forSeconds));
    if |samples| == 0 {
      PC.NothingHeld(samples, p.operator, p.threshold, p.forSeconds);
      return None;
    }
    if p.scopeJob.Some? {
      FilterSame(samples, ScopeMatches(p.scopeJob), (s: PC.Sample) => s.job == p.scopeJob);
      samples := Filter(samples, ScopeMatches(p.scopeJob));
      if |samples| == 0 {
        PC.NothingHeld(samples, p.operator, p.threshold, p.forSeconds);
        return None;
      }
    }
    var violated := Scan(samples, p);
    if !violated {
      return None;
    }
    var sampleJob := samples[|samples| - 1].job;
    var key := Key(policyId, node, if p.scopeJob.Some? then p.scopeJob else sampleJob);
    if p.cooldownSeconds > 0.0 && key in cooldowns && nowMs - cooldowns[key] < Trunc(p.cooldownSeconds * 1000.0) {
      return None;
    }
    trigger := Some(Triggered(key, nowMs, p.cooldownSeconds));
  }

  /** The store is valid and holds the same policies as before, up to their last trigger. */
  twostate predicate StillValid(store: PolicyStore)
    reads store
  {
    store.Valid() && store.order == old(store.order) && store.policies.Keys == old(store.policies.Keys)
  }

  method EvaluateOne(store: PolicyStore, policyId: Id, p: Policy, nodeIds: seq<Id>, from: Sources, nowMs: int,
                     ghost before: Outcome)
    returns (findings: seq<Entry>)
    requires store.Valid() && from.Valid() && policyId in store.policies && store.cooldowns == before.cooldowns
    modifies store
    ensures StillValid(store)
    ensures Outcome(store.cooldowns, before.triggers + findings)
            == EvaluateNodes(before, policyId, p, CandidateNodes(p, nodeIds), from.Reader(), nowMs)
    ensures store.log == old(store.log) + findings
  {
    hide Trigger, LastTrigger, WellSpaced, InCooldown, CooldownMs, Sources.Reader, EvaluateNodes, MS.Store.Valid,
         CM.Store.Valid;
    NoNodes(before, policyId, p, from.Reader(), nowMs);
    findings := [];
    var nodes := if p.scopeNode.Some? then [p.scopeNode.value] else nodeIds;
    ghost var o, read := before, from.Reader();
    assert before.triggers + findings == before.triggers;
    for i := 0 to |nodes|
      invariant StillValid(store) && from.Valid() && from.Reader() == read
      invariant o == EvaluateNodes(before, policyId, p, nodes[..i], read, nowMs)
      invariant store.cooldowns == o.cooldowns && o.triggers == before.triggers + findings
      invariant store.log == old(store.log) + findings
    {
      NextNode(before, policyId, p, nodes, i, read, nowMs);
      var trigger := JudgeNode(store.cooldowns, policyId, p, nodes[i], from, nowMs);
      o := Extend(o, trigger);
      if trigger.None? {
        continue;
      }
      var e := trigger.value;
      store.MarkTriggered(e.key, nowMs, e.cooldownSeconds);
      findings := findings + [e];
    }
    assert nodes[..|nodes|] == nodes;
  }

  /**
   * One atomic evaluation: it reports exactly the violations whose keys are not in cooldown when it starts.
   * The store stays valid, so that spacing and key ownership hold over every interleaving of evaluations
   * with the other operations.
   */
  method RunPolicyEvaluation(store: PolicyStore, nodeIds: seq<Id>, from: Sources, nowMs: int)
    returns (findings: seq<Entry>)
    requires store.Valid() && from.Valid() && Distinct(nodeIds)
    modifies store
    ensures StillValid(store)
    ensures var enabled := EnabledPolicies(old(store.order), old(store.policies));
            && findings == Due(old(store.cooldowns), enabled, nodeIds, old(from.Reader()), nowMs)
            && store.cooldowns
               == EvaluatePolicies(Outcome(old(store.cooldowns), []), enabled, nodeIds, old(from.Reader()),
                 nowMs).cooldowns
    ensures store.log == old(store.log) + findings
    ensures forall id, node, e :: id in old(store.order) && About(e, id, node) ==>
              (e in findings <==> IsReported(old(store.policies)[id], old(store.cooldowns), nodeIds, old(from.Reader()),
                                             nowMs, node, e))
  {
    hide EvaluatePolicies, Due, LastTrigger, WellSpaced, Sources.Reader, EnabledPolicies, IsReported, InCooldown;
    ghost var order, policies, cooldowns, read := store.order, store.policies, store.cooldowns, from.Reader();
    forall id, node, e | id in order && About(e, id, node)
      ensures e in Due(cooldowns, EnabledPolicies(order, policies), nodeIds, read, nowMs)
              <==> IsReported(policies[id], cooldowns, nodeIds, read, nowMs, node, e)
    {
      ReportedIff(order, policies, cooldowns, nodeIds, read, nowMs, id, node, e);
    }
    var enabled := store.ListEnabled();
    EnabledDistinct(store.order, store.policies);
    ghost var start := Outcome(store.cooldowns, []);
    PoliciesReport(start, enabled, nodeIds, from.Reader(), nowMs);
    findings := EvaluateAll(store, enabled, nodeIds, from, nowMs);
    assert start.triggers + Due(start.cooldowns, enabled, nodeIds, old(from.Reader()), nowMs)
           == Due(start.cooldowns, enabled, nodeIds, old(from.Reader()), nowMs);
  }

  method EvaluateAll(store: PolicyStore, enabled: seq<(Id, Policy)>, nodeIds: seq<Id>, from: Sources, nowMs: int)
    returns (findings: seq<Entry>)
    requires store.Valid() && from.Valid() && forall i :: 0 <= i < |enabled| ==> enabled[i].0 in store.policies
    modifies store
    ensures StillValid(store)
    ensures Outcome(store.cooldowns, findings)
            == EvaluatePolicies(Outcome(old(store.cooldowns), []), enabled, nodeIds, old(from.Reader()), nowMs)
    ensures store.log == old(store.log) + findings
  {
    hide Trigger, EvaluateNodes, LastTrigger, WellSpaced, Sources.Reader;
    findings := [];
    ghost var start, read := Outcome(store.cooldowns, []), from.Reader();
    for i := 0 to |enabled|
      invariant StillValid(store) && store.log == old(store.log) + findings
      invariant from.Valid() && from.Reader() == read
      invariant Outcome(store.cooldowns, findings) == EvaluatePolicies(start, enabled[..i], nodeIds, read, nowMs)
    {
      NextPolicy(start, enabled, i, nodeIds, read, nowMs);
      ghost var before := Outcome(store.cooldowns, findings);
      var more := EvaluateOne(store, enabled[i].0, enabled[i].1, nodeIds, from, nowMs, before);
      findings := findings + more;
    }
    assert enabled[..|enabled|] == enabled;
  }

  // What an evaluation reports.

  /** The violations of one policy that are not in cooldown, node by node; no trigger influences another. */
  function DueOn(cooldowns: map<Key, int>, policyId: Id, p: Policy, nodes: seq<Id>, read: Reader, nowMs: int)
    : seq<Entry>
  {
    if |nodes| == 0 then []
    else
      var rest := DueOn(cooldowns, policyId, p, nodes[..|nodes| - 1], read, nowMs);
      var e := Trigger(cooldowns, policyId, p, nodes[|nodes| - 1], read, nowMs);
      if e.Some? then rest + [e.value] else rest
  }

  function Due(cooldowns: map<Key, int>, enabled: seq<(Id, Policy)>, nodeIds: seq<Id>, read: Reader, nowMs: int)
    : seq<Entry>
  {
    if |enabled| == 0 then []
    else
      var (id, p) := enabled[|enabled| - 1];
      Due(cooldowns, enabled[..|enabled| - 1], nodeIds, read, nowMs)
      + DueOn(cooldowns, id, p, CandidateNodes(p, nodeIds), read, nowMs)
  }

  ghost predicate SameAt(a: map<Key, int>, b: map<Key, int>, k: Key) {
    (k in a <==> k in b) && (k in a ==> a[k] == b[k])
  }

  lemma TriggerLooksAtItsKey(a: map<Key, int>, b: map<Key, int>, policyId: Id, p: Policy, node: Id, read: Reader,
          nowMs: int)
    requires forall k: Key :: k.policy == policyId && k.node == node ==> SameAt(a, b, k)
    ensures Trigger(a, policyId, p, node, read, nowMs) == Trigger(b, policyId, p, node, read, nowMs)
  {
    if Violated(p, node, read) {
      assert SameAt(a, b, KeyOf(policyId, p, node, read));
    }
  }

  /** Over distinct nodes the sequential evaluation reports what is due at its start, and touches no other keys. */
  lemma {:induction false} NodesReport(o: Outcome, policyId: Id, p: Policy, nodes: seq<Id>, read: Reader, nowMs: int)
    requires Distinct(nodes)
    ensures var out := EvaluateNodes(o, policyId, p, nodes, read, nowMs);
            && out.triggers == o.triggers + DueOn(o.cooldowns, policyId, p, nodes, read, nowMs)
            && forall k: Key :: k.policy != policyId || k.node !in nodes ==> SameAt(out.cooldowns, o.cooldowns, k)
  {
    hide Trigger;
    if |nodes| > 0 {
      var rest, node := nodes[..|nodes| - 1], nodes[|nodes| - 1];
      NodesReport(o, policyId, p, rest, read, nowMs);
      var before := EvaluateNodes(o, policyId, p, rest, read, nowMs);
      assert node !in rest;
      TriggerLooksAtItsKey(before.cooldowns, o.cooldowns, policyId, p, node, read, nowMs);
      assert nodes == rest + [node];
    }
  }

  lemma {:induction false} DueOnLooksAtItsPolicy(a: map<Key, int>, b: map<Key, int>, policyId: Id, p: Policy,
                                                 nodes: seq<Id>, read: Reader, nowMs: int)
    requires forall k: Key :: k.policy == policyId ==> SameAt(a, b, k)
    ensures DueOn(a, policyId, p, nodes, read, nowMs) == DueOn(b, policyId, p, nodes, read, nowMs)
  {
    hide Trigger;
    if |nodes| > 0 {
      DueOnLooksAtItsPolicy(a, b, policyId, p, nodes[..|nodes| - 1], read, nowMs);
      TriggerLooksAtItsKey(a, b, policyId, p, nodes[|nodes| - 1], read, nowMs);
    }
  }

  ghost predicate DistinctIds(enabled: seq<(Id, Policy)>) {
    forall i, j :: 0 <= i < j < |enabled| ==> enabled[i].0 != enabled[j].0
  }

  ghost predicate Mentions(enabled: seq<(Id, Policy)>, policyId: Id) {
    exists i :: 0 <= i < |enabled| && enabled[i].0 == policyId
  }

  lemma LastIsNew(enabled: seq<(Id, Policy)>)
    requires DistinctIds(enabled) && |enabled| > 0
    ensures var rest := enabled[..|enabled| - 1];
            DistinctIds(rest) && !Mentions(rest, enabled[|enabled| - 1].0)
  {
  }

  lemma MentionsMore(enabled: seq<(Id, Policy)>, policyId: Id)
    requires |enabled| > 0 && !Mentions(enabled, policyId)
    ensures !Mentions(enabled[..|enabled| - 1], policyId) && enabled[|enabled| - 1].0 != policyId
  {
    var rest := enabled[..|enabled| - 1];
    assert forall i :: 0 <= i < |rest| ==> rest[i] == enabled[i];
  }

  lemma Regroup<T>(a: seq<T>, b: seq<T>, c: seq<T>)
    ensures (a + b) + c == a + (b + c)
  {
  }

  /** The same over all enabled policies: the cooldowns set on the way never suppress anything in the same run. */
  lemma {:induction false} PoliciesReport(o: Outcome, enabled: seq<(Id, Policy)>, nodeIds: seq<Id>, read: Reader,
                                          nowMs: int)
    requires Distinct(nodeIds) && DistinctIds(enabled)
    ensures var out := EvaluatePolicies(o, enabled, nodeIds, read, nowMs);
            && out.triggers == o.triggers + Due(o.cooldowns, enabled, nodeIds, read, nowMs)
            && forall k: Key :: !Mentions(enabled, k.policy) ==> SameAt(out.cooldowns, o.cooldowns, k)
  {
    hide EvaluateNodes, DueOn, Distinct, DistinctIds, SameAt, Mentions;
    if |enabled| == 0 {
      assert Due(o.cooldowns, enabled, nodeIds, read, nowMs) == [];
      forall k: Key ensures SameAt(o.cooldowns, o.cooldowns, k) {
        SameAtItself(o.cooldowns, k);
      }
    } else {
      var rest := enabled[..|enabled| - 1];
      var (id, p) := enabled[|enabled| - 1];
      LastIsNew(enabled);
      PoliciesReport(o, rest, nodeIds, read, nowMs);
      var before := EvaluatePolicies(o, rest, nodeIds, read, nowMs);
      var nodes := CandidateNodes(p, nodeIds);
      OneOrAll(p, nodeIds);
      NodesReport(before, id, p, nodes, read, nowMs);
      DueOnLooksAtItsPolicy(before.cooldowns, o.cooldowns, id, p, nodes, read, nowMs);
      Regroup(o.triggers, Due(o.cooldowns, rest, nodeIds, read, nowMs), DueOn(o.cooldowns, id, p, nodes, read, nowMs));
      var out := EvaluatePolicies(o, enabled, nodeIds, read, nowMs);
      forall k: Key | !Mentions(enabled, k.policy) ensures SameAt(out.cooldowns, o.cooldowns, k) {
        MentionsMore(enabled, k.policy);
        SameAtChain(out.cooldowns, before.cooldowns, o.cooldowns, k);
      }
    }
  }

  lemma OneOrAll(p: Policy, nodeIds: seq<Id>)
    requires Distinct(nodeIds)
    ensures Distinct(CandidateNodes(p, nodeIds))
  {
  }

  lemma SameAtItself(a: map<Key, int>, k: Key)
    ensures SameAt(a, a, k)
  {
  }

  lemma SameAtChain(a: map<Key, int>, b: map<Key, int>, c: map<Key, int>, k: Key)
    requires SameAt(a, b, k) && SameAt(b, c, k)
    ensures SameAt(a, c, k)
  {
  }

  /** The policy and node an entry is about. */
  ghost predicate About(e: Entry, policyId: Id, node: Id) {
    e.Triggered? && e.key.policy == policyId && e.key.node == node
  }

  lemma {:induction false} DueOnIff(cooldowns: map<Key, int>, policyId: Id, p: Policy, nodes: seq<Id>, read: Reader,
                                    nowMs: int, e: Entry)
    ensures e in DueOn(cooldowns, policyId, p, nodes, read, nowMs)
            <==> exists n :: n in nodes && Trigger(cooldowns, policyId, p, n, read, nowMs) == Some(e)
  {
    hide Trigger;
    if |nodes| > 0 {
      var rest, node := nodes[..|nodes| - 1], nodes[|nodes| - 1];
      DueOnIff(cooldowns, policyId, p, rest, read, nowMs, e);
      assert nodes == rest + [node];
    }
  }

  lemma {:induction false} DueIff(cooldowns: map<Key, int>, enabled: seq<(Id, Policy)>, nodeIds: seq<Id>, read: Reader,
                                  nowMs: int, e: Entry)
    ensures e in Due(cooldowns, enabled, nodeIds, read, nowMs)
            <==> exists i, n :: 0 <= i < |enabled| && n in CandidateNodes(enabled[i].1, nodeIds)
                                && Trigger(cooldowns, enabled[i].0, enabled[i].1, n, read, nowMs) == Some(e)
  {
    hide Trigger, DueOn;
    if |enabled| > 0 {
      var rest := enabled[..|enabled| - 1];
      var (id, p) := enabled[|enabled| - 1];
      DueIff(cooldowns, rest, nodeIds, read, nowMs, e);
      DueOnIff(cooldowns, id, p, CandidateNodes(p, nodeIds), read, nowMs, e);
      assert enabled == rest + [(id, p)];
    }
  }

  lemma {:induction false} EnabledAre(order: seq<Id>, policies: map<Id, Policy>, id: Id, p: Policy)
    ensures (id, p) in EnabledPolicies(order, policies)
            <==> id in order && id in policies && policies[id] == p && p.enabled
  {
    if |order| > 0 {
      EnabledAre(order[..|order| - 1], policies, id, p);
      assert order == order[..|order| - 1] + [order[|order| - 1]];
    }
  }

  lemma {:induction false} EnabledDistinct(order: seq<Id>, policies: map<Id, Policy>)
    requires Distinct(order)
    ensures DistinctIds(EnabledPolicies(order, policies))
  {
    if |order| > 0 {
      var rest := order[..|order| - 1];
      EnabledDistinct(rest, policies);
      forall i | 0 <= i < |EnabledPolicies(rest, policies)|
        ensures EnabledPolicies(rest, policies)[i].0 != order[|order| - 1]
      {
        var (id, p) := EnabledPolicies(rest, policies)[i];
        EnabledAre(rest, policies, id, p);
      }
    }
  }

  /** Whatever is reported about a policy and a node is that alert. */
  lemma ReportedIsAlert(order: seq<Id>, policies: map<Id, Policy>, cooldowns: map<Key, int>, nodeIds: seq<Id>,
                        read: Reader, nowMs: int, policyId: Id, node: Id, e: Entry)
    requires policyId in policies && About(e, policyId, node)
    requires e in Due(cooldowns, EnabledPolicies(order, policies), nodeIds, read, nowMs)
    ensures var p := policies[policyId];
            && p.enabled && node in CandidateNodes(p, nodeIds)
            && Trigger(cooldowns, policyId, p, node, read, nowMs) == Some(e)
  {
    hide Due, Trigger, CandidateNodes;
    var enabled := EnabledPolicies(order, policies);
    DueIff(cooldowns, enabled, nodeIds, read, nowMs, e);
    var i, n :| 0 <= i < |enabled| && n in CandidateNodes(enabled[i].1, nodeIds)
                && Trigger(cooldowns, enabled[i].0, enabled[i].1, n, read, nowMs) == Some(e);
    EnabledAre(order, policies, enabled[i].0, enabled[i].1);
  }

  /** A cooldown in whole milliseconds is over iff less than one of them is missing. */
  lemma CooldownOver(cooldowns: map<Key, int>, key: Key, cooldownSeconds: real, nowMs: int)
    ensures !InCooldown(cooldowns, key, cooldownSeconds, nowMs)
            <==> || cooldownSeconds <= 0.0 || key !in cooldowns
                 || (nowMs - cooldowns[key]) as real > cooldownSeconds * 1000.0 - 1.0
  {
  }

  /**
   * What an evaluation reports, in the caller's terms: the alert of a policy on a node is reported iff the policy
   * is enabled, the node is the policy's or one of the known ones, the samples of the policy's job (or all) violate
   * the condition, and the key's last trigger is no less than the cooldown old when the evaluation starts; and
   * nothing else is reported about them.
   */
  ghost predicate IsReported(p: Policy, cooldowns: map<Key, int>, nodeIds: seq<Id>, read: Reader, nowMs: int, node: Id,
                             e: Entry)
    requires e.Triggered?
  {
    var samples := Observed(p, node, read);
    && p.enabled && (if p.scopeNode.Some? then node == p.scopeNode.value else node in nodeIds)
    && PC.Verdict(samples, p.operator, p.threshold, p.forSeconds)
    && e.nowMs == nowMs && e.cooldownSeconds == p.cooldownSeconds
    && e.key.job == (if p.scopeJob.Some? then p.scopeJob else samples[|samples| - 1].job)
    && (|| p.cooldownSeconds <= 0.0 || e.key !in cooldowns
        || (nowMs - cooldowns[e.key]) as real > p.cooldownSeconds * 1000.0 - 1.0)
  }

  lemma TriggerIff(cooldowns: map<Key, int>, policyId: Id, p: Policy, nodeIds: seq<Id>, node: Id, read: Reader,
                   nowMs: int, e: Entry)
    requires About(e, policyId, node)
    ensures IsReported(p, cooldowns, nodeIds, read, nowMs, node, e)
            <==> && p.enabled && node in CandidateNodes(p, nodeIds)
                 && Trigger(cooldowns, policyId, p, node, read, nowMs) == Some(e)
  {
    hide PC.Verdict, InCooldown, Observed;
    CooldownOver(cooldowns, e.key, p.cooldownSeconds, nowMs);
    if PC.Verdict(Observed(p, node, read), p.operator, p.threshold, p.forSeconds) {
      VerdictHasSamples(p, node, read);
    }
  }

  lemma VerdictHasSamples(p: Policy, node: Id, read: Reader)
    requires Violated(p, node, read)
    ensures |Observed(p, node, read)| > 0
  {
  }

  lemma ReportedIff(order: seq<Id>, policies: map<Id, Policy>, cooldowns: map<Key, int>, nodeIds: seq<Id>, read: Reader,
                    nowMs: int, policyId: Id, node: Id, e: Entry)
    requires policyId in order && policyId in policies && About(e, policyId, node)
    ensures e in Due(cooldowns, EnabledPolicies(order, policies), nodeIds, read, nowMs)
            <==> IsReported(policies[policyId], cooldowns, nodeIds, read, nowMs, node, e)
  {
    var enabled, p := EnabledPolicies(order, policies), policies[policyId];
    hide Due, Trigger, IsReported, CandidateNodes;
    TriggerIff(cooldowns, policyId, p, nodeIds, node, read, nowMs, e);
    if e in Due(cooldowns, enabled, nodeIds, read, nowMs) {
      ReportedIsAlert(order, policies, cooldowns, nodeIds, read, nowMs, policyId, node, e);
    } else if p.enabled && node in CandidateNodes(p, nodeIds) {
      EnabledAre(order, policies, policyId, p);
      var i :| 0 <= i < |enabled| && enabled[i] == (policyId, p);
      DueIff(cooldowns, enabled, nodeIds, read, nowMs, e);
      assert Trigger(cooldowns, policyId, p, node, read, nowMs) != Some(e);
    }
  }

  /** What a violation is, operator by operator: the condition held over a suffix of the samples in scope. */
  lemma ViolatedIff(p: Policy, node: Id, read: Reader)
    requires p.forSeconds >= 0.0
    ensures var all := read(p.source, p.field, node, PC.WindowMinutes(p.forSeconds));
            var inScope := if p.scopeJob.None? then all else Filter(all, (s: PC.Sample) => s.job == p.scopeJob);
            PC.Chronological(inScope) ==>
              (Violated(p, node, read) <==> PC.HeldFor(inScope, p.operator, p.threshold, p.forSeconds))
  {
    var samples := Observed(p, node, read);
    if PC.Chronological(samples) {
      PC.VerdictIff(samples, p.operator, p.threshold, p.forSeconds);
    }
    assert p.scopeJob.Some? ==>
        samples == Filter(read(p.source, p.field, node, PC.WindowMinutes(p.forSeconds)),
                          (s: PC.Sample) => s.job == p.scopeJob);
  }

  /**
   * End to end, from the stores: an unscoped policy of up to 1799 seconds on telemetry spaced by a second is
   * violated on a node iff everything the node ever sent says so.
   */
  lemma ViolationIsTheHistorys(from: Sources, p: Policy, node: Id)
    requires from.Valid() && p.source != Custom
    requires p.scopeJob.None? && 0.0 <= p.forSeconds <= 1799.0
    requires PC.SpacedBySecond(EverRead(from.fields, from.telemetry.history, p.source, p.field, node))
    ensures Violated(p, node, from.Reader())
            == PC.Verdict(EverRead(from.fields, from.telemetry.history, p.source, p.field, node),
                          p.operator, p.threshold, p.forSeconds)
    ensures Violated(p, node, from.Reader())
            == PC.HeldFor(EverRead(from.fields, from.telemetry.history, p.source, p.field, node),
                          p.operator, p.threshold, p.forSeconds)
  {
    hide PC.Verdict, PC.SpacedBySecond, PC.HeldFor;
    PC.SpacedIsChronological(EverRead(from.fields, from.telemetry.history, p.source, p.field, node));
    PC.VerdictIff(EverRead(from.fields, from.telemetry.history, p.source, p.field, node), p.operator, p.threshold,
                  p.forSeconds);
    var batches := MS.BatchesFor(from.telemetry.history, node);
    match p.source {
      case Gpu =>
        PC.WindowedReading(MS.GpuIn(batches), PC.GpuReading(from.fields.gpu(p.field)), p.operator, p.threshold,
          p.forSeconds);
      case Training =>
        PC.WindowedReading(MS.TrainingIn(batches), PC.TrainingReading(from.fields.training(p.field)),
                           p.operator, p.threshold, p.forSeconds);
      case DiLoCo =>
        PC.WindowedReading(MS.DiLoCoIn(batches), PC.DiLoCoReading(from.fields.diloco(p.field)),
                           p.operator, p.threshold, p.forSeconds);
    }
  }
}
