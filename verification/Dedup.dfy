/**
 * Alert deduplication, as the z-score, stall, plateau and throughput detectors do it: a key that alerted
 * less than `cooldown` seconds ago is suppressed, and entries older than two cooldowns are evicted at the
 * end of every detector run. The theorems are about whole runs of such a map.
 */
module Dedup {
  import opened Prelude

  datatype Event<K> = Check(key: K, now: real) | Sweep(now: real)

  datatype Alert<K> = Alert(key: K, now: real)

  datatype State<K> = State(last: map<K, real>, alerts: seq<Alert<K>>)

  predicate Fires<K(==)>(last: map<K, real>, cooldown: real, key: K, now: real) {
    key !in last || now - last[key] >= cooldown
  }

  function Swept<K(==)>(last: map<K, real>, cooldown: real, now: real): map<K, real> {
    map k | k in last && !(last[k] < now - cooldown * 2.0) :: last[k]
  }

  function Step<K(==)>(st: State<K>, cooldown: real, e: Event<K>, evict: bool): State<K> {
    match e
    case Check(key, now) =>
      if Fires(st.last, cooldown, key, now) then State(st.last[key := now], st.alerts + [Alert(key, now)]) else st
    case Sweep(now) =>
      if evict then st.(last := Swept(st.last, cooldown, now)) else st
  }

  /** The state after a list of events, with the evictions performed or ignored. */
  function Run<K(==)>(cooldown: real, events: seq<Event<K>>, evict: bool): State<K> {
    if |events| == 0 then State(map[], [])
    else Step(Run(cooldown, events[..|events| - 1], evict), cooldown, events[|events| - 1], evict)
  }

  lemma RunAppend<K>(cooldown: real, events: seq<Event<K>>, e: Event<K>, evict: bool)
    ensures Run(cooldown, events + [e], evict) == Step(Run(cooldown, events, evict), cooldown, e, evict)
  {
  }

  /** No check reads the clock more than `back` seconds before an earlier sweep; checks alone may come in any order. */
  ghost predicate GoesBackAtMost<K>(events: seq<Event<K>>, back: real) {
    forall i, j :: 0 <= i < j < |events| && events[i].Sweep? && events[j].Check? ==>
      events[i].now - events[j].now <= back
  }

  lemma PrefixGoesBack<K>(events: seq<Event<K>>, n: nat, back: real)
    requires GoesBackAtMost(events, back) && n <= |events|
    ensures GoesBackAtMost(events[..n], back)
  {
  }

  /** Some sweep has found an alert at time `t` older than two cooldowns. */
  ghost predicate SweptAway<K>(events: seq<Event<K>>, cooldown: real, t: real) {
    exists i :: 0 <= i < |events| && events[i].Sweep? && t < events[i].now - cooldown * 2.0
  }

  lemma SweptAwayBefore<K>(events: seq<Event<K>>, e: Event<K>, cooldown: real, t: real)
    requires SweptAway(events, cooldown, t)
    ensures SweptAway(events + [e], cooldown, t)
  {
    var i :| 0 <= i < |events| && events[i].Sweep? && t < events[i].now - cooldown * 2.0;
    assert (events + [e])[i] == events[i];
  }

  /** The evicting map is the full one without some of the entries that a sweep has found old. */
  ghost predicate EvictedAreOld<K(!new)>(events: seq<Event<K>>, evicting: map<K, real>, full: map<K, real>,
                                         cooldown: real) {
    && (forall k :: k in evicting ==> k in full && evicting[k] == full[k])
    && (forall k :: k in full && k !in evicting ==> SweptAway(events, cooldown, full[k]))
  }

  /** An entry that a sweep found old no longer suppresses anything, unless the clock went back too far since. */
  lemma SweptAwayFires<K>(events: seq<Event<K>>, cooldown: real, full: map<K, real>, key: K, now: real)
    requires GoesBackAtMost(events + [Check(key, now)], cooldown)
    requires key in full && SweptAway(events, cooldown, full[key])
    ensures Fires(full, cooldown, key, now)
  {
    var all := events + [Check(key, now)];
    var i :| 0 <= i < |events| && events[i].Sweep? && full[key] < events[i].now - cooldown * 2.0;
    assert all[i] == events[i] && all[|events|] == Check(key, now);
  }

  lemma {:induction false} EvictionInvariant<K(!new)>(cooldown: real, events: seq<Event<K>>)
    requires GoesBackAtMost(events, cooldown)
    ensures Run(cooldown, events, true).alerts == Run(cooldown, events, false).alerts
    ensures EvictedAreOld(events, Run(cooldown, events, true).last, Run(cooldown, events, false).last, cooldown)
  {
    if |events| > 0 {
      var before, e := events[..|events| - 1], events[|events| - 1];
      assert events == before + [e];
      PrefixGoesBack(events, |events| - 1, cooldown);
      EvictionInvariant(cooldown, before);
      EvictionStep(cooldown, before, e, Run(cooldown, before, true), Run(cooldown, before, false));
    }
  }

  lemma EvictionStep<K(!new)>(cooldown: real, before: seq<Event<K>>, e: Event<K>, st: State<K>, full: State<K>)
    requires GoesBackAtMost(before + [e], cooldown)
    requires st.alerts == full.alerts && EvictedAreOld(before, st.last, full.last, cooldown)
    ensures var st', full' := Step(st, cooldown, e, true), Step(full, cooldown, e, false);
            st'.alerts == full'.alerts && EvictedAreOld(before + [e], st'.last, full'.last, cooldown)
  {
    hide GoesBackAtMost, SweptAway;
    forall k | k in full.last && k !in st.last ensures SweptAway(before + [e], cooldown, full.last[k]) {
      SweptAwayBefore(before, e, cooldown, full.last[k]);
    }
    match e {
      case Check(key, now) =>
        if key in full.last && key !in st.last {
          SweptAwayFires(before, cooldown, full.last, key, now);
        }
      case Sweep(now) =>
        forall k | k in st.last && st.last[k] < now - cooldown * 2.0
          ensures SweptAway(before + [e], cooldown, full.last[k])
        {
          SweptNow(before, now, cooldown, full.last[k]);
        }
    }
  }

  lemma SweptNow<K>(before: seq<Event<K>>, now: real, cooldown: real, t: real)
    requires t < now - cooldown * 2.0
    ensures SweptAway(before + [Sweep(now)], cooldown, t)
  {
    assert (before + [Sweep(now)])[|before|] == Sweep(now);
  }

  /**
   * Eviction is invisible: as long as no check reads the clock more than one cooldown before an earlier sweep,
   * the map that evicts and one that never does raise the same alerts.
   */
  lemma EvictionIsInvisible<K(!new)>(cooldown: real, events: seq<Event<K>>)
    requires GoesBackAtMost(events, cooldown)
    ensures Run(cooldown, events, true).alerts == Run(cooldown, events, false).alerts
  {
    EvictionInvariant(cooldown, events);
  }

  /** Without eviction the map remembers the newest alert of every key, whatever the clock does. */
  lemma {:induction false} LastIsNewest<K(!new)>(cooldown: real, events: seq<Event<K>>, i: nat)
    requires cooldown >= 0.0
    requires i < |Run(cooldown, events, false).alerts|
    ensures var st := Run(cooldown, events, false);
            st.alerts[i].key in st.last && st.alerts[i].now <= st.last[st.alerts[i].key]
  {
    var before := events[..|events| - 1];
    if i < |Run(cooldown, before, false).alerts| {
      LastIsNewest(cooldown, before, i);
    }
  }

  lemma {:induction false} LastIsAnAlert<K(!new)>(cooldown: real, events: seq<Event<K>>, key: K)
    ensures var st := Run(cooldown, events, false);
            key in st.last ==> Alert(key, st.last[key]) in st.alerts
  {
    if |events| > 0 {
      LastIsAnAlert(cooldown, events[..|events| - 1], key);
    }
  }

  /**
   * A check raises an alert iff no alert of the same key is less than a cooldown old. This is the meaning
   * of deduplication, and the evicting map has it under the same condition on the clock.
   */
  lemma FiresIffQuiet<K(!new)>(cooldown: real, events: seq<Event<K>>, key: K, now: real)
    requires cooldown >= 0.0 && GoesBackAtMost(events + [Check(key, now)], cooldown)
    ensures var st := Run(cooldown, events, true);
            Fires(st.last, cooldown, key, now)
            <==> forall i :: 0 <= i < |st.alerts| && st.alerts[i].key == key ==> now - st.alerts[i].now >= cooldown
  {
    var all := events + [Check(key, now)];
    assert all[..|events|] == events;
    PrefixGoesBack(all, |events|, cooldown);
    EvictionInvariant(cooldown, events);
    var st, full := Run(cooldown, events, true), Run(cooldown, events, false);
    assert Fires(st.last, cooldown, key, now) <==> Fires(full.last, cooldown, key, now) by {
      if key in full.last && key !in st.last {
        SweptAwayFires(events, cooldown, full.last, key, now);
      }
    }
    forall i | 0 <= i < |st.alerts| && st.alerts[i].key == key
      ensures key in full.last && st.alerts[i].now <= full.last[key]
    {
      LastIsNewest(cooldown, events, i);
    }
    LastIsAnAlert(cooldown, events, key);
  }

  /** Alerts of one key are at least one cooldown apart. */
  ghost predicate WellSpaced<K(!new)>(alerts: seq<Alert<K>>, cooldown: real) {
    forall i, j :: 0 <= i < j < |alerts| && alerts[i].key == alerts[j].key ==>
      alerts[j].now - alerts[i].now >= cooldown
  }

  /** Over every run in which no check reads the clock more than one cooldown before an earlier sweep. */
  lemma {:induction false} AlertsAreSpaced<K(!new)>(cooldown: real, events: seq<Event<K>>)
    requires cooldown >= 0.0 && GoesBackAtMost(events, cooldown)
    ensures WellSpaced(Run(cooldown, events, true).alerts, cooldown)
  {
    if |events| > 0 {
      var before, e := events[..|events| - 1], events[|events| - 1];
      assert events == before + [e];
      PrefixGoesBack(events, |events| - 1, cooldown);
      AlertsAreSpaced(cooldown, before);
      if e.Check? {
        FiresIffQuiet(cooldown, before, e.key, e.now);
      }
    }
  }

  /**
   * Two alerts less than a cooldown apart: the clock of a check lies `back` seconds before that of a sweep
   * that has already forgotten the alert before.
   */
  function TooFarBack<K>(cooldown: real, back: real, key: K): seq<Event<K>> {
    var d := (back - cooldown) / 2.0;
    [Check(key, 0.0), Sweep(2.0 * cooldown + d), Check(key, cooldown - d)]
  }

  lemma ClockGoingBack<K(!new)>(cooldown: real, back: real, key: K)
    requires back > cooldown >= 0.0
    ensures var events := TooFarBack(cooldown, back, key);
            && GoesBackAtMost(events, back)
            && Run(cooldown, events, true).alerts == [Alert(key, 0.0), Alert(key, cooldown - (back - cooldown) / 2.0)]
            && Run(cooldown, events, false).alerts == [Alert(key, 0.0)]
            && !WellSpaced(Run(cooldown, events, true).alerts, cooldown)
  {
    var d := (back - cooldown) / 2.0;
    var e1, e2, e3 := Check(key, 0.0), Sweep(2.0 * cooldown + d), Check(key, cooldown - d);
    assert [] + [e1] == [e1] && [e1] + [e2] == [e1, e2] && [e1, e2] + [e3] == [e1, e2, e3];
    RunAppend(cooldown, [], e1, true);
    RunAppend(cooldown, [e1], e2, true);
    RunAppend(cooldown, [e1, e2], e3, true);
    RunAppend(cooldown, [], e1, false);
    RunAppend(cooldown, [e1], e2, false);
    RunAppend(cooldown, [e1, e2], e3, false);
    assert Run(cooldown, [e1, e2], true).last == map[];
    var alerts := Run(cooldown, [e1, e2, e3], true).alerts;
    assert alerts[1].now - alerts[0].now == cooldown - d;
  }

  /**
   * One cooldown is exactly how far the clock may go back between a sweep and a later check: up to there
   * eviction never changes an alert and alerts of a key are spaced, and beyond it there are runs in which both fail.
   */
  lemma ClockLimit<K(!new)>(cooldown: real, back: real, key: K)
    requires cooldown >= 0.0
    ensures back <= cooldown
            <==> forall events: seq<Event<K>> | GoesBackAtMost(events, back) ::
                   Run(cooldown, events, true).alerts == Run(cooldown, events, false).alerts
    ensures back <= cooldown
            <==> forall events: seq<Event<K>> | GoesBackAtMost(events, back) ::
                   WellSpaced(Run(cooldown, events, true).alerts, cooldown)
  {
    hide Run, WellSpaced, GoesBackAtMost;
    if back <= cooldown {
      forall events: seq<Event<K>> | GoesBackAtMost(events, back)
        ensures Run(cooldown, events, true).alerts == Run(cooldown, events, false).alerts
        ensures WellSpaced(Run(cooldown, events, true).alerts, cooldown)
      {
        GoesBackLess(events, back, cooldown);
        EvictionIsInvisible(cooldown, events);
        AlertsAreSpaced(cooldown, events);
      }
    } else {
      ClockGoingBack(cooldown, back, key);
      var events := TooFarBack(cooldown, back, key);
      assert GoesBackAtMost(events, back);
      assert Run(cooldown, events, true).alerts != Run(cooldown, events, false).alerts;
    }
  }

  lemma GoesBackLess<K>(events: seq<Event<K>>, back: real, limit: real)
    requires GoesBackAtMost(events, back) && back <= limit
    ensures GoesBackAtMost(events, limit)
  {
  }

  // One detector run offers a list of candidate findings, each checked at its own clock reading.

  datatype Candidate<K, F> = Candidate(key: K, now: real, finding: F)

  function After<K(==), F>(last: map<K, real>, cooldown: real, offered: seq<Candidate<K, F>>): map<K, real> {
    if |offered| == 0 then last
    else
      var before := After(last, cooldown, offered[..|offered| - 1]);
      var c := offered[|offered| - 1];
      if Fires(before, cooldown, c.key, c.now) then before[c.key := c.now] else before
  }

  /** The offered candidates that are not suppressed. */
  function Accepted<K(==), F>(last: map<K, real>, cooldown: real, offered: seq<Candidate<K, F>>): seq<Candidate<K, F>> {
    if |offered| == 0 then []
    else
      var c := offered[|offered| - 1];
      Accepted(last, cooldown, offered[..|offered| - 1])
      + if Fires(After(last, cooldown, offered[..|offered| - 1]), cooldown, c.key, c.now) then [c] else []
  }

  function Checks<K, F>(offered: seq<Candidate<K, F>>): (r: seq<Event<K>>)
    ensures |r| == |offered|
  {
    seq(|offered|, i requires 0 <= i < |offered| => Check(offered[i].key, offered[i].now))
  }

  function AlertsOf<K, F>(accepted: seq<Candidate<K, F>>): (r: seq<Alert<K>>)
    ensures |r| == |accepted|
  {
    seq(|accepted|, i requires 0 <= i < |accepted| => Alert(accepted[i].key, accepted[i].now))
  }

  lemma AlertsOfOne<K, F>(accepted: seq<Candidate<K, F>>, c: Candidate<K, F>)
    ensures AlertsOf(accepted + [c]) == AlertsOf(accepted) + [Alert(c.key, c.now)]
  {
  }

  /** What a detector run adds to the alerts of the whole run is what it accepted. */
  lemma {:induction false} AcceptedAreTheAlerts<K, F>(cooldown: real, events: seq<Event<K>>,
                                                      offered: seq<Candidate<K, F>>)
    ensures var st := Run(cooldown, events, true);
            Run(cooldown, events + Checks(offered), true)
            == State(After(st.last, cooldown, offered), st.alerts + AlertsOf(Accepted(st.last, cooldown, offered)))
  {
    hide Run, After, Accepted, Checks, Fires;
    if |offered| == 0 {
      OfferNone(Run(cooldown, events, true).last, cooldown, offered);
      assert events + Checks(offered) == events;
    } else {
      var rest, c := offered[..|offered| - 1], offered[|offered| - 1];
      AcceptedAreTheAlerts(cooldown, events, rest);
      assert offered[..|rest| + 1] == offered;
      OfferOne(Run(cooldown, events, true).last, cooldown, offered, |rest|);
      AppendLast(events, Checks(rest), Check(c.key, c.now));
      RunAppend(cooldown, events + Checks(rest), Check(c.key, c.now), true);
      AlertsOfOne(Accepted(Run(cooldown, events, true).last, cooldown, rest), c);
    }
  }

  /** The `_last_alerted` dictionary of one detector. */
  class Deduper<K(==, !new)> {
    const cooldown: real
    var last: map<K, real>
    /** Every check and sweep so far, and the alerts let through. */
    ghost var events: seq<Event<K>>
    ghost var alerts: seq<Alert<K>>

    ghost predicate Valid()
      reads this
    {
      State(last, alerts) == Run(cooldown, events, true)
    }

    constructor (cooldown: real)
      ensures Valid() && events == [] && this.cooldown == cooldown
    {
      this.cooldown := cooldown;
      last, events, alerts := map[], [], [];
    }

    /** In every reachable state: the alerts let through so far are spaced, if the clock has not gone back too far. */
    lemma AlertsSoFar()
      requires Valid() && cooldown >= 0.0 && GoesBackAtMost(events, cooldown)
      ensures WellSpaced(alerts, cooldown) && alerts == Run(cooldown, events, false).alerts
    {
      AlertsAreSpaced(cooldown, events);
      EvictionIsInvisible(cooldown, events);
    }

    method TryAlert(key: K, now: real) returns (fire: bool)
      requires Valid()
      modifies this
      ensures Valid() && events == old(events) + [Check(key, now)]
      ensures fire == Fires(old(last), cooldown, key, now)
      ensures last == if fire then old(last)[key := now] else old(last)
      ensures alerts == if fire then old(alerts) + [Alert(key, now)] else old(alerts)
    {
      RunAppend(cooldown, events, Check(key, now), true);
      events := events + [Check(key, now)];
      if key in last && now - last[key] < cooldown {
        return false;
      }
      last := last[key := now];
      alerts := alerts + [Alert(key, now)];
      fire := true;
    }

    method SweepStale(now: real)
      requires Valid()
      modifies this
      ensures Valid() && events == old(events) + [Sweep(now)] && alerts == old(alerts)
      ensures last == Swept(old(last), cooldown, now)
    {
      RunAppend(cooldown, events, Sweep(now), true);
      events := events + [Sweep(now)];
      var cutoff := now - cooldown * 2.0;
      var expired := set k | k in last && last[k] < cutoff;
      while expired != {}
        invariant expired <= last.Keys
        invariant forall k :: k in expired ==> last[k] < cutoff
        invariant forall k :: k in last ==> k in old(last) && last[k] == old(last)[k]
        invariant forall k :: k in old(last) && (old(last)[k] >= cutoff || k in expired) ==> k in last
        invariant forall k :: k in last && last[k] < cutoff ==> k in expired
        modifies this`last
        decreases expired
      {
        var k :| k in expired;
        last := last - {k};
        expired := expired - {k};
      }
      assert last == Swept(old(last), cooldown, now);
    }
  }

  lemma OfferNone<K, F>(last: map<K, real>, cooldown: real, offered: seq<Candidate<K, F>>)
    requires |offered| == 0
    ensures After(last, cooldown, offered) == last && Accepted(last, cooldown, offered) == [] && Checks(offered) == []
  {
  }

  /** What the next candidate adds to the map, to the accepted ones and to the history. */
  lemma OfferOne<K, F>(last: map<K, real>, cooldown: real, offered: seq<Candidate<K, F>>, i: nat)
    requires i < |offered|
    ensures var before, c := After(last, cooldown, offered[..i]), offered[i];
            var fires := Fires(before, cooldown, c.key, c.now);
            && After(last, cooldown, offered[..i + 1]) == (if fires then before[c.key := c.now] else before)
            && Accepted(last, cooldown, offered[..i + 1])
               == (if fires then Accepted(last, cooldown, offered[..i]) + [c]
                   else Accepted(last, cooldown, offered[..i]))
            && Checks(offered[..i + 1]) == Checks(offered[..i]) + [Check(c.key, c.now)]
  {
    assert offered[..i + 1][..i] == offered[..i];
  }

  // What a detector run lets through, said by the keys alone.

  /** No remembered alert of `key` is less than a cooldown old. */
  ghost predicate Quiet<K(!new)>(last: map<K, real>, cooldown: real, key: K, now: real) {
    key !in last || now - last[key] >= cooldown
  }

  ghost predicate Offers<K, F>(offered: seq<Candidate<K, F>>, key: K) {
    exists i :: 0 <= i < |offered| && offered[i].key == key
  }

  ghost predicate OffersQuiet<K(!new), F>(last: map<K, real>, cooldown: real, offered: seq<Candidate<K, F>>, key: K) {
    exists i :: 0 <= i < |offered| && offered[i].key == key && Quiet(last, cooldown, key, offered[i].now)
  }

  /** An alert of `key` is let through iff one is offered that finds the key quiet in the map before the run. */
  lemma {:induction false} AcceptedForKey<K(!new), F>(last: map<K, real>, cooldown: real,
                                                      offered: seq<Candidate<K, F>>, key: K)
    ensures Offers(Accepted(last, cooldown, offered), key)
            <==> OffersQuiet(last, cooldown, offered, key)
    ensures var after := After(last, cooldown, offered);
            Offers(Accepted(last, cooldown, offered), key)
            || ((key in after <==> key in last) && (key in last ==> after[key] == last[key]))
  {
    if |offered| > 0 {
      var n := |offered| - 1;
      var rest, c := offered[..n], offered[n];
      AcceptedForKey(last, cooldown, rest, key);
      var before, accepted := Accepted(last, cooldown, rest), Accepted(last, cooldown, offered);
      assert accepted == before || accepted == before + [c];
      if Offers(before, key) {
        var i :| 0 <= i < |before| && before[i].key == key;
        assert accepted[i].key == key;
        var j :| 0 <= j < n && rest[j].key == key && Quiet(last, cooldown, key, rest[j].now);
        assert offered[j] == rest[j];
      } else if accepted != before {
        assert accepted[|before|] == c && offered[n] == c;
      }
    }
  }

  ghost predicate Found<K, F(!new)>(findings: seq<Candidate<K, F>>, f: F) {
    exists i :: 0 <= i < |findings| && findings[i].finding == f
  }

  /** Every candidate is checked at the same clock reading, and no two different ones share a key. */
  ghost predicate OneReading<K, F>(offered: seq<Candidate<K, F>>, now: real) {
    && (forall i :: 0 <= i < |offered| ==> offered[i].now == now)
    && (forall i, j :: 0 <= i < |offered| && 0 <= j < |offered| && offered[i].key == offered[j].key ==>
          offered[i] == offered[j])
  }

  lemma {:induction false} AcceptedAreOffered<K, F>(last: map<K, real>, cooldown: real,
                                                    offered: seq<Candidate<K, F>>)
    ensures forall c :: c in Accepted(last, cooldown, offered) ==> c in offered
  {
    if |offered| > 0 {
      AcceptedAreOffered(last, cooldown, offered[..|offered| - 1]);
    }
  }

  /** With one clock reading, whether a candidate is let through depends on its own key only. */
  lemma AcceptedIffQuiet<K(!new), F>(last: map<K, real>, cooldown: real, offered: seq<Candidate<K, F>>, now: real,
                                     c: Candidate<K, F>)
    requires OneReading(offered, now)
    ensures c in Accepted(last, cooldown, offered) <==> c in offered && Quiet(last, cooldown, c.key, now)
  {
    hide Quiet;
    var accepted := Accepted(last, cooldown, offered);
    AcceptedForKey(last, cooldown, offered, c.key);
    AcceptedAreOffered(last, cooldown, offered);
    if c in offered && Offers(accepted, c.key) {
      var i :| 0 <= i < |accepted| && accepted[i].key == c.key;
      assert accepted[i] in offered;
    }
  }

  lemma FoundIffAccepted<K, F(!new)>(findings: seq<Candidate<K, F>>, c: Candidate<K, F>)
    requires forall d :: d in findings && d.finding == c.finding ==> d == c
    ensures Found(findings, c.finding) <==> c in findings
  {
    if Found(findings, c.finding) {
      var i :| 0 <= i < |findings| && findings[i].finding == c.finding;
      assert findings[i] in findings;
    }
  }

  /** The map after a run at clock reading `now`: what was let through, and what is not older than two cooldowns. */
  ghost predicate Remembers<K(!new), F(!new)>(was: map<K, real>, cooldown: real, accepted: seq<Candidate<K, F>>,
                                              now: real, last: map<K, real>) {
    forall key ::
      if Offers(accepted, key) then key in last && last[key] == now
      else
        && (key in last <==> key in was && was[key] >= now - 2.0 * cooldown)
        && (key in last ==> last[key] == was[key])
  }

  lemma {:induction false} AcceptedAreRemembered<K, F>(last: map<K, real>, cooldown: real,
                                                       offered: seq<Candidate<K, F>>, now: real)
    requires OneReading(offered, now)
    ensures var after := After(last, cooldown, offered);
            forall c :: c in Accepted(last, cooldown, offered) ==> c.key in after && after[c.key] == now
  {
    if |offered| > 0 {
      var rest := offered[..|offered| - 1];
      AcceptedAreRemembered(last, cooldown, rest, now);
      AcceptedAreOffered(last, cooldown, rest);
    }
  }

  lemma RunRemembers<K(!new), F(!new)>(last: map<K, real>, cooldown: real, offered: seq<Candidate<K, F>>, now: real)
    requires OneReading(offered, now) && cooldown >= 0.0
    ensures Remembers(last, cooldown, Accepted(last, cooldown, offered), now,
                      Swept(After(last, cooldown, offered), cooldown, now))
  {
    hide Accepted, After, OneReading;
    var accepted := Accepted(last, cooldown, offered);
    AcceptedAreRemembered(last, cooldown, offered, now);
    forall key ensures Offers(accepted, key) ==> exists c :: c in accepted && c.key == key {
      AcceptedForKey(last, cooldown, offered, key);
      if Offers(accepted, key) {
        var i :| 0 <= i < |accepted| && accepted[i].key == key;
        assert accepted[i] in accepted;
      }
    }
    forall key ensures Offers(accepted, key)
                       || ((key in After(last, cooldown, offered) <==> key in last)
                           && (key in last ==> After(last, cooldown, offered)[key] == last[key]))
    {
      AcceptedForKey(last, cooldown, offered, key);
    }
  }

  /** Checks the candidates of one detector run in order, then sweeps. */
  method OfferAll<K(==, !new), F>(d: Deduper<K>, offered: seq<Candidate<K, F>>, now: real)
    returns (findings: seq<Candidate<K, F>>)
    requires d.Valid()
    modifies d
    ensures d.Valid() && d.events == old(d.events) + Checks(offered) + [Sweep(now)]
    ensures findings == Accepted(old(d.last), d.cooldown, offered)
    ensures d.last == Swept(After(old(d.last), d.cooldown, offered), d.cooldown, now)
  {
    hide Run, After, Accepted, Checks, Fires;
    findings := [];
    ghost var last, events := d.last, d.events;
    OfferNone(last, d.cooldown, offered[..0]);
    for i := 0 to |offered|
      invariant d.Valid() && d.events == events + Checks(offered[..i])
      invariant d.last == After(last, d.cooldown, offered[..i])
      invariant findings == Accepted(last, d.cooldown, offered[..i])
    {
      var c := offered[i];
      OfferOne(last, d.cooldown, offered, i);
      AppendLast(events, Checks(offered[..i]), Check(c.key, c.now));
      var fire := d.TryAlert(c.key, c.now);
      if !fire {
        continue;
      }
      findings := findings + [c];
    }
    assert offered[..|offered|] == offered;
    d.SweepStale(now);
  }
}
