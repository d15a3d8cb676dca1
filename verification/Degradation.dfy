/** Suppression of repeated degradation records: a warning when a metric degrades, reminders at least five
    minutes apart while it stays degraded, and one clearing record when it recovers. */
module Degradation {
  import opened Text
  import opened Sorting
  import Snapshot

  const REMINDER_INTERVAL: int := 300_000_000_000
  const MAXIMUM_STATES: nat := 204

  /** The identity of a degradation: an event, and the key under which it is remembered. */
  datatype Event = Event(metric: string, reason: string)

  datatype Severity = Info | Warn

  datatype Record = Record(at: int, severity: Severity, metric: string, reason: string, cleared: bool)

  predicate ValidEvent(e: Event) {
    e.metric != "" && Snapshot.IsCode(e.reason)
  }

  /** The event lists a report accepts. */
  ghost predicate Acceptable(events: seq<Event>) {
    && |events| <= MAXIMUM_STATES
    && (forall i :: 0 <= i < |events| ==> ValidEvent(events[i]))
    && Unique(events)
  }

  ghost predicate Unique(events: seq<Event>) {
    forall i, j :: 0 <= i < j < |events| ==> events[i] != events[j]
  }

  predicate Before(a: Event, b: Event) {
    if a.metric == b.metric then Less(a.reason, b.reason) else Less(a.metric, b.metric)
  }

  lemma BeforeIsStrict()
    ensures StrictOrder(Before)
    ensures forall a: Event, b: Event :: a == b || Before(a, b) || Before(b, a)
  {
    forall a: Event ensures !Before(a, a) {
      LessIrreflexive(a.reason);
    }
    forall a: Event, b: Event, c: Event | Before(a, b) && Before(b, c) ensures Before(a, c) {
      BeforeTransitive(a, b, c);
    }
    forall a: Event, b: Event ensures a == b || Before(a, b) || Before(b, a) {
      LessTotal(a.metric, b.metric);
      LessTotal(a.reason, b.reason);
    }
  }

  lemma BeforeTransitive(a: Event, b: Event, c: Event)
    requires Before(a, b) && Before(b, c)
    ensures Before(a, c)
  {
    LessIrreflexive(a.metric);
    if a.metric == b.metric && b.metric == c.metric {
      LessTransitive(a.reason, b.reason, c.reason);
    } else if a.metric != b.metric && b.metric != c.metric {
      LessTransitive(a.metric, b.metric, c.metric);
    }
  }

  // ----- What one accepted report does -----

  /** Whether `key` is to be warned about now: it was not degraded, or its last record is old enough. */
  predicate Due(active: map<Event, int>, key: Event, now: int) {
    key in active ==> now - active[key] >= REMINDER_INTERVAL
  }

  function Warning(key: Event, now: int): Record {
    Record(now, Warn, key.metric, key.reason, false)
  }

  function Clearing(key: Event, now: int): Record {
    Record(now, Info, key.metric, key.reason, true)
  }

  function Warnings(active: map<Event, int>, events: seq<Event>, now: int): seq<Record> {
    if events == [] then []
    else
      var last := events[|events| - 1];
      Warnings(active, events[..|events| - 1], now) + if Due(active, last, now) then [Warning(last, now)] else []
  }

  function Clearings(keys: seq<Event>, now: int): seq<Record> {
    seq(|keys|, i requires 0 <= i < |keys| => Clearing(keys[i], now))
  }

  function Refreshed(active: map<Event, int>, events: seq<Event>, now: int): map<Event, int> {
    map e | e in events :: if Due(active, e, now) then now else active[e]
  }

  /** The keys that were active and are no longer reported, in the order in which they are cleared. */
  ghost predicate IsRecovery(recovered: seq<Event>, active: map<Event, int>, events: seq<Event>) {
    Sorted(recovered, Before) && Elements(recovered) == active.Keys - Elements(events)
  }

  /** There is one recovery order, whatever the order in which the map is iterated. */
  lemma RecoveryIsUnique(r: seq<Event>, r': seq<Event>, active: map<Event, int>, events: seq<Event>)
    requires IsRecovery(r, active, events) && IsRecovery(r', active, events)
    ensures r == r'
  {
    BeforeIsStrict();
    forall x ensures x in r <==> x in r' {
      assert x in Elements(r) <==> x in Elements(r');
    }
    SortedIsUnique(r, r', Before);
  }

  /** The map after the first loop has dealt with `events`. */
  function Remembered(active: map<Event, int>, events: seq<Event>, now: int): map<Event, int> {
    active + Refreshed(active, events, now)
  }

  function LastLogged(active: map<Event, int>, key: Event, now: int): int {
    if Due(active, key, now) then now else active[key]
  }

  lemma NotRepeated(events: seq<Event>, n: nat)
    requires Unique(events) && n < |events|
    ensures events[n] !in events[..n] && events[..n + 1] == events[..n] + [events[n]]
  {
  }

  lemma RememberedStep(active: map<Event, int>, front: seq<Event>, key: Event, now: int)
    requires key !in front
    ensures var soFar := Remembered(active, front, now);
      && Due(soFar, key, now) == Due(active, key, now)
      && Remembered(active, front + [key], now) == soFar[key := LastLogged(soFar, key, now)]
  {
    RefreshedStep(active, front, key, now);
  }

  lemma RefreshedStep(active: map<Event, int>, front: seq<Event>, key: Event, now: int)
    ensures Refreshed(active, front + [key], now) == Refreshed(active, front, now)[key := LastLogged(active, key, now)]
  {
    forall e ensures e in front + [key] <==> e in front || e == key {}
  }

  /** The map and the log when `front` has been dealt with, from `active` and `emitted`. */
  ghost predicate Warned(
    active: map<Event, int>, emitted: seq<Record>, front: seq<Event>, now: int,
    active': map<Event, int>, emitted': seq<Record>)
  {
    active' == Remembered(active, front, now) && emitted' == emitted + Warnings(active, front, now)
  }

  lemma WarnedNone(active: map<Event, int>, emitted: seq<Record>, now: int)
    ensures Warned(active, emitted, [], now, active, emitted)
  {
  }

  lemma WarnedStep(
    active: map<Event, int>, emitted: seq<Record>, front: seq<Event>, key: Event, now: int,
    active': map<Event, int>, emitted': seq<Record>)
    requires Warned(active, emitted, front, now, active', emitted') && key !in front
    ensures Due(active', key, now) == Due(active, key, now)
    ensures Warned(active, emitted, front + [key], now, active'[key := LastLogged(active', key, now)],
                   emitted' + if Due(active', key, now) then [Warning(key, now)] else [])
  {
    RememberedStep(active, front, key, now);
    assert (front + [key])[..|front|] == front;
  }

  /** Without the recovered keys, exactly the reported ones remain. */
  lemma OnlyReportedRemain(active: map<Event, int>, events: seq<Event>, recovered: seq<Event>, now: int)
    requires IsRecovery(recovered, active, events)
    ensures Remembered(active, events, now) - Elements(recovered) == Refreshed(active, events, now)
  {
  }

  lemma OneMoreCall(calls: seq<Call>, call: Call)
    requires ValidCalls(calls) && Acceptable(call.events) && IsRecovery(call.recovered, ActiveAfter(calls), call.events)
    ensures ValidCalls(calls + [call])
    ensures ActiveAfter(calls + [call]) == Refreshed(ActiveAfter(calls), call.events, call.now)
    ensures Log(calls + [call])
              == Log(calls) + Warnings(ActiveAfter(calls), call.events, call.now) + Clearings(call.recovered, call.now)
  {
    assert (calls + [call])[..|calls|] == calls;
  }

  class DegradationReporter {
    var active: map<Event, int>
    /** The records passed to the emit callback. */
    var emitted: seq<Record>

    /** The accepted calls so far. */
    ghost var history: seq<Call>

    ghost predicate Valid()
      reads this
    {
      ValidCalls(history) && active == ActiveAfter(history) && emitted == Log(history)
    }

    constructor ()
      ensures Valid() && history == [] && active == map[] && emitted == []
    {
      active, emitted, history := map[], [], [];
    }

    method Report(events: seq<Event>, now: int) returns (ok: bool)
      requires Valid()
      modifies this
      ensures Valid()
      ensures ok <==> Acceptable(events)
      ensures !ok ==> active == old(active) && emitted == old(emitted) && history == old(history)
      ensures ok ==> active == Refreshed(old(active), events, now)
      ensures ok ==> exists recovered ::
                && IsRecovery(recovered, old(active), events)
                && emitted == old(emitted) + Warnings(old(active), events, now) + Clearings(recovered, now)
                && history == old(history) + [Call(events, now, recovered)]
      ensures ok ==> Emits(old(emitted), emitted, old(active), events, now)
    {
      if |events| > MAXIMUM_STATES {
        return false;
      }
      var valid, current := CheckIdentities(events);
      if !valid {
        return false;
      }
      WarnDue(events, now);
      var recovered := Recovered(active, current);
      OnlyReportedRemain(old(active), events, recovered, now);
      EmitsDue(old(emitted), old(active), events, recovered, now);
      Clear(recovered, now);
      OneMoreCall(history, Call(events, now, recovered));
      history := history + [Call(events, now, recovered)];
      return true;
    }

    /** The first loop over the events, under the lock: emits the due warnings and remembers every event. */
    method WarnDue(events: seq<Event>, now: int)
      requires Unique(events)
      modifies this`active, this`emitted
      ensures active == Remembered(old(active), events, now)
      ensures emitted == old(emitted) + Warnings(old(active), events, now)
    {
      WarnedNone(active, emitted, now);
      for n := 0 to |events|
        invariant Warned(old(active), old(emitted), events[..n], now, active, emitted)
      {
        NotRepeated(events, n);
        WarnedStep(old(active), old(emitted), events[..n], events[n], now, active, emitted);
        WarnIfDue(events[n], now);
      }
      assert events[..|events|] == events;
    }

    method WarnIfDue(key: Event, now: int)
      modifies this`active, this`emitted
      ensures active == old(active)[key := LastLogged(old(active), key, now)]
      ensures emitted == old(emitted) + if Due(old(active), key, now) then [Warning(key, now)] else []
    {
      var lastLogged := if key in active then active[key] else now;
      if key !in active || now - lastLogged >= REMINDER_INTERVAL {
        emitted := emitted + [Warning(key, now)];
        lastLogged := now;
      }
      active := active[key := lastLogged];
    }

    /** The loop over the recovered keys: emits their clearing records and forgets them. */
    method Clear(recovered: seq<Event>, now: int)
      modifies this`active, this`emitted
      ensures active == old(active) - Elements(recovered)
      ensures emitted == old(emitted) + Clearings(recovered, now)
    {
      for n := 0 to |recovered|
        invariant emitted == old(emitted) + Clearings(recovered[..n], now)
        invariant active == old(active) - Elements(recovered[..n])
      {
        ElementsAppend(recovered[..n], recovered[n]);
        assert recovered[..n + 1] == recovered[..n] + [recovered[n]];
        emitted := emitted + [Clearing(recovered[n], now)];
        active := active - {recovered[n]};
      }
      assert recovered[..|recovered|] == recovered;
    }
  }

  /** Rejects invalid and duplicate identities, and collects the valid ones. */
  method CheckIdentities(events: seq<Event>) returns (ok: bool, current: set<Event>)
    ensures ok <==> (forall i :: 0 <= i < |events| ==> ValidEvent(events[i])) && Unique(events)
    ensures ok ==> current == Elements(events)
  {
    current := {};
    for n := 0 to |events|
      invariant forall i :: 0 <= i < n ==> ValidEvent(events[i])
      invariant Unique(events[..n]) && current == Elements(events[..n])
    {
      if !ValidEvent(events[n]) {
        return false, current;
      }
      if events[n] in current {
        assert events[n] in events[..n];
        return false, current;
      }
      current := current + {events[n]};
    }
    assert events[..|events|] == events;
    return true, current;
  }

  /** Collects, in whatever order the map yields them, the keys that are not current, and sorts them. */
  method Recovered(active: map<Event, int>, current: set<Event>) returns (recovered: seq<Event>)
    ensures Sorted(recovered, Before) && Elements(recovered) == active.Keys - current
  {
    var keys, found: seq<Event> := active.Keys, [];
    while keys != {}
      invariant keys <= active.Keys
      invariant Elements(found) == active.Keys - keys - current
      invariant Unique(found)
      decreases keys
    {
      var key :| key in keys;
      if key !in current {
        assert key !in Elements(found);
        ElementsAppend(found, key);
        found := found + [key];
      }
      keys := keys - {key};
    }
    BeforeIsStrict();
    SortSorts(found, Before);
    SortKeepsElements(found, Before);
    recovered := Sort(found, Before);
  }

  // ----- Whole histories -----

  /** One accepted call: its events, the time it ran, and the recovery order it used. */
  datatype Call = Call(events: seq<Event>, now: int, recovered: seq<Event>)

  /** The active map and the log after a list of accepted calls, from an empty reporter. */
  ghost predicate ValidCalls(calls: seq<Call>) {
    calls == [] || (
      var before := calls[..|calls| - 1];
      var last := calls[|calls| - 1];
      ValidCalls(before) && Acceptable(last.events) && IsRecovery(last.recovered, ActiveAfter(before), last.events))
  }

  function ActiveAfter(calls: seq<Call>): map<Event, int> {
    if calls == [] then map[]
    else
      var last := calls[|calls| - 1];
      Refreshed(ActiveAfter(calls[..|calls| - 1]), last.events, last.now)
  }

  function Log(calls: seq<Call>): seq<Record> {
    if calls == [] then []
    else
      var last := calls[|calls| - 1];
      Log(calls[..|calls| - 1]) + Warnings(ActiveAfter(calls[..|calls| - 1]), last.events, last.now)
          + Clearings(last.recovered, last.now)
  }

  /** Where one key stands: recovered, or degraded and last recorded at a time. `Broken` is the state after a
      record that no well-formed history contains. */
  datatype Episode = Idle | Open(last: int) | Broken

  function Track(episode: Episode, record: Record): Episode {
    match episode
    case Idle => if !record.cleared && record.severity == Warn then Open(record.at) else Broken
    case Open(last) =>
      if record.cleared then (if record.severity == Info then Idle else Broken)
      else if record.severity == Warn && record.at - last >= REMINDER_INTERVAL then Open(record.at)
      else Broken
    case Broken => Broken
  }

  predicate About(record: Record, key: Event) {
    record.metric == key.metric && record.reason == key.reason
  }

  /** Follows the records about `key` through a log. */
  function TrackAll(episode: Episode, log: seq<Record>, key: Event): Episode {
    if log == [] then episode
    else
      var before := TrackAll(episode, log[..|log| - 1], key);
      if About(log[|log| - 1], key) then Track(before, log[|log| - 1]) else before
  }

  lemma {:induction false} TrackAppend(episode: Episode, a: seq<Record>, b: seq<Record>, key: Event)
    ensures TrackAll(episode, a + b, key) == TrackAll(TrackAll(episode, a, key), b, key)
  {
    if b == [] {
      assert a + b == a;
    } else {
      assert (a + b)[..|a + b| - 1] == a + b[..|b| - 1];
      TrackAppend(episode, a, b[..|b| - 1], key);
    }
  }

  function Standing(active: map<Event, int>, key: Event): Episode {
    if key in active then Open(active[key]) else Idle
  }

  lemma {:induction false} TrackWarnings(active: map<Event, int>, events: seq<Event>, now: int, key: Event)
    requires Unique(events)
    ensures TrackAll(Standing(active, key), Warnings(active, events, now), key)
         == if key in events then Open(LastLogged(active, key, now)) else Standing(active, key)
  {
    if events != [] {
      var n := |events| - 1;
      var front, last := events[..n], events[n];
      assert events == front + [last];
      assert last !in front;
      TrackWarnings(active, front, now, key);
      var one := if Due(active, last, now) then [Warning(last, now)] else [];
      TrackAppend(Standing(active, key), Warnings(active, front, now), one, key);
      if Due(active, last, now) {
        assert one[..0] == [];
      }
    }
  }

  lemma {:induction false} TrackClearings(recovered: seq<Event>, now: int, key: Event, episode: Episode)
    requires Sorted(recovered, Before)
    requires key in recovered ==> episode.Open?
    ensures TrackAll(episode, Clearings(recovered, now), key) == if key in recovered then Idle else episode
  {
    if recovered != [] {
      var n := |recovered| - 1;
      var front, last := recovered[..n], recovered[n];
      assert recovered == front + [last];
      BeforeIsStrict();
      SortedHasNoRepeats(recovered, Before);
      TrackClearings(front, now, key, episode);
      assert Clearings(recovered, now)[..n] == Clearings(front, now);
    }
  }

  /** In every history, each key's records form episodes: a warning, reminders at least five minutes apart,
      and one clearing. The key is active exactly while its episode is open, since its last record. */
  lemma {:induction false} EpisodesAreWellFormed(calls: seq<Call>, key: Event)
    requires ValidCalls(calls)
    ensures TrackAll(Idle, Log(calls), key) == Standing(ActiveAfter(calls), key)
  {
    if calls != [] {
      var before, last := calls[..|calls| - 1], calls[|calls| - 1];
      var active := ActiveAfter(before);
      EpisodesAreWellFormed(before, key);
      var warnings, clearings := Warnings(active, last.events, last.now), Clearings(last.recovered, last.now);
      TrackAppend(Idle, Log(before) + warnings, clearings, key);
      TrackAppend(Idle, Log(before), warnings, key);
      TrackWarnings(active, last.events, last.now, key);
      assert key in last.recovered <==> key in Elements(last.recovered);
      assert key in last.events <==> key in Elements(last.events);
      TrackClearings(last.recovered, last.now, key, TrackAll(Standing(active, key), warnings, key));
    }
  }

  /** After every history, exactly the events of the last accepted call are active, so at most 204. */
  lemma ActiveIsLastCall(calls: seq<Call>)
    requires ValidCalls(calls) && calls != []
    ensures ActiveAfter(calls).Keys == Elements(calls[|calls| - 1].events)
    ensures |ActiveAfter(calls)| == |calls[|calls| - 1].events| <= MAXIMUM_STATES
  {
    var events := calls[|calls| - 1].events;
    UniqueSize(events);
    assert ActiveAfter(calls).Keys == Elements(events);
    assert |ActiveAfter(calls)| == |ActiveAfter(calls).Keys|;
  }

  // ----- What is recorded, and when -----

  /** The warning of an event that was not degraded before, or whose last record is five minutes old. */
  predicate DueWarning(record: Record, active: map<Event, int>, events: seq<Event>, now: int) {
    var key := Event(record.metric, record.reason);
    && record.at == now && record.severity == Warn && !record.cleared
    && key in events && (key in active ==> now - active[key] >= 300_000_000_000)
  }

  /** The clearing of a degradation that is no longer reported. */
  predicate DueClearing(record: Record, active: map<Event, int>, events: seq<Event>, now: int) {
    var key := Event(record.metric, record.reason);
    record.at == now && record.severity == Info && record.cleared && key in active && key !in events
  }

  lemma {:induction false} WarningsAre(active: map<Event, int>, events: seq<Event>, now: int, record: Record)
    ensures record in Warnings(active, events, now) <==> DueWarning(record, active, events, now)
  {
    if events != [] {
      var front, last := events[..|events| - 1], events[|events| - 1];
      WarningsAre(active, front, now, record);
      assert events == front + [last];
    }
  }

  /** A call emits exactly the due warnings and clearings, all dated with its own time. */
  lemma RecordsOfCall(active: map<Event, int>, events: seq<Event>, recovered: seq<Event>, now: int, record: Record)
    requires IsRecovery(recovered, active, events)
    ensures record in Warnings(active, events, now) + Clearings(recovered, now) <==>
              DueWarning(record, active, events, now) || DueClearing(record, active, events, now)
  {
    WarningsAre(active, events, now, record);
    var key := Event(record.metric, record.reason);
    assert key in recovered <==> key in Elements(recovered);
    if key in recovered && record == Clearing(key, now) {
      var i :| 0 <= i < |recovered| && recovered[i] == key;
      assert Clearings(recovered, now)[i] == record;
    }
  }

  /** The new part of the log holds exactly the due warnings and clearings. */
  ghost predicate Emits(
    before: seq<Record>, after: seq<Record>, active: map<Event, int>, events: seq<Event>, now: int)
  {
    && before <= after
    && forall record :: record in after[|before|..] <==>
         DueWarning(record, active, events, now) || DueClearing(record, active, events, now)
  }

  lemma EmitsDue(before: seq<Record>, active: map<Event, int>, events: seq<Event>, recovered: seq<Event>, now: int)
    requires IsRecovery(recovered, active, events)
    ensures Emits(before, before + Warnings(active, events, now) + Clearings(recovered, now), active, events, now)
  {
    var after := before + Warnings(active, events, now) + Clearings(recovered, now);
    assert after[|before|..] == Warnings(active, events, now) + Clearings(recovered, now);
    forall record ensures record in after[|before|..] <==>
        DueWarning(record, active, events, now) || DueClearing(record, active, events, now)
    {
      RecordsOfCall(active, events, recovered, now, record);
    }
  }

  /** The log holds a warning about `key` at time `at`. */
  ghost predicate WarnedAt(log: seq<Record>, key: Event, at: int) {
    Record(at, Warn, key.metric, key.reason, false) in log
  }

  lemma {:induction false} ActiveWasWarned(calls: seq<Call>, key: Event)
    requires ValidCalls(calls) && key in ActiveAfter(calls)
    ensures WarnedAt(Log(calls), key, ActiveAfter(calls)[key])
  {
    var before, last := calls[..|calls| - 1], calls[|calls| - 1];
    var active := ActiveAfter(before);
    if Due(active, key, last.now) {
      WarningsAre(active, last.events, last.now, Warning(key, last.now));
    } else {
      ActiveWasWarned(before, key);
    }
  }

  /** Reminders do come: after every accepted call, each event it reported has a warning in the log that is less
      than five minutes old, counted from the time of that call. */
  lemma ReminderIsNeverOverdue(calls: seq<Call>, key: Event)
    requires ValidCalls(calls) && calls != [] && key in calls[|calls| - 1].events
    ensures key in ActiveAfter(calls) && calls[|calls| - 1].now - ActiveAfter(calls)[key] < 300_000_000_000
    ensures exists at :: WarnedAt(Log(calls), key, at) && calls[|calls| - 1].now - at < 300_000_000_000
  {
    ActiveWasWarned(calls, key);
  }

  lemma {:induction false} UniqueSize(events: seq<Event>)
    requires Unique(events)
    ensures |Elements(events)| == |events|
  {
    if events != [] {
      var n := |events| - 1;
      UniqueSize(events[..n]);
      NotRepeated(events, n);
      assert Elements(events) == Elements(events[..n]) + {events[n]} by {
        ElementsAppend(events[..n], events[n]);
        assert events == events[..n] + [events[n]];
      }
    }
  }
}
