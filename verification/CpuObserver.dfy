/** The trailing CPU utilisation observer: its samples, its publication, its schedule, and its reader. */
module CpuObserver {
  import opened Text
  import opened Outcomes
  import opened Snapshot
  import opened SnapshotBuilding
  import CpuList

  const PERIOD: int := 1_000_000_000
  const MINIMUM_INTERVAL: int := 900_000_000
  const MAXIMUM_INTERVAL: int := 1_100_000_000
  const MAXIMUM_AGE: int := 1_250_000_000

  /** The eight aggregate counters: user, nice, system, idle, iowait, irq, softirq, steal. */
  type Counters = s: seq<uint64> | |s| == 8 witness [0, 0, 0, 0, 0, 0, 0, 0]

  datatype Sample = Sample(counters: Counters, topology: CpuList.Topology, bootId: string, uptime: uint64)

  datatype Timed = Timed(value: Sample, at: int)

  datatype Publication = Publication(utilization: Float, sampledAt: int, topology: CpuList.Topology)

  // ----- Utilisation -----

  function Sum(values: seq<uint64>): nat {
    if values == [] then 0 else Sum(values[..|values| - 1]) + values[|values| - 1]
  }

  /** Adds up 64-bit values, refusing a sum that does not fit. */
  method SumUint64(values: seq<uint64>) returns (total: Option<uint64>)
    ensures total == if Sum(values) <= MAX_UINT64 then Some(Sum(values)) else None
  {
    var sum: uint64 := 0;
    for i := 0 to |values|
      invariant sum == Sum(values[..i])
    {
      assert values[..i + 1][..i] == values[..i];
      if sum > MAX_UINT64 - values[i] {
        SumMonotone(values, i + 1);
        return None;
      }
      sum := sum + values[i];
    }
    assert values[..|values|] == values;
    return Some(sum);
  }

  lemma {:induction false} SumMonotone(values: seq<uint64>, k: nat)
    requires k <= |values|
    ensures Sum(values[..k]) <= Sum(values)
    decreases |values|
  {
    if k < |values| {
      SumMonotone(values[..|values| - 1], k);
      assert values[..|values| - 1][..k] == values[..k];
    } else {
      assert values[..k] == values;
    }
  }

  function Delta(previous: Timed, current: Timed, i: nat): int
    requires i < 8
  {
    current.value.counters[i] as int - previous.value.counters[i] as int
  }

  function Busy(previous: Timed, current: Timed): int {
    Delta(previous, current, 0) + Delta(previous, current, 1) + Delta(previous, current, 2)
    + Delta(previous, current, 5) + Delta(previous, current, 6)
  }

  function Total(previous: Timed, current: Timed): int {
    Busy(previous, current) + Delta(previous, current, 3) + Delta(previous, current, 4) + Delta(previous, current, 7)
  }

  /** The total counts each of the eight counters once; the busy part is what is neither idle, nor waiting for
      I/O, nor stolen. */
  lemma TotalIsSum(previous: Timed, current: Timed, deltas: seq<uint64>)
    requires |deltas| == 8 && forall i :: 0 <= i < 8 ==> Delta(previous, current, i) == deltas[i]
    ensures Total(previous, current) == Sum(deltas)
    ensures Busy(previous, current) == Sum(deltas) - deltas[3] - deltas[4] - deltas[7]
  {
    var five := [deltas[0], deltas[1], deltas[2], deltas[3], deltas[4]];
    SumOfFive(deltas[0], deltas[1], deltas[2], deltas[3], deltas[4]);
    SumSnoc(five, deltas[5]);
    SumSnoc(five + [deltas[5]], deltas[6]);
    SumSnoc(five + [deltas[5]] + [deltas[6]], deltas[7]);
    assert deltas == five + [deltas[5]] + [deltas[6]] + [deltas[7]];
  }

  lemma SumSnoc(values: seq<uint64>, x: uint64)
    ensures Sum(values + [x]) == Sum(values) + x
  {
    assert (values + [x])[..|values|] == values;
  }

  /** Two samples between which a utilisation is defined. */
  ghost predicate Comparable(previous: Timed, current: Timed) {
    && 900_000_000 <= current.at - previous.at <= 1_100_000_000
    && previous.value.bootId == current.value.bootId && previous.value.uptime <= current.value.uptime
    && previous.value.topology == current.value.topology
    && (forall i :: 0 <= i < 8 ==> Delta(previous, current, i) >= 0)
    && 0 < Total(previous, current) <= MAX_UINT64
  }

  ghost function Utilization(previous: Timed, current: Timed): real
    requires Comparable(previous, current)
  {
    100.0 * (Busy(previous, current) as real) / (Total(previous, current) as real)
  }

  lemma UtilizationIsPercentage(previous: Timed, current: Timed)
    requires Comparable(previous, current)
    ensures 0.0 <= Utilization(previous, current) <= 100.0
    ensures Utilization(previous, current) == 100.0 <==>
              Delta(previous, current, 3) == Delta(previous, current, 4) == Delta(previous, current, 7) == 0
  {
    var busy, total := Busy(previous, current) as real, Total(previous, current) as real;
    assert Delta(previous, current, 0) >= 0 && Delta(previous, current, 1) >= 0 && Delta(previous, current, 2) >= 0;
    assert Delta(previous, current, 3) >= 0 && Delta(previous, current, 4) >= 0 && Delta(previous, current, 7) >= 0;
    assert Delta(previous, current, 5) >= 0 && Delta(previous, current, 6) >= 0;
    ShareOf(busy, total);
  }

  lemma ShareOf(part: real, whole: real)
    requires 0.0 <= part <= whole && whole > 0.0
    ensures 0.0 <= 100.0 * part / whole <= 100.0
    ensures 100.0 * part / whole == 100.0 <==> part == whole
  {
    var share := 100.0 * part / whole;
    assert share * whole == 100.0 * part;
    assert (100.0 - share) * whole == 100.0 * (whole - part);
  }

  method CalculateUtilization(previous: Timed, current: Timed) returns (utilization: Option<real>)
    ensures utilization.Some? <==> Comparable(previous, current)
    ensures utilization.Some? ==> utilization.value == Utilization(previous, current)
  {
    var interval := current.at - previous.at;
    if interval < MINIMUM_INTERVAL || interval > MAXIMUM_INTERVAL {
      return None;
    }
    if previous.value.bootId != current.value.bootId || current.value.uptime < previous.value.uptime {
      return None;
    }
    if previous.value.topology != current.value.topology {
      return None;
    }
    var deltas: seq<uint64> := [];
    for i := 0 to 8
      invariant |deltas| == i
      invariant forall j :: 0 <= j < i ==> deltas[j] == Delta(previous, current, j)
    {
      if current.value.counters[i] < previous.value.counters[i] {
        assert Delta(previous, current, i) < 0;
        return None;
      }
      deltas := deltas + [current.value.counters[i] - previous.value.counters[i]];
    }
    var busy := SumUint64([deltas[0], deltas[1], deltas[2], deltas[5], deltas[6]]);
    SumOfFive(deltas[0], deltas[1], deltas[2], deltas[5], deltas[6]);
    if busy.None? {
      return None;
    }
    var total := SumUint64([busy.value, deltas[3], deltas[4], deltas[7]]);
    SumOfFour(busy.value, deltas[3], deltas[4], deltas[7]);
    if total.None? || total.value == 0 || busy.value > total.value {
      return None;
    }
    return Some(100.0 * (busy.value as real) / (total.value as real));
  }

  lemma SumOfFour(a: uint64, b: uint64, c: uint64, d: uint64)
    ensures Sum([a, b, c, d]) == a + b + c + d
  {
    assert Sum([a]) == a by {
      assert [a][..0] == [];
    }
    assert Sum([a, b]) == a + b by {
      assert [a, b][..1] == [a];
    }
    assert Sum([a, b, c]) == a + b + c by {
      assert [a, b, c][..2] == [a, b];
    }
    assert [a, b, c, d][..3] == [a, b, c];
  }

  lemma SumOfFive(a: uint64, b: uint64, c: uint64, d: uint64, e: uint64)
    ensures Sum([a, b, c, d, e]) == a + b + c + d + e
  {
    assert [a, b, c, d, e][..4] == [a, b, c, d];
    SumOfFour(a, b, c, d);
  }

  // ----- The observer -----

  datatype State = State(baseline: Option<Timed>, publication: Outcome<Publication>, halted: bool)

  const INITIAL := State(None, Temporary(), false)

  /** What happens to the observer under its lock: a sample was taken, a defect is to be published, or it is
      stopped. */
  datatype Event = Sampled(sample: Outcome<Sample>, at: int) | Defected(cause: Option<Failure>) | Stopped

  ghost function Publish(baseline: Option<Timed>, sample: Outcome<Sample>, at: int): Outcome<Publication> {
    if !sample.Present? then Unavailable(sample.reason, sample.cause)
    else if baseline.None? || !Comparable(baseline.value, Timed(sample.value, at)) then Temporary()
    else Good(Publication(Finite(Utilization(baseline.value, Timed(sample.value, at))), at, sample.value.topology))
  }

  function Baseline(sample: Outcome<Sample>, at: int): Option<Timed> {
    if sample.Present? then Some(Timed(sample.value, at)) else None
  }

  ghost function Step(s: State, event: Event): State {
    match event
    case Sampled(sample, at) =>
      if s.halted then s else State(Baseline(sample, at), Publish(s.baseline, sample, at), false)
    case Defected(cause) => if s.halted then s else s.(publication := Defect(cause))
    case Stopped => s.(halted := true)
  }

  class CpuObserver {
    var baseline: Option<Timed>
    var publication: Outcome<Publication>
    var started: bool
    var stopped: bool
    var cancelled: bool

    constructor ()
      ensures Abstract() == INITIAL && !started && !stopped && !cancelled
    {
      baseline, publication := None, Temporary();
      started, stopped, cancelled := false, false, false;
    }

    ghost function Abstract(): State
      reads this
    {
      State(baseline, publication, stopped || cancelled)
    }

    /** The critical section of an observation; an invalid sample outcome never gets here. */
    method Observe(sample: Outcome<Sample>, at: int)
      requires ValidOutcome(sample)
      modifies this`baseline, this`publication
      ensures Abstract() == Step(old(Abstract()), Sampled(sample, at))
    {
      if stopped || cancelled {
        return;
      }
      if !sample.Present? {
        baseline := None;
        publication := Unavailable(sample.reason, sample.cause);
        return;
      }
      var current := Timed(sample.value, at);
      if baseline.None? {
        baseline := Some(current);
        publication := Temporary();
        return;
      }
      var previous := baseline.value;
      baseline := Some(current);
      var utilization := CalculateUtilization(previous, current);
      if utilization.None? {
        publication := Temporary();
        return;
      }
      publication := Good(Publication(Finite(utilization.value), at, current.value.topology));
    }

    method PublishDefect(cause: Option<Failure>)
      modifies this`publication
      ensures Abstract() == Step(old(Abstract()), Defected(cause))
    {
      if stopped || cancelled {
        return;
      }
      publication := Defect(cause);
    }

    /** The critical section of `Close`: the caller then waits for a started observer to end. */
    method Close() returns (waits: bool)
      modifies this`stopped, this`cancelled
      ensures waits == started
      ensures stopped && cancelled && Abstract() == Step(old(Abstract()), Stopped)
    {
      stopped := true;
      cancelled := true;
      return started;
    }
  }

  // ----- Whole histories -----

  ghost function StateAfter(events: seq<Event>): State {
    if events == [] then INITIAL else Step(StateAfter(events[..|events| - 1]), events[|events| - 1])
  }

  predicate AllSamples(events: seq<Event>) {
    forall i :: 0 <= i < |events| ==> events[i].Sampled?
  }

  /** What a running observer should publish, as a function of its last two samples alone. */
  ghost function Trailing(events: seq<Event>): Outcome<Publication>
    requires AllSamples(events)
  {
    var n := |events|;
    if n == 0 then Temporary()
    else
      var last := events[n - 1];
      if !last.sample.Present? then Unavailable(last.sample.reason, last.sample.cause)
      else if n == 1 || !events[n - 2].sample.Present? then Temporary()
      else
        var previous, current := Timed(events[n - 2].sample.value, events[n - 2].at), Timed(last.sample.value, last.at);
        if !Comparable(previous, current) then Temporary()
        else Good(Publication(Finite(Utilization(previous, current)), last.at, current.value.topology))
  }

  /** After any sequence of samples, the stateful observer publishes the function of the last two. */
  lemma {:induction false} RefinesLastTwo(events: seq<Event>)
    requires AllSamples(events)
    ensures !StateAfter(events).halted
    ensures StateAfter(events).publication == Trailing(events)
    ensures StateAfter(events).baseline == if events == [] then None
              else Baseline(events[|events| - 1].sample, events[|events| - 1].at)
  {
    if events != [] {
      RefinesLastTwo(events[..|events| - 1]);
    }
  }

  /** A value is published exactly if the last two samples are present and comparable, and it is a percentage. */
  lemma PublishedValue(events: seq<Event>)
    requires AllSamples(events)
    ensures var n := |events|;
      StateAfter(events).publication.Present? <==>
        && n >= 2 && events[n - 1].sample.Present? && events[n - 2].sample.Present?
        && Comparable(Timed(events[n - 2].sample.value, events[n - 2].at),
              Timed(events[n - 1].sample.value, events[n - 1].at))
    ensures StateAfter(events).publication.Present? ==>
              var u := StateAfter(events).publication.value.utilization; u.Finite? && 0.0 <= u.value <= 100.0
  {
    RefinesLastTwo(events);
    var n := |events|;
    if StateAfter(events).publication.Present? {
      UtilizationIsPercentage(Timed(events[n - 2].sample.value, events[n - 2].at),
          Timed(events[n - 1].sample.value, events[n - 1].at));
    }
  }

  /** Nothing is published after the observer is stopped. */
  lemma {:induction false} NothingAfterStop(before: seq<Event>, after: seq<Event>)
    requires Stopped in before
    ensures StateAfter(before + after) == StateAfter(before) && StateAfter(before).halted
  {
    StaysHalted(before);
    if after == [] {
      assert before + after == before;
    } else {
      NothingAfterStop(before, after[..|after| - 1]);
      assert (before + after)[..|before + after| - 1] == before + after[..|after| - 1];
    }
  }

  lemma {:induction false} StaysHalted(events: seq<Event>)
    requires Stopped in events
    ensures StateAfter(events).halted
  {
    if events[|events| - 1] != Stopped {
      StaysHalted(events[..|events| - 1]);
    }
  }

  // ----- The reader -----

  predicate ValidTopology(t: CpuList.Topology) {
    t.count != 0 && t.signature != ""
  }

  /** The collection cycle's copy of the publication, read at `now`. */
  function CopyCpu(publication: Outcome<Publication>, now: int, cpuLoad: CpuLoadObservation): Outcome<Float> {
    if !ValidOutcome(publication) then Defect(Some(OTHER_FAILURE))
    else if !publication.Present? then Absent(publication.state, publication.reason, publication.cause)
    else
      var p := publication.value;
      if !p.utilization.Finite? || p.utilization.value < 0.0 || p.utilization.value > 100.0
          || !ValidTopology(p.topology)
      then Defect(Some(OTHER_FAILURE))
      else if now - p.sampledAt < 0 then Defect(Some(OTHER_FAILURE))
      else if now - p.sampledAt > MAXIMUM_AGE then Temporary()
      else if !cpuLoad.logicalCpuCount.Present? || cpuLoad.logicalCpuCount.value != p.topology.count
              || cpuLoad.signature != p.topology.signature then Temporary()
      else Good(p.utilization)
  }

  /** Samples as the collector makes them, taken at times that do not exceed `now`. */
  predicate ValidHistory(events: seq<Event>, now: int) {
    forall i :: 0 <= i < |events| && events[i].Sampled? ==>
      && ValidOutcome(events[i].sample) && events[i].at <= now
      && (events[i].sample.Present? ==> ValidTopology(events[i].sample.value.topology))
  }

  /** A valid outcome that, if present, is a percentage of a valid topology and not from the future. */
  predicate Sound(p: Outcome<Publication>, now: int) {
    && ValidOutcome(p)
    && (p.Present? ==>
          && p.value.utilization.Finite? && 0.0 <= p.value.utilization.value <= 100.0
          && ValidTopology(p.value.topology) && p.value.sampledAt <= now)
  }

  /** With a monotone clock, whatever the observer stores is sound, after any history of samples and stops. */
  lemma {:induction false} PublicationIsSound(events: seq<Event>, now: int)
    requires ValidHistory(events, now) && forall i :: 0 <= i < |events| ==> !events[i].Defected?
    ensures Sound(StateAfter(events).publication, now)
  {
    if events != [] {
      var before, last := events[..|events| - 1], events[|events| - 1];
      PublicationIsSound(before, now);
      var s := StateAfter(before);
      if last.Sampled? && last.sample.Present? && s.baseline.Some?
          && Comparable(s.baseline.value, Timed(last.sample.value, last.at))
      {
        UtilizationIsPercentage(s.baseline.value, Timed(last.sample.value, last.at));
      }
    }
  }

  /** The reader never turns a sound publication into a defect. It passes the value on exactly if it is at most
      1.25 s old and its topology is the one the cycle saw. */
  lemma CopyNeverDefect(p: Outcome<Publication>, now: int, cpuLoad: CpuLoadObservation)
    requires Sound(p, now)
    ensures var copy := CopyCpu(p, now, cpuLoad);
      && ValidOutcome(copy)
      && (copy.Present? <==>
            && p.Present? && now - p.value.sampledAt <= MAXIMUM_AGE
            && cpuLoad.logicalCpuCount.Present? && cpuLoad.logicalCpuCount.value == p.value.topology.count
            && cpuLoad.signature == p.value.topology.signature)
      && (copy.Present? ==> copy.value == p.value.utilization && NonNegative(copy.value) && copy.value.value <= 100.0)
      && (!copy.Present? ==>
            && copy.reason == (if p.Present? then TEMPORARILY_UNAVAILABLE else p.reason)
            && (!p.Present? ==> copy.cause == p.cause))
  {
  }

  /** So with a monotone clock no cycle becomes a defect because of what the observer stored. */
  lemma StoredNeverDefect(events: seq<Event>, now: int, cpuLoad: CpuLoadObservation)
    requires ValidHistory(events, now) && forall i :: 0 <= i < |events| ==> !events[i].Defected?
    ensures ValidOutcome(CopyCpu(StateAfter(events).publication, now, cpuLoad))
  {
    PublicationIsSound(events, now);
    CopyNeverDefect(StateAfter(events).publication, now, cpuLoad);
  }

  // ----- The schedule -----

  /** The catch-up loop: the next target strictly ahead of the clock. */
  method CatchUp(target: int, now: int) returns (next: int)
    ensures next == Advance(target, now)
  {
    next := target;
    while next <= now
      invariant Advance(target, now) == Advance(next, now)
      decreases now - next
    {
      next := next + PERIOD;
    }
  }

  function Advance(target: int, now: int): int
    decreases now - target
  {
    if target <= now then Advance(target + PERIOD, now) else target
  }

  /** The target moves by whole periods, and no further than needed to be ahead of the clock. */
  lemma {:induction false} AdvanceIsNext(target: int, now: int)
    ensures Advance(target, now) > now
    ensures Advance(target, now) == target || Advance(target, now) - PERIOD <= now
    ensures exists k: nat :: Advance(target, now) == target + k * PERIOD
    decreases now - target
  {
    if target <= now {
      AdvanceIsNext(target + PERIOD, now);
      var k: nat :| Advance(target + PERIOD, now) == target + PERIOD + k * PERIOD;
      assert Advance(target, now) == target + (k + 1) * PERIOD;
    } else {
      assert Advance(target, now) == target + 0 * PERIOD;
    }
  }

  /** One round of the sampling loop: when it observed, and the clock after it had observed. */
  datatype Round = Round(observedAt: int, after: int)

  /** The target the loop waits for before round `i`. */
  function Target(start: int, rounds: seq<Round>, i: nat): int
    requires i <= |rounds|
  {
    if i == 0 then start + PERIOD else Advance(Target(start, rounds, i - 1), rounds[i - 1].after)
  }

  /** The clock is monotone, and a wait does not return before its target. */
  ghost predicate Monotone(start: int, rounds: seq<Round>) {
    forall i :: 0 <= i < |rounds| ==> Target(start, rounds, i) <= rounds[i].observedAt <= rounds[i].after
  }

  /** The schedule does not drift: every target is the start plus a whole number of seconds, later than the
      previous one, strictly ahead of the clock when it is set, and less than a second ahead unless it was the first. */
  lemma {:induction false} ScheduleDoesNotDrift(start: int, rounds: seq<Round>, i: nat)
    requires Monotone(start, rounds) && i <= |rounds|
    ensures exists k: nat :: k > i && Target(start, rounds, i) == start + k * 1_000_000_000
    ensures i > 0 ==> Target(start, rounds, i) > rounds[i - 1].after >= Target(start, rounds, i - 1)
    ensures i > 0 ==> Target(start, rounds, i) - 1_000_000_000 <= rounds[i - 1].after
  {
    if i == 0 {
      assert Target(start, rounds, 0) == start + 1 * PERIOD;
    } else {
      ScheduleDoesNotDrift(start, rounds, i - 1);
      var before, after := Target(start, rounds, i - 1), rounds[i - 1].after;
      AdvanceIsNext(before, after);
      var k: nat :| k > i - 1 && before == start + k * PERIOD;
      var m: nat :| Advance(before, after) == before + m * PERIOD;
      assert m > 0;
      assert Target(start, rounds, i) == start + (k + m) * PERIOD;
    }
  }
}
