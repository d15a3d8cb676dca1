/** The single-flight protocol of the collection coordinator, over arbitrary interleavings.

    Each critical section, channel close and once-call is one step. Callers and cycles are numbered;
    a cycle's number is its position in `cycles`. A run is a list of steps applied to `Initial`.
 */
module Coordinator {
  import opened Text

  /** An error is known by its identity; only some errors are internal defects. */
  datatype Error = Defect(id: nat) | Expected(id: nat)

  /** What a cycle or a call returns: `Blank` is the zero value both result fields start with. */
  datatype Answer = Blank | Encoded(id: nat) | Failed(error: Error)

  /** Where a cycle's goroutine stands, with the outcome it holds in its local variables. */
  datatype Phase =
    | Collecting
    | Collected(outcome: Answer)
    | Published(outcome: Answer)
    | Notified(outcome: Answer)
    | Finished

  /** One collection cycle: its goroutine, the result fields callers read, and how often `done` was closed. */
  datatype Cycle = Cycle(phase: Phase, result: Answer, closes: nat)

  datatype Caller =
    | Arrived                 // has not entered the critical section yet
    | Latched(error: Error)   // rejected a missing context and latched an error; has yet to notify
    | Waiting(cycle: nat)     // selects between its own cancellation and the cycle's `done`
    | Detached(cycle: nat)    // returned its own cancellation error while waiting
    | Woken(cycle: nat, answer: Answer)
    | Refused(answer: Answer) // returned without joining a cycle

  datatype State = State(
    failed: Option<Error>,
    active: Option<nat>,
    cycles: seq<Cycle>,
    notified: seq<Error>,     // the errors passed to the fatal callback
    callers: map<nat, Caller>)

  const INITIAL := State(None, None, [], [], map[])

  datatype Step =
    | Arrive(caller: nat)
    | RejectMissingContext(caller: nat, defect: nat)
    | NotifyRejection(caller: nat)
    | RejectCancelled(caller: nat, error: nat)
    | Join(caller: nat)
    | Detach(caller: nat)
    | Wake(caller: nat)
    | Collect(cycle: nat, outcome: Answer)
    | Publish(cycle: nat)
    | Notify(cycle: nat)
    | Close(cycle: nat)

  predicate IsDefect(answer: Answer) {
    answer.Failed? && answer.error.Defect?
  }

  predicate Enabled(s: State, step: Step) {
    match step
    case Arrive(c) => c !in s.callers
    case RejectMissingContext(c, _) => c in s.callers && s.callers[c].Arrived?
    case NotifyRejection(c) => c in s.callers && s.callers[c].Latched?
    case RejectCancelled(c, _) => c in s.callers && s.callers[c].Arrived?
    case Join(c) => c in s.callers && s.callers[c].Arrived?
    case Detach(c) => c in s.callers && s.callers[c].Waiting?
    case Wake(c) =>
      && c in s.callers && s.callers[c].Waiting?
      && s.callers[c].cycle < |s.cycles| && s.cycles[s.callers[c].cycle].closes > 0
    case Collect(k, outcome) => k < |s.cycles| && s.cycles[k].phase.Collecting?
    case Publish(k) => k < |s.cycles| && s.cycles[k].phase.Collected?
    case Notify(k) => k < |s.cycles| && s.cycles[k].phase.Published?
    case Close(k) => k < |s.cycles| && s.cycles[k].phase.Notified?
  }

  function NotifyOnce(notified: seq<Error>, error: Error): seq<Error> {
    if notified == [] then [error] else notified
  }

  function Apply(s: State, step: Step): State
    requires Enabled(s, step)
  {
    match step
    case Arrive(c) => s.(callers := s.callers[c := Arrived])
    case RejectMissingContext(c, defect) =>
      var failed := if s.failed.None? then Defect(defect) else s.failed.value;
      s.(failed := Some(failed), callers := s.callers[c := Latched(failed)])
    case NotifyRejection(c) =>
      var error := s.callers[c].error;
      s.(notified := NotifyOnce(s.notified, error), callers := s.callers[c := Refused(Failed(error))])
    case RejectCancelled(c, error) => s.(callers := s.callers[c := Refused(Failed(Expected(error)))])
    case Join(c) =>
      if s.failed.Some? then s.(callers := s.callers[c := Refused(Failed(s.failed.value))])
      else if s.active.Some? then s.(callers := s.callers[c := Waiting(s.active.value)])
      else
        var k := |s.cycles|;
        s.(active := Some(k), cycles := s.cycles + [Cycle(Collecting, Blank, 0)], callers := s.callers[c := Waiting(k)])
    case Detach(c) => s.(callers := s.callers[c := Detached(s.callers[c].cycle)])
    case Wake(c) =>
      var k := s.callers[c].cycle;
      s.(callers := s.callers[c := Woken(k, s.cycles[k].result)])
    case Collect(k, outcome) => s.(cycles := s.cycles[k := s.cycles[k].(phase := Collected(outcome))])
    case Publish(k) =>
      var outcome := s.cycles[k].phase.outcome;
      s.(failed := if IsDefect(outcome) && s.failed.None? then Some(outcome.error) else s.failed,
         active := if s.active == Some(k) then None else s.active,
         cycles := s.cycles[k := s.cycles[k].(phase := Published(outcome), result := outcome)])
    case Notify(k) =>
      var outcome := s.cycles[k].phase.outcome;
      s.(notified := if IsDefect(outcome) then NotifyOnce(s.notified, outcome.error) else s.notified,
         cycles := s.cycles[k := s.cycles[k].(phase := Notified(outcome))])
    case Close(k) =>
      s.(cycles := s.cycles[k := s.cycles[k].(phase := Finished, closes := s.cycles[k].closes + 1)])
  }

  // ----- Runs -----

  predicate ValidRun(s: State, steps: seq<Step>)
    decreases |steps|
  {
    steps == [] || (Enabled(s, steps[0]) && ValidRun(Apply(s, steps[0]), steps[1..]))
  }

  function Final(s: State, steps: seq<Step>): State
    requires ValidRun(s, steps)
    decreases |steps|
  {
    if steps == [] then s else Final(Apply(s, steps[0]), steps[1..])
  }

  // ----- What every step keeps -----

  predicate Unpublished(c: Cycle) {
    c.phase.Collecting? || c.phase.Collected?
  }

  /** A cycle occupies `active` exactly while it is unpublished; then its result fields are blank and `done`
      is open. `done` is closed, once, only when the fields hold the outcome and a defect has been notified. */
  ghost predicate CycleInv(s: State, k: nat)
    requires k < |s.cycles|
  {
    var c := s.cycles[k];
    && (Unpublished(c) <==> s.active == Some(k))
    && (Unpublished(c) ==> c.result == Blank)
    && (c.phase.Published? || c.phase.Notified? ==> c.result == c.phase.outcome)
    && c.closes == (if c.phase.Finished? then 1 else 0)
    && (IsDefect(c.result) ==> s.failed.Some?)
    && (IsDefect(c.result) && (c.phase.Notified? || c.phase.Finished?) ==> s.notified != [])
  }

  ghost predicate CallerInv(s: State, c: Caller) {
    match c
    case Arrived => true
    case Latched(error) => s.failed == Some(error)
    case Waiting(k) => k < |s.cycles|
    case Detached(k) => k < |s.cycles|
    case Woken(k, answer) => k < |s.cycles| && s.cycles[k].closes == 1 && s.cycles[k].result == answer
    case Refused(answer) => answer.Failed?
  }

  ghost predicate PendingCaller(s: State, c: nat) {
    c in s.callers && s.callers[c].Latched?
  }

  ghost predicate PendingCycle(s: State, k: nat) {
    k < |s.cycles| && s.cycles[k].phase.Published? && IsDefect(s.cycles[k].phase.outcome)
  }

  /** Somebody is between latching a defect and notifying. */
  ghost predicate PendingNotification(s: State) {
    (exists c :: PendingCaller(s, c)) || (exists k :: PendingCycle(s, k))
  }

  ghost predicate Inv(s: State) {
    && (s.active.Some? ==> s.active.value < |s.cycles|)
    && (forall k :: 0 <= k < |s.cycles| ==> CycleInv(s, k))
    && (forall c :: c in s.callers ==> CallerInv(s, s.callers[c]))
    && |s.notified| <= 1
    && (s.notified != [] ==> s.failed.Some?)
    && (s.failed.Some? && s.notified == [] ==> PendingNotification(s))
  }

  lemma StepKeepsCycles(s: State, step: Step)
    requires Inv(s) && Enabled(s, step)
    ensures var t := Apply(s, step); forall k :: 0 <= k < |t.cycles| ==> CycleInv(t, k)
  {
    var t := Apply(s, step);
    forall k | 0 <= k < |t.cycles| ensures CycleInv(t, k) {
      if k < |s.cycles| {
        assert CycleInv(s, k);
      }
    }
  }

  /** Once `done` is closed nothing about a cycle changes any more. */
  lemma FinishedIsFinal(s: State, step: Step, k: nat)
    requires Inv(s) && Enabled(s, step) && k < |s.cycles|
    ensures |Apply(s, step).cycles| >= |s.cycles|
    ensures s.cycles[k].closes > 0 ==> s.cycles[k].closes == 1 && Apply(s, step).cycles[k] == s.cycles[k]
  {
    assert CycleInv(s, k);
  }

  lemma StepKeepsCallers(s: State, step: Step)
    requires Inv(s) && Enabled(s, step)
    ensures var t := Apply(s, step); forall c :: c in t.callers ==> CallerInv(t, t.callers[c])
  {
    var t := Apply(s, step);
    forall c | c in t.callers ensures CallerInv(t, t.callers[c]) {
      if c in s.callers {
        var before := s.callers[c];
        assert CallerInv(s, before);
        if before.Waiting? || before.Woken? {
          FinishedIsFinal(s, step, before.cycle);
        }
      }
    }
  }

  lemma StepKeepsPending(s: State, step: Step)
    requires Inv(s) && Enabled(s, step)
    ensures var t := Apply(s, step); t.failed.Some? && t.notified == [] ==> PendingNotification(t)
  {
    var t := Apply(s, step);
    if t.failed.Some? && t.notified == [] {
      if s.failed.None? {
        match step
        case RejectMissingContext(c, _) => assert PendingCaller(t, c);
        case Publish(k) => assert PendingCycle(t, k);
        case _ =>
      } else if c :| PendingCaller(s, c) {
        assert PendingCaller(t, c);
      } else {
        var k :| PendingCycle(s, k);
        assert PendingCycle(t, k);
      }
    }
  }

  lemma StepInv(s: State, step: Step)
    requires Inv(s) && Enabled(s, step)
    ensures Inv(Apply(s, step))
  {
    StepKeepsCycles(s, step);
    StepKeepsCallers(s, step);
    StepKeepsPending(s, step);
    if step.NotifyRejection? {
      assert CallerInv(s, s.callers[step.caller]);
    } else if step.Notify? {
      assert CycleInv(s, step.cycle);
    }
  }

  lemma {:induction false} RunInv(s: State, steps: seq<Step>)
    requires Inv(s) && ValidRun(s, steps)
    ensures Inv(Final(s, steps))
    decreases |steps|
  {
    if steps != [] {
      StepInv(s, steps[0]);
      RunInv(Apply(s, steps[0]), steps[1..]);
    }
  }

  // ----- Single flight -----

  /** At most one cycle is collecting or about to publish, in every reachable state. */
  lemma SingleFlight(steps: seq<Step>, j: nat, k: nat)
    requires ValidRun(INITIAL, steps)
    requires var s := Final(INITIAL, steps);
      j < |s.cycles| && k < |s.cycles| && Unpublished(s.cycles[j]) && Unpublished(s.cycles[k])
    ensures j == k && Final(INITIAL, steps).active == Some(j)
  {
    RunInv(INITIAL, steps);
    var s := Final(INITIAL, steps);
    assert CycleInv(s, j) && CycleInv(s, k);
  }

  /** `done` is closed at most once, and only after the result fields got their final value; all callers a
      cycle wakes get the same answer, and they get it after any notification the answer calls for. */
  lemma CallersAgree(steps: seq<Step>, c: nat, d: nat)
    requires ValidRun(INITIAL, steps)
    requires var s := Final(INITIAL, steps);
      && c in s.callers && s.callers[c].Woken? && d in s.callers && s.callers[d].Woken?
      && s.callers[c].cycle == s.callers[d].cycle
    ensures var s := Final(INITIAL, steps);
      && s.callers[c].answer == s.callers[d].answer
      && s.callers[c].cycle < |s.cycles| && s.cycles[s.callers[c].cycle].closes == 1
      && (IsDefect(s.callers[c].answer) ==> |s.notified| == 1)
  {
    RunInv(INITIAL, steps);
    var s := Final(INITIAL, steps);
    assert CallerInv(s, s.callers[c]) && CallerInv(s, s.callers[d]);
    assert CycleInv(s, s.callers[c].cycle);
  }

  /** The steps before and after position `i`. */
  lemma {:induction false} Splits(s: State, steps: seq<Step>, i: nat)
    requires ValidRun(s, steps) && i <= |steps|
    ensures ValidRun(s, steps[..i]) && ValidRun(Final(s, steps[..i]), steps[i..])
    ensures Final(Final(s, steps[..i]), steps[i..]) == Final(s, steps)
    decreases |steps|
  {
    if i > 0 {
      Splits(Apply(s, steps[0]), steps[1..], i - 1);
      assert steps[..i][1..] == steps[1..][..i - 1] && steps[i..] == steps[1..][i - 1..];
    } else {
      assert steps[..0] == [] && steps[0..] == steps;
    }
  }

  /** A caller holding the cycle's number `k`, woken, detached or still waiting. */
  predicate Holds(s: State, c: nat, k: nat) {
    c in s.callers && match s.callers[c]
                      case Waiting(j) => j == k
                      case Detached(j) => j == k
                      case Woken(j, _) => j == k
                      case _ => false
  }

  /** A caller only ever holds a cycle that was active, and still collecting or unpublished, when it joined. */
  lemma {:induction false} JoinedWhileActive(s: State, steps: seq<Step>, c: nat, k: nat) returns (i: nat)
    requires Inv(s) && ValidRun(s, steps) && !Holds(s, c, k) && Holds(Final(s, steps), c, k)
    ensures i < |steps| && steps[i] == Join(c) && ValidRun(s, steps[..i + 1])
    ensures var joined := Final(s, steps[..i + 1]);
      joined.active == Some(k) && k < |joined.cycles| && Unpublished(joined.cycles[k])
      && c in joined.callers && joined.callers[c] == Waiting(k)
    decreases |steps|
  {
    var t := Apply(s, steps[0]);
    StepInv(s, steps[0]);
    if Holds(t, c, k) {
      i := 0;
      assert steps[..1] == [steps[0]] && [steps[0]][1..] == [];
      assert CycleInv(t, k);
    } else {
      var j := JoinedWhileActive(t, steps[1..], c, k);
      i := j + 1;
      assert steps[..i + 1][1..] == steps[1..][..j + 1];
    }
  }

  // ----- What callers are told -----

  /** The outcome a cycle's goroutine holds or has published; none while it is collecting. */
  function Outcome(c: Cycle): Option<Answer> {
    match c.phase
    case Collecting => None
    case Collected(outcome) => Some(outcome)
    case Published(outcome) => Some(outcome)
    case Notified(outcome) => Some(outcome)
    case Finished => Some(c.result)
  }

  /** Where answers come from, given the steps taken so far: each cycle has collected once, if it has an outcome,
      and that is what it publishes and what its callers are told. */
  ghost predicate Provenance(s: State, past: seq<Step>) {
    && (forall k: nat, a :: Collect(k, a) in past ==> k < |s.cycles| && Outcome(s.cycles[k]) == Some(a))
    && (forall k :: 0 <= k < |s.cycles| && Outcome(s.cycles[k]).Some? ==>
          Collect(k, Outcome(s.cycles[k]).value) in past)
    && (forall k :: 0 <= k < |s.cycles| && !Unpublished(s.cycles[k]) ==>
          Outcome(s.cycles[k]) == Some(s.cycles[k].result))
    && (forall c, k, a :: c in s.callers && s.callers[c] == Woken(k, a) ==> Collect(k, a) in past)
  }

  ghost predicate Refusals(s: State, past: seq<Step>) {
    forall c, a :: c in s.callers && s.callers[c] == Refused(a) ==> TurnedAway(s, past, c, a)
  }

  /** A caller who joined no cycle was told the latched error, or its own cancellation. */
  predicate TurnedAway(s: State, past: seq<Step>, c: nat, a: Answer) {
    a.Failed? && (s.failed == Some(a.error) || (a.error.Expected? && RejectCancelled(c, a.error.id) in past))
  }

  lemma StepKeepsProvenance(s: State, past: seq<Step>, step: Step)
    requires Inv(s) && Provenance(s, past) && Enabled(s, step)
    ensures Provenance(Apply(s, step), past + [step])
  {
    var t := Apply(s, step);
    forall k | 0 <= k < |t.cycles| && Outcome(t.cycles[k]).Some?
      ensures Collect(k, Outcome(t.cycles[k]).value) in past + [step]
    {
      if k < |s.cycles| && Outcome(s.cycles[k]).Some? {
        assert Collect(k, Outcome(s.cycles[k]).value) in past;
      }
    }
    if step.Wake? {
      var k := s.callers[step.caller].cycle;
      assert CycleInv(s, k) && Collect(k, s.cycles[k].result) in past;
    }
  }

  lemma StepKeepsRefusals(s: State, past: seq<Step>, step: Step)
    requires Inv(s) && Refusals(s, past) && Enabled(s, step)
    ensures Refusals(Apply(s, step), past + [step])
  {
    var t := Apply(s, step);
    forall c, a | c in t.callers && t.callers[c] == Refused(a) ensures TurnedAway(t, past + [step], c, a) {
      if c in s.callers {
        assert CallerInv(s, s.callers[c]);
      }
    }
  }

  lemma {:induction false} RunKeepsProvenance(s: State, past: seq<Step>, steps: seq<Step>)
    requires Inv(s) && Provenance(s, past) && Refusals(s, past) && ValidRun(s, steps)
    ensures Provenance(Final(s, steps), past + steps) && Refusals(Final(s, steps), past + steps)
    decreases |steps|
  {
    if steps == [] {
      assert past + steps == past;
    } else {
      StepInv(s, steps[0]);
      StepKeepsProvenance(s, past, steps[0]);
      StepKeepsRefusals(s, past, steps[0]);
      RunKeepsProvenance(Apply(s, steps[0]), past + [steps[0]], steps[1..]);
      assert past + [steps[0]] + steps[1..] == past + steps;
    }
  }

  /** In every run each cycle collects at most once, publishes exactly what it collected, and every caller it
      wakes is told exactly that; every other caller is told the latched error or its own cancellation. */
  lemma CallersGetWhatWasCollected(steps: seq<Step>)
    requires ValidRun(INITIAL, steps)
    ensures var s := Final(INITIAL, steps);
      && (forall c, k, a :: c in s.callers && s.callers[c] == Woken(k, a) ==> Collect(k, a) in steps)
      && (forall c, a :: c in s.callers && s.callers[c] == Refused(a) ==> TurnedAway(s, steps, c, a))
      && (forall k :: 0 <= k < |s.cycles| && !Unpublished(s.cycles[k]) ==> Collect(k, s.cycles[k].result) in steps)
      && (forall k: nat, a, b :: Collect(k, a) in steps && Collect(k, b) in steps ==> a == b)
  {
    RunKeepsProvenance(INITIAL, [], steps);
    assert [] + steps == steps;
  }

  // ----- The failure latch -----

  /** The latch is write-once, and once it is set no cycle starts any more. */
  lemma {:induction false} LatchIsFinal(s: State, steps: seq<Step>)
    requires Inv(s) && ValidRun(s, steps) && s.failed.Some?
    ensures Final(s, steps).failed == s.failed
    ensures |Final(s, steps).cycles| == |s.cycles|
    ensures s.active.None? ==> Final(s, steps).active.None?
    decreases |steps|
  {
    if steps != [] {
      StepInv(s, steps[0]);
      LatchIsFinal(Apply(s, steps[0]), steps[1..]);
    }
  }

  /** The fatal callback runs at most once, never without a latched defect, and has run exactly once in every
      latched state in which nobody is still about to call it. */
  lemma NotifiedOnce(steps: seq<Step>)
    requires ValidRun(INITIAL, steps)
    ensures var s := Final(INITIAL, steps);
      && |s.notified| <= 1
      && (s.notified != [] ==> s.failed.Some?)
      && (!PendingNotification(s) ==> (|s.notified| == 1 <==> s.failed.Some?))
  {
    RunInv(INITIAL, steps);
  }

  /** The active cycle may still publish another defect than `latched`: it has not collected its outcome, or
      has collected another defect. */
  predicate MayDiffer(s: State, latched: Error) {
    && s.active.Some? && s.active.value < |s.cycles|
    && match s.cycles[s.active.value].phase
       case Collecting => true
       case Collected(outcome) => IsDefect(outcome) && outcome.error != latched
       case _ => false
  }

  /** A missing context latches a first defect while the active cycle may still publish another one. */
  predicate CanDiverge(s: State, step: Step) {
    step.RejectMissingContext? && s.failed.None? && MayDiffer(s, Defect(step.defect))
  }

  predicate NeverDiverges(s: State, steps: seq<Step>)
    requires ValidRun(s, steps)
    decreases |steps|
  {
    steps == [] || (!CanDiverge(s, steps[0]) && NeverDiverges(Apply(s, steps[0]), steps[1..]))
  }

  /** Every published or notified defect is the latched one, and the active cycle cannot publish another. */
  ghost predicate OneDefect(s: State) {
    && (s.failed.Some? ==> !MayDiffer(s, s.failed.value))
    && (forall k :: 0 <= k < |s.cycles| && IsDefect(s.cycles[k].result) ==> s.failed == Some(s.cycles[k].result.error))
    && (forall e :: e in s.notified ==> s.failed == Some(e))
  }

  lemma StepKeepsOneDefect(s: State, step: Step)
    requires Inv(s) && OneDefect(s) && Enabled(s, step) && !CanDiverge(s, step)
    ensures OneDefect(Apply(s, step))
  {
    match step
    case NotifyRejection(c) => assert CallerInv(s, s.callers[c]);
    case Collect(k, _) => assert CycleInv(s, k);
    case Publish(k) => assert CycleInv(s, k);
    case Notify(k) => assert CycleInv(s, k);
    case _ =>
  }

  /** The notified error is the latched one in every run without a diverging step. */
  lemma {:induction false} NotifiesTheLatch(s: State, steps: seq<Step>)
    requires Inv(s) && OneDefect(s) && ValidRun(s, steps) && NeverDiverges(s, steps)
    ensures OneDefect(Final(s, steps))
    decreases |steps|
  {
    if steps != [] {
      StepInv(s, steps[0]);
      StepKeepsOneDefect(s, steps[0]);
      NotifiesTheLatch(Apply(s, steps[0]), steps[1..]);
    }
  }

  /** Another error was notified than the latched one. */
  ghost predicate NotifiedAnother(s: State) {
    exists e :: e in s.notified && s.failed != Some(e)
  }

  /** `more` goes on from `s` without a further diverging step and ends with another error notified. */
  ghost predicate LeadsToAnother(s: State, more: seq<Step>) {
    ValidRun(s, more) && NeverDiverges(s, more) && NotifiedAnother(Final(s, more))
  }

  lemma NoDivergenceOnceLatched(s: State, more: seq<Step>)
    requires Inv(s) && ValidRun(s, more) && s.failed.Some?
    ensures NeverDiverges(s, more)
    decreases |more|
  {
    if more != [] {
      var t := Apply(s, more[0]);
      StepInv(s, more[0]);
      LatchIsFinal(s, more[..1]);
      assert more[..1] == [more[0]] && more[..1][1..] == [];
      NoDivergenceOnceLatched(t, more[1..]);
    }
  }

  /** One more step at the end of a run. */
  lemma RunOne(s: State, step: Step)
    requires Enabled(s, step)
    ensures ValidRun(s, [step]) && Final(s, [step]) == Apply(s, step)
  {
    assert [step][1..] == [];
  }

  lemma RunNext(s: State, step: Step, rest: seq<Step>)
    requires Enabled(s, step) && ValidRun(Apply(s, step), rest)
    ensures ValidRun(s, [step] + rest) && Final(s, [step] + rest) == Final(Apply(s, step), rest)
  {
    assert ([step] + rest)[1..] == rest;
  }

  /** Publishing and notifying a collected defect that differs from the latched one. */
  lemma PublishesAnother(s: State, k: nat, error: Error) returns (more: seq<Step>)
    requires s.failed.Some? && s.notified == [] && k < |s.cycles| && s.cycles[k].phase == Collected(Failed(error))
    requires error.Defect? && s.failed != Some(error)
    ensures ValidRun(s, more) && NotifiedAnother(Final(s, more))
  {
    var published := Apply(s, Publish(k));
    var notified := Apply(published, Notify(k));
    RunOne(published, Notify(k));
    RunNext(s, Publish(k), [Notify(k)]);
    more := [Publish(k)] + [Notify(k)];
    assert error in notified.notified && notified.failed == s.failed;
  }

  lemma DivergingStepDiverges(s: State, step: Step) returns (more: seq<Step>)
    requires Inv(s) && OneDefect(s) && Enabled(s, step) && CanDiverge(s, step)
    ensures LeadsToAnother(Apply(s, step), more)
  {
    var k, t := s.active.value, Apply(s, step);
    StepInv(s, step);
    if s.cycles[k].phase.Collecting? {
      var other := Defect(step.defect + 1);
      var collected := Apply(t, Collect(k, Failed(other)));
      var rest := PublishesAnother(collected, k, other);
      RunNext(t, Collect(k, Failed(other)), rest);
      more := [Collect(k, Failed(other))] + rest;
    } else {
      more := PublishesAnother(t, k, s.cycles[k].phase.outcome.error);
    }
    NoDivergenceOnceLatched(t, more);
  }

  /** The condition is exact: after a step, a continuation without a further diverging step can notify another
      error than the latched one if and only if the step was diverging. */
  lemma DivergesExactly(s: State, step: Step)
    requires Inv(s) && OneDefect(s) && Enabled(s, step)
    ensures (exists more :: LeadsToAnother(Apply(s, step), more)) <==> CanDiverge(s, step)
  {
    if CanDiverge(s, step) {
      var more := DivergingStepDiverges(s, step);
    } else {
      StepInv(s, step);
      StepKeepsOneDefect(s, step);
      forall more | ValidRun(Apply(s, step), more) && NeverDiverges(Apply(s, step), more)
        ensures !NotifiedAnother(Final(Apply(s, step), more))
      {
        NotifiesTheLatch(Apply(s, step), more);
      }
    }
  }

  lemma {:induction false} RunAppend(s: State, a: seq<Step>, b: seq<Step>)
    requires ValidRun(s, a) && ValidRun(Final(s, a), b)
    ensures ValidRun(s, a + b) && Final(s, a + b) == Final(Final(s, a), b)
    decreases |a|
  {
    if a == [] {
      assert a + b == b;
    } else {
      RunAppend(Apply(s, a[0]), a[1..], b);
      assert (a + b)[1..] == a[1..] + b;
    }
  }

  /** A caller waits for the cycle it started, and another one has arrived. */
  const STARTED := State(None, Some(0), [Cycle(Collecting, Blank, 0)], [], map[0 := Waiting(0), 1 := Arrived])
  const START := [Arrive(0), Join(0), Arrive(1)]

  lemma StartRuns()
    ensures ValidRun(INITIAL, START) && Final(INITIAL, START) == STARTED
  {
    var arrived := Apply(INITIAL, Arrive(0));
    var joined := Apply(arrived, Join(0));
    RunOne(joined, Arrive(1));
    RunNext(arrived, Join(0), [Arrive(1)]);
    RunNext(INITIAL, Arrive(0), [Join(0)] + [Arrive(1)]);
    assert START == [Arrive(0)] + ([Join(0)] + [Arrive(1)]);
    assert Apply(joined, Arrive(1)) == STARTED;
  }

  /** The second caller's defect is latched before the cycle collects its own defect, if `early`, or after. */
  function Disturb(early: bool): seq<Step> {
    var latch, collect := RejectMissingContext(1, 7), Collect(0, Failed(Defect(8)));
    if early then [latch] + [collect] else [collect] + [latch]
  }

  lemma DisturbRuns(early: bool)
    ensures ValidRun(STARTED, Disturb(early))
    ensures var s := Final(STARTED, Disturb(early));
      && s.failed == Some(Defect(7)) && s.notified == []
      && s.cycles == [Cycle(Collected(Failed(Defect(8))), Blank, 0)]
  {
    var first, second := Disturb(early)[0], Disturb(early)[1];
    RunOne(Apply(STARTED, first), second);
    RunNext(STARTED, first, [second]);
  }

  /** Both kinds of divergence happen in runs from the initial state. */
  lemma MayNotifyAnotherDefect(early: bool) returns (run: seq<Step>)
    ensures START + Disturb(early) <= run
    ensures ValidRun(INITIAL, run) && NotifiedAnother(Final(INITIAL, run))
  {
    StartRuns();
    DisturbRuns(early);
    var disturbed := Final(STARTED, Disturb(early));
    var more := PublishesAnother(disturbed, 0, Defect(8));
    RunAppend(STARTED, Disturb(early), more);
    RunAppend(INITIAL, START, Disturb(early) + more);
    run := START + (Disturb(early) + more);
    assert run == START + Disturb(early) + more;
  }

  // ----- Request cancellation -----

  function Erase(steps: seq<Step>): seq<Step> {
    if steps == [] then [] else (if steps[0].Detach? then [] else [steps[0]]) + Erase(steps[1..])
  }

  /** The states differ only in callers that have detached in `s` and still wait in `t`. */
  ghost predicate SameButDetached(s: State, t: State) {
    && s.failed == t.failed && s.active == t.active && s.cycles == t.cycles && s.notified == t.notified
    && s.callers.Keys == t.callers.Keys
    && forall c :: c in s.callers ==>
         s.callers[c] == t.callers[c] || (s.callers[c].Detached? && t.callers[c] == Waiting(s.callers[c].cycle))
  }

  lemma StepIgnoresDetached(s: State, t: State, step: Step)
    requires SameButDetached(s, t) && Enabled(s, step)
    ensures if step.Detach? then SameButDetached(Apply(s, step), t)
            else Enabled(t, step) && SameButDetached(Apply(s, step), Apply(t, step))
  {
  }

  /** Cancelling requests does not interfere: without the cancellations of joined callers, the run is still
      valid and leaves the same cycles, results, latch, notifications and other callers' answers. */
  lemma {:induction false} CancellationDoesNotInterfere(s: State, t: State, steps: seq<Step>)
    requires SameButDetached(s, t) && ValidRun(s, steps)
    ensures ValidRun(t, Erase(steps)) && SameButDetached(Final(s, steps), Final(t, Erase(steps)))
    decreases |steps|
  {
    if steps != [] {
      StepIgnoresDetached(s, t, steps[0]);
      var s' := Apply(s, steps[0]);
      if steps[0].Detach? {
        CancellationDoesNotInterfere(s', t, steps[1..]);
        assert Erase(steps) == Erase(steps[1..]);
      } else {
        CancellationDoesNotInterfere(s', Apply(t, steps[0]), steps[1..]);
        assert Erase(steps)[1..] == Erase(steps[1..]);
      }
    }
  }

  // ----- The fields under the mutex -----

  function Results(cycles: seq<Cycle>): seq<Answer> {
    seq(|cycles|, i requires 0 <= i < |cycles| => cycles[i].result)
  }

  /** What a caller finds in its critical section: the latched error, or the cycle to wait for, which it may have to
      start. */
  datatype Entry = Rejected(error: Error) | Joined(cycle: nat, starts: bool)

  /** The shared fields, and the critical sections that change them. Each is the step of the same meaning. */
  class SharedFields {
    var failed: Option<Error>
    var active: Option<nat>
    /** The result fields of the cycles, by number. */
    var results: seq<Answer>

    constructor ()
      ensures Shows(INITIAL)
    {
      failed, active, results := None, None, [];
    }

    ghost predicate Shows(s: State)
      reads this
    {
      failed == s.failed && active == s.active && results == Results(s.cycles)
    }

    method Enter(caller: nat, ghost s: State) returns (entry: Entry)
      requires Shows(s) && Enabled(s, Join(caller))
      modifies this`active, this`results
      ensures Shows(Apply(s, Join(caller)))
      ensures Apply(s, Join(caller)).callers[caller]
           == match entry case Rejected(error) => Refused(Failed(error)) case Joined(k, _) => Waiting(k)
      ensures entry.Joined? && entry.starts <==> |Apply(s, Join(caller)).cycles| == |s.cycles| + 1
    {
      if failed.Some? {
        return Rejected(failed.value);
      }
      var starts := active.None?;
      if starts {
        active, results := Some(|results|), results + [Blank];
      }
      return Joined(active.value, starts);
    }

    /** The latching half of `fail`; the caller then notifies with the returned error. */
    method Latch(caller: nat, defect: nat, ghost s: State) returns (error: Error)
      requires Shows(s) && Enabled(s, RejectMissingContext(caller, defect))
      modifies this`failed
      ensures Shows(Apply(s, RejectMissingContext(caller, defect)))
      ensures Apply(s, RejectMissingContext(caller, defect)).callers[caller] == Latched(error)
    {
      if failed.None? {
        failed := Some(Defect(defect));
      }
      return failed.value;
    }

    /** The critical section at the end of cycle `k`. */
    method Publish(k: nat, outcome: Answer, ghost s: State)
      requires Shows(s) && Enabled(s, Step.Publish(k)) && s.cycles[k].phase.outcome == outcome
      modifies this`failed, this`active, this`results
      ensures Shows(Apply(s, Step.Publish(k)))
    {
      if IsDefect(outcome) && failed.None? {
        failed := Some(outcome.error);
      }
      results := results[k := outcome];
      if active == Some(k) {
        active := None;
      }
    }
  }
}
