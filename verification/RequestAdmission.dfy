/** Admission to the snapshot provider: a failure latch, eight slots without a queue, and one fatal notification.

    A request that passed the routing checks is known by a number. Loads and stores of the latch, channel
    operations and once-calls are one step each, and panics may strike anywhere outside the fatal callback.
 */
module RequestAdmission {
  const LIMIT: nat := 8

  /** What the provider gave: a valid snapshot, an expected failure, or anything else, a panic included. */
  datatype Provided = Snapshot | Expected | Faulty

  /** The response written: a status, none if the client had gone, or after a panic whatever had been committed
      by then, an internal error at the latest. */
  datatype Response = Ok | InternalError | Unavailable | Nothing | Broken

  datatype Phase =
    | Arrived
    | Unlatched                          // saw the latch unset
    | Providing                          // holds a slot, inside the provider
    | Provided(result: Provided)         // holds a slot
    | Faulted                            // holds a slot, about to set the latch
    | Latched                            // holds a slot, about to notify
    | Leaving(response: Response)        // holds a slot, about to give it back
    | Unwinding                          // a panic is about to give the slot back
    | Recovering                         // about to set the latch after a panic
    | Recovered                          // about to notify after a panic
    | Finished(response: Response)

  datatype State = State(slots: nat, failed: bool, fatals: nat, requests: map<nat, Phase>)

  const INITIAL := State(0, false, 0, map[])

  datatype Step =
    | Arrive(request: nat)
    | CheckLatch(request: nat)
    | Admit(request: nat)
    | Return(request: nat, result: Provided)
    | Decide(request: nat, gone: bool, late: bool)
    | SetLatch(request: nat)
    | Notify(request: nat)
    | GiveBack(request: nat)
    | Panic(request: nat)

  predicate Holds(p: Phase) {
    p.Providing? || p.Provided? || p.Faulted? || p.Latched? || p.Leaving? || p.Unwinding?
  }

  predicate MayPanic(p: Phase) {
    p.Arrived? || p.Unlatched? || p.Provided? || p.Faulted? || p.Latched? || p.Leaving?
  }

  predicate Enabled(s: State, step: Step) {
    if step.Arrive? then step.request !in s.requests
    else
      && step.request in s.requests
      && var p := s.requests[step.request];
         match step
         case CheckLatch(_) => p.Arrived?
         case Admit(_) => p.Unlatched?
         case Return(_, _) => p.Providing?
         case Decide(_, _, _) => p.Provided?
         case SetLatch(_) => p.Faulted? || p.Recovering?
         case Notify(_) => p.Latched? || p.Recovered?
         case GiveBack(_) => (p.Leaving? || p.Unwinding?) && s.slots > 0
         case Panic(_) => MayPanic(p)
  }

  /** The response to what the provider gave, as long as it is no fault. */
  function Respond(s: State, result: Provided, gone: bool, late: bool): Phase {
    if gone then Leaving(Nothing)
    else if s.failed then Leaving(InternalError)
    else match result
      case Expected => Leaving(Unavailable)
      case Faulty => Faulted
      case Snapshot => Leaving(if late then Unavailable else Ok)
  }

  function Move(s: State, r: nat, p: Phase): State {
    s.(requests := s.requests[r := p])
  }

  function Apply(s: State, step: Step): State
    requires Enabled(s, step)
  {
    match step
    case Arrive(r) => Move(s, r, Arrived)
    case CheckLatch(r) => Move(s, r, if s.failed then Finished(Unavailable) else Unlatched)
    case Admit(r) =>
      if s.slots < LIMIT then Move(s, r, Providing).(slots := s.slots + 1) else Move(s, r, Finished(Unavailable))
    case Return(r, result) => Move(s, r, Provided(result))
    case Decide(r, gone, late) => Move(s, r, Respond(s, s.requests[r].result, gone, late))
    case SetLatch(r) => Move(s, r, if s.requests[r].Faulted? then Latched else Recovered).(failed := true)
    case Notify(r) =>
      Move(s, r, if s.requests[r].Latched? then Leaving(InternalError) else Finished(Broken))
        .(fatals := if s.fatals == 0 then 1 else s.fatals)
    case GiveBack(r) =>
      Move(s, r, if s.requests[r].Leaving? then Finished(s.requests[r].response) else Recovering).(slots := s.slots - 1)
    case Panic(r) => Move(s, r, if Holds(s.requests[r]) then Unwinding else Recovering)
  }

  predicate ValidRun(s: State, steps: seq<Step>)
    decreases |steps|
  {
    steps == [] || (Enabled(s, steps[0]) && ValidRun(Apply(s, steps[0]), steps[1..]))
  }

  function Final(s: State, steps: seq<Step>): State
    requires ValidRun(s, steps)
    decreases |steps|
  {
    if steps == [] then s else Final(Apply(s, steps[0]), steps[1..])
  }

  // ----- What every step keeps -----

  function Holding(requests: map<nat, Phase>): set<nat> {
    set r | r in requests && Holds(requests[r])
  }

  /** A request that has set the latch, or is about to because of a panic, and has yet to notify. */
  predicate Owes(p: Phase) {
    p.Latched? || p.Unwinding? || p.Recovering? || p.Recovered?
  }

  ghost predicate SomeoneOwes(s: State) {
    exists r :: r in s.requests && Owes(s.requests[r])
  }

  function HoldingCount(requests: map<nat, Phase>): nat {
    |Holding(requests)|
  }

  predicate HoldsSlot(requests: map<nat, Phase>, r: nat) {
    r in requests && Holds(requests[r])
  }

  function Weight(held: bool): int {
    if held then 1 else 0
  }

  ghost predicate Inv(s: State) {
    && s.slots == HoldingCount(s.requests) <= LIMIT
    && s.fatals <= 1
    && (s.fatals == 1 ==> s.failed)
    && (s.failed && s.fatals == 0 ==> SomeoneOwes(s))
    && (forall r :: r in s.requests && (s.requests[r].Latched? || s.requests[r].Recovered?) ==> s.failed)
  }

  lemma HoldingUpdate(requests: map<nat, Phase>, r: nat, p: Phase)
    ensures HoldingCount(requests[r := p]) == HoldingCount(requests) + Weight(Holds(p)) - Weight(HoldsSlot(requests, r))
  {
    var before, after := Holding(requests), Holding(requests[r := p]);
    assert after - {r} == before - {r};
    assert |before| == |before - {r}| + Weight(r in before);
    assert |after| == |after - {r}| + Weight(r in after);
  }

  lemma StepKeepsDebt(s: State, step: Step)
    requires Inv(s) && Enabled(s, step)
    ensures var t := Apply(s, step); t.failed && t.fatals == 0 ==> SomeoneOwes(t)
  {
    var t := Apply(s, step);
    if t.failed && t.fatals == 0 {
      if s.failed {
        var r :| r in s.requests && Owes(s.requests[r]);
        assert r in t.requests && Owes(t.requests[r]);
      } else {
        assert Owes(t.requests[step.request]);
      }
    }
  }

  lemma StepInv(s: State, step: Step)
    requires Inv(s) && Enabled(s, step)
    ensures Inv(Apply(s, step))
  {
    var t := Apply(s, step);
    HoldingUpdate(s.requests, step.request, t.requests[step.request]);
    StepKeepsDebt(s, step);
  }

  lemma {:induction false} RunInv(s: State, steps: seq<Step>)
    requires Inv(s) && ValidRun(s, steps)
    ensures Inv(Final(s, steps))
    decreases |steps|
  {
    if steps != [] {
      StepInv(s, steps[0]);
      RunInv(Apply(s, steps[0]), steps[1..]);
    }
  }

  // ----- Limits -----

  function Inside(requests: map<nat, Phase>): set<nat> {
    set r | r in requests && requests[r].Providing?
  }

  /** In every reachable state the slots are the requests that hold one, at most eight, so at most eight are
      inside the provider; and giving a slot back never blocks. */
  lemma AtMostEightInside(steps: seq<Step>, r: nat)
    requires ValidRun(INITIAL, steps)
    ensures var s := Final(INITIAL, steps);
      && s.slots == |Holding(s.requests)| <= 8
      && |Inside(s.requests)| <= 8
      && (r in s.requests && (s.requests[r].Leaving? || s.requests[r].Unwinding?) ==> Enabled(s, GiveBack(r)))
  {
    RunInv(INITIAL, steps);
    var s := Final(INITIAL, steps);
    Smaller(Inside(s.requests), Holding(s.requests));
    if r in s.requests && Holds(s.requests[r]) {
      assert r in Holding(s.requests);
    }
  }

  /** A request that passed the latch is turned away exactly if eight others hold a slot. */
  lemma TurnedAwayOnlyAtLimit(steps: seq<Step>, r: nat)
    requires ValidRun(INITIAL, steps) && Enabled(Final(INITIAL, steps), Admit(r))
    ensures var s := Final(INITIAL, steps);
      var t := Apply(s, Admit(r));
      if |Holding(s.requests)| == 8 then t.requests[r] == Finished(Unavailable) else t.requests[r] == Providing
  {
    RunInv(INITIAL, steps);
  }

  lemma {:induction false} Smaller(a: set<nat>, b: set<nat>)
    requires a <= b
    ensures |a| <= |b|
  {
    if x :| x in a {
      Smaller(a - {x}, b - {x});
    }
  }

  // ----- Failure -----

  /** The latch is never reset, the fatal callback fires at most once, and only after the latch was set; when no
      request is on its way any more, it has fired exactly if the latch is set. */
  lemma FatalOnce(steps: seq<Step>)
    requires ValidRun(INITIAL, steps)
    ensures var s := Final(INITIAL, steps);
      && s.fatals <= 1 && (s.fatals == 1 ==> s.failed)
      && ((forall r :: r in s.requests ==> s.requests[r].Finished?) ==> (s.fatals == 1 <==> s.failed))
  {
    RunInv(INITIAL, steps);
  }

  /** Where a request can be if its latch check follows the failure. */
  predicate Excluded(s: State, r: nat) {
    r !in s.requests
        || (var p := s.requests[r]; p.Arrived? || p.Recovering? || p.Recovered? || (p.Finished? && p.response != Ok))
  }

  /** A request whose latch check follows a failure never reaches the provider and never gets a snapshot. */
  lemma {:induction false} NotAdmittedAfterFailure(s: State, steps: seq<Step>, r: nat)
    requires ValidRun(s, steps) && s.failed && Excluded(s, r)
    ensures Final(s, steps).failed && Excluded(Final(s, steps), r)
    decreases |steps|
  {
    if steps != [] {
      NotAdmittedAfterFailure(Apply(s, steps[0]), steps[1..], r);
    }
  }

  predicate Succeeding(s: State, r: nat) {
    r in s.requests && (s.requests[r] == Leaving(Ok) || s.requests[r] == Finished(Ok))
  }

  /** After a failure, no request that was not already answering with a snapshot does so, wherever it was. */
  lemma {:induction false} NoSuccessAfterFailure(s: State, steps: seq<Step>, r: nat)
    requires ValidRun(s, steps) && s.failed && !Succeeding(s, r)
    ensures Final(s, steps).failed && !Succeeding(Final(s, steps), r)
    decreases |steps|
  {
    if steps != [] {
      NoSuccessAfterFailure(Apply(s, steps[0]), steps[1..], r);
    }
  }

  /** Where a request can be after the provider's result was found faulty, and what holds there. */
  predicate OnFaultPath(s: State, r: nat) {
    && r in s.requests
    && match s.requests[r]
       case Faulted => true
       case Latched => s.failed
       case Leaving(response) => response == InternalError && s.failed && s.fatals == 1
       case Unwinding => true
       case Recovering => true
       case Recovered => s.failed
       case Finished(response) => (response == InternalError || response == Broken) && s.failed && s.fatals == 1
       case _ => false
  }

  lemma {:induction false} StaysOnFaultPath(s: State, steps: seq<Step>, r: nat)
    requires Inv(s) && ValidRun(s, steps) && OnFaultPath(s, r)
    ensures OnFaultPath(Final(s, steps), r)
    decreases |steps|
  {
    if steps != [] {
      StepInv(s, steps[0]);
      StaysOnFaultPath(Apply(s, steps[0]), steps[1..], r);
    }
  }

  /** A faulty result that reaches a client who is still there sets the latch and notifies, unless both were done
      before, ahead of the request's end; and the answer is an internal error. */
  lemma FaultIsLatched(before: seq<Step>, r: nat, late: bool, after: seq<Step>)
    requires ValidRun(INITIAL, before) && !Final(INITIAL, before).failed
    requires r in Final(INITIAL, before).requests && Final(INITIAL, before).requests[r] == Phase.Provided(Faulty)
    requires ValidRun(Apply(Final(INITIAL, before), Decide(r, false, late)), after)
    ensures var t := Final(Apply(Final(INITIAL, before), Decide(r, false, late)), after);
      && r in t.requests
      && (t.requests[r].Finished? ==>
            t.failed && t.fatals == 1 && (t.requests[r].response == InternalError || t.requests[r].response == Broken))
  {
    RunInv(INITIAL, before);
    StepInv(Final(INITIAL, before), Decide(r, false, late));
    StaysOnFaultPath(Apply(Final(INITIAL, before), Decide(r, false, late)), after, r);
  }

  // ----- Where responses come from -----

  /** A snapshot, decided on in time for a client who was there. */
  predicate Succeeded(past: seq<Step>, r: nat) {
    Return(r, Snapshot) in past && Decide(r, false, false) in past
  }

  /** An expected failure, or a snapshot that came too late. */
  predicate Failed(past: seq<Step>, r: nat) {
    Return(r, Expected) in past || (Return(r, Snapshot) in past && Decide(r, false, true) in past)
  }

  ghost predicate Unprovided(past: seq<Step>, r: nat) {
    forall result :: Return(r, result) !in past
  }

  /** What the past says about a request, by where it is. */
  ghost predicate Story(p: Phase, failed: bool, past: seq<Step>, r: nat) {
    match p
    case Arrived => Unprovided(past, r)
    case Unlatched => Unprovided(past, r)
    case Providing => Unprovided(past, r)
    case Provided(result) => Return(r, result) in past
    case Faulted => Return(r, Faulty) in past
    case Latched => failed && Return(r, Faulty) in past
    case Leaving(response) => response != Broken && Told(response, failed, past, r)
    case Finished(response) => (response == Unavailable && Unprovided(past, r)) || Told(response, failed, past, r)
    case _ => true
  }

  predicate Told(response: Response, failed: bool, past: seq<Step>, r: nat) {
    match response
    case Ok => Succeeded(past, r)
    case Unavailable => Failed(past, r)
    case Nothing => Decide(r, true, false) in past || Decide(r, true, true) in past
    case InternalError => failed
    case Broken => true
  }

  ghost predicate Stories(s: State, past: seq<Step>) {
    && (forall r :: r in s.requests ==> Story(s.requests[r], s.failed, past, r))
    && (forall r: nat :: r !in s.requests ==> Unprovided(past, r))
  }

  lemma StepKeepsStories(s: State, past: seq<Step>, step: Step)
    requires Stories(s, past) && Enabled(s, step)
    ensures Stories(Apply(s, step), past + [step])
  {
    var t := Apply(s, step);
    forall r | r in t.requests ensures Story(t.requests[r], t.failed, past + [step], r) {
      if r != step.request {
        assert Story(s.requests[r], s.failed, past, r);
      } else if r in s.requests {
        assert Story(s.requests[r], s.failed, past, r);
      } else {
        assert Unprovided(past, r);
      }
    }
  }

  lemma {:induction false} RunKeepsStories(s: State, past: seq<Step>, steps: seq<Step>)
    requires Stories(s, past) && ValidRun(s, steps)
    ensures Stories(Final(s, steps), past + steps)
    decreases |steps|
  {
    if steps == [] {
      assert past + steps == past;
    } else {
      StepKeepsStories(s, past, steps[0]);
      RunKeepsStories(Apply(s, steps[0]), past + [steps[0]], steps[1..]);
      assert past + [steps[0]] + steps[1..] == past + steps;
    }
  }

  /** In every run, each response has its reason: a snapshot was provided and decided on in time; or there was an
      expected failure, a late snapshot, or no provider call at all; or the client had gone; or the latch is set. */
  lemma ResponsesHaveReasons(steps: seq<Step>, r: nat)
    requires ValidRun(INITIAL, steps) && r in Final(INITIAL, steps).requests
    requires Final(INITIAL, steps).requests[r].Finished?
    ensures var s := Final(INITIAL, steps);
      match s.requests[r].response
      case Ok => Succeeded(steps, r)
      case Unavailable => Failed(steps, r) || Unprovided(steps, r)
      case Nothing => Decide(r, true, false) in steps || Decide(r, true, true) in steps
      case InternalError => s.failed
      case Broken => true
  {
    RunKeepsStories(INITIAL, [], steps);
    assert [] + steps == steps;
  }
}
