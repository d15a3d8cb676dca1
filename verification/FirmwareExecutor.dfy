/** The firmware executor: one worker owns a call that cannot be cancelled, and admits one request at a time.

    The fields under the mutex are a class, whose critical sections are its methods. The whole protocol is a
    state machine over those critical sections and the channel operations around them, in any interleaving.
    A request is known by its position in `requests`, in order of admission.
 */
module FirmwareExecutor {
  import opened Text
  import opened Outcomes
  import opened SnapshotBuilding
  import RaspberryPi

  // ----- The fields under the mutex -----

  /** A cycle identity. */
  type Token = nat

  datatype Lock = Lock(started: bool, stopping: bool, busy: bool, failed: Option<Failure>)

  datatype Admission = Admitted | Refused(outcome: Outcome<FirmwareHealth>)

  const UNLOCKED := Lock(false, false, false, None)

  predicate CanStart(l: Lock) {
    !l.started && !l.stopping && l.failed.None?
  }

  function Admit(l: Lock, context: bool, token: Option<Token>): Admission {
    if !context || token.None? then Refused(Defect(Some(OTHER_FAILURE)))
    else if l.failed.Some? then Refused(Defect(l.failed))
    else if !l.started || l.stopping then Refused(Defect(Some(OTHER_FAILURE)))
    else if l.busy then Refused(Temporary())
    else Admitted
  }

  datatype Closing = ContextMissing | NothingToStop | MustWait

  class Executor {
    var started: bool
    var stopping: bool
    var busy: bool
    var failed: Option<Failure>

    constructor ()
      ensures Fields() == UNLOCKED
    {
      started, stopping, busy, failed := false, false, false, None;
    }

    function Fields(): Lock
      reads this
    {
      Lock(started, stopping, busy, failed)
    }

    method Start(ghost s: State) returns (ok: bool)
      requires Fields() == s.lock
      modifies this`started
      ensures ok == CanStart(s.lock)
      ensures Fields() == Apply(s, Step.Start).lock
    {
      if started || stopping || failed.Some? {
        return false;
      }
      started := true;
      return true;
    }

    method Ready() returns (ok: bool)
      ensures ok <==> Admit(Fields(), true, Some(0)).Admitted?
    {
      if !started || stopping || busy || failed.Some? {
        return false;
      }
      return true;
    }

    /** The critical section of `Observe`. */
    method Reserve(context: bool, token: Option<Token>, ghost s: State) returns (admission: Admission)
      requires Fields() == s.lock
      modifies this`busy
      ensures admission == Admit(s.lock, context, token)
      ensures admission.Admitted? <==>
                && context && token.Some? && s.lock.failed.None? && s.lock.started && !s.lock.stopping && !s.lock.busy
      ensures admission.Refused? && ValidOutcome(admission.outcome) ==>
                s.lock.busy && admission.outcome.reason == TEMPORARILY_UNAVAILABLE && !admission.outcome.Present?
      ensures admission.Refused? && !ValidOutcome(admission.outcome) ==>
                || !context || token.None? || s.lock.failed.Some? || !s.lock.started || s.lock.stopping
      ensures context && token.Some? && s.lock.failed.Some? ==>
                admission == Refused(Absent(STATE_DEFECT, 0, s.lock.failed))
      ensures Fields() == Apply(s, Observe(context, token)).lock
    {
      if !context || token.None? {
        return Refused(Defect(Some(OTHER_FAILURE)));
      }
      if failed.Some? {
        return Refused(Defect(failed));
      }
      if !started || stopping {
        return Refused(Defect(Some(OTHER_FAILURE)));
      }
      if busy {
        return Refused(Unavailable(TEMPORARILY_UNAVAILABLE, Some(OTHER_FAILURE)));
      }
      busy := true;
      return Admitted;
    }

    /** The worker's critical section after a transaction. */
    method FreeSlot(ghost s: State)
      requires Fields() == s.lock && Enabled(s, Release)
      modifies this`busy
      ensures Fields() == Apply(s, Release).lock
    {
      busy := false;
    }

    /** The worker's critical section after a panic. */
    method Fail(cause: Failure, ghost s: State)
      requires Fields() == s.lock && Enabled(s, Panic(cause))
      modifies this`failed
      ensures Fields() == Apply(s, Panic(cause)).lock
    {
      failed := Some(cause);
    }

    /** `Close` up to its wait: without a context it is refused, and only a started executor has to be waited for. */
    method BeginClose(context: bool, ghost s: State) returns (closing: Closing)
      requires Fields() == s.lock
      modifies this`stopping
      ensures closing == if !context then ContextMissing else if s.lock.started then MustWait else NothingToStop
      ensures Fields() == if context then Apply(s, MarkStopping).lock else s.lock
    {
      if !context {
        return ContextMissing;
      }
      if !started {
        return NothingToStop;
      }
      stopping := true;
      return MustWait;
    }
  }

  // ----- The protocol -----

  /** What the firmware transaction answered. */
  datatype Response = Mask(mask: uint32) | TransactionError(err: Failure)

  function OutcomeOf(response: Response): Outcome<FirmwareHealth> {
    match response
    case Mask(mask) => Good(RaspberryPi.HealthFromMask(mask))
    case TransactionError(err) => AcquisitionFailure(Some(err), UNSUPPORTED)
  }

  datatype Result = Result(token: Option<Token>, outcome: Outcome<FirmwareHealth>)

  datatype Caller =
    | Reserved   // admitted, has not yet put its request into the queue
    | Waiting    // selects between its result channel and its context
    | Answered(outcome: Outcome<FirmwareHealth>)
    | Detached   // returned because its context was done

  /** `channel` is the request's result channel, with room for one result. `sent` is every result ever put
      into it, and `dropped` says how often the worker found no room. */
  datatype Request = Request(token: Option<Token>, caller: Caller, channel: seq<Result>, sent: seq<Result>,
      dropped: nat)

  datatype Worker =
    | NotRunning
    | Idle
    | Transacting(request: nat)
    | Delivered(request: nat)          // before the slot is released
    | Recovered(active: Option<nat>)   // panicked and latched the failure; has yet to answer the active request
    | Notifying                        // before the fatal callback
    | Notified
    | Exited(panicked: bool)

  datatype State = State(
    lock: Lock,
    requests: seq<Request>,
    queue: seq<nat>,       // the channel from callers to the worker, with room for one
    stopClosed: bool,
    worker: Worker,
    begun: seq<nat>,       // the requests whose transaction was begun
    fatals: nat)           // how often the fatal callback was called

  const INITIAL := State(UNLOCKED, [], [], false, NotRunning, [], 0)

  datatype Step =
    | Start
    | Observe(context: bool, token: Option<Token>)
    | Send(request: nat)
    | Take(request: nat)
    | Detach(request: nat)
    | Receive
    | Finish(response: Response)
    | Panic(cause: Failure)
    | Release
    | AnswerActive
    | NotifyFatal
    | CloseDone
    | HonourStop
    | MarkStopping
    | CloseStop

  predicate IsCaller(s: State, r: nat, caller: Caller) {
    r < |s.requests| && s.requests[r].caller == caller
  }

  /** A step is enabled when the goroutine that takes it has reached it and it does not block. */
  predicate Enabled(s: State, step: Step) {
    match step
    case Start => true
    case Observe(_, _) => true
    case Send(r) => IsCaller(s, r, Reserved) && |s.queue| < 1
    case Take(r) => IsCaller(s, r, Waiting) && s.requests[r].channel != []
    case Detach(r) => IsCaller(s, r, Waiting)
    case Receive => s.worker.Idle? && s.queue != [] && s.queue[0] < |s.requests|
    case Finish(_) => s.worker.Transacting? && s.worker.request < |s.requests|
    case Panic(_) => s.worker.Transacting?
    case Release => s.worker.Delivered?
    case AnswerActive =>
      && s.worker.Recovered?
      && (s.worker.active.Some? ==>
            s.worker.active.value < |s.requests| && |s.requests[s.worker.active.value].channel| < 1)
    case NotifyFatal => s.worker.Notifying?
    case CloseDone => s.worker.Notified?
    case HonourStop => s.worker.Idle? && s.stopClosed
    case MarkStopping => true
    case CloseStop => s.lock.stopping
  }

  function Put(r: Request, result: Result): Request {
    r.(channel := r.channel + [result], sent := r.sent + [result])
  }

  /** A send that gives up when there is no room. */
  function TryPut(r: Request, result: Result): Request {
    if |r.channel| < 1 then Put(r, result) else r.(dropped := r.dropped + 1)
  }

  function Apply(s: State, step: Step): State
    requires Enabled(s, step)
  {
    match step
    case Start => if CanStart(s.lock) then s.(lock := s.lock.(started := true), worker := Idle) else s
    case Observe(context, token) =>
      if Admit(s.lock, context, token).Admitted?
      then s.(lock := s.lock.(busy := true), requests := s.requests + [Request(token, Reserved, [], [], 0)])
      else s
    case Send(r) => s.(queue := s.queue + [r], requests := s.requests[r := s.requests[r].(caller := Waiting)])
    case Take(r) =>
      var request := s.requests[r];
      var outcome := if request.channel[0].token != request.token then Defect(Some(OTHER_FAILURE))
          else request.channel[0].outcome;
      s.(requests := s.requests[r := request.(caller := Answered(outcome), channel := request.channel[1..])])
    case Detach(r) => s.(requests := s.requests[r := s.requests[r].(caller := Detached)])
    case Receive =>
      var r := s.queue[0];
      if s.requests[r].token.None?
      then s.(queue := s.queue[1..], lock := s.lock.(failed := Some(OTHER_FAILURE)), worker := Recovered(None))
      else s.(queue := s.queue[1..], worker := Transacting(r), begun := s.begun + [r])
    case Finish(response) =>
      var r := s.worker.request;
      s.(requests := s.requests[r := TryPut(s.requests[r], Result(s.requests[r].token, OutcomeOf(response)))],
          worker := Delivered(r))
    case Panic(cause) => s.(lock := s.lock.(failed := Some(cause)), worker := Recovered(Some(s.worker.request)))
    case Release => s.(lock := s.lock.(busy := false), worker := Idle)
    case AnswerActive =>
      if s.worker.active.None? then s.(worker := Notifying)
      else
        var r := s.worker.active.value;
        s.(requests := s.requests[r := Put(s.requests[r], Result(s.requests[r].token, Defect(s.lock.failed)))],
            worker := Notifying)
    case NotifyFatal => s.(fatals := s.fatals + 1, worker := Notified)
    case CloseDone => s.(worker := Exited(true))
    case HonourStop => s.(worker := Exited(false))
    case MarkStopping => if s.lock.started then s.(lock := s.lock.(stopping := true)) else s
    case CloseStop => s.(stopClosed := true)
  }

  predicate ValidRun(s: State, steps: seq<Step>)
    decreases |steps|
  {
    steps == [] || (Enabled(s, steps[0]) && ValidRun(Apply(s, steps[0]), steps[1..]))
  }

  function Final(s: State, steps: seq<Step>): State
    requires ValidRun(s, steps)
    decreases |steps|
  {
    if steps == [] then s else Final(Apply(s, steps[0]), steps[1..])
  }

  // ----- What every step keeps -----

  /** Admitted, but its transaction has not ended, or its failure has not been delivered. */
  predicate Pending(s: State, r: nat) {
    || r >= |s.begun|
    || s.worker == Transacting(r)
    || s.worker == Recovered(Some(r))
  }

  ghost predicate RequestInv(s: State, r: nat)
    requires r < |s.requests|
  {
    var q := s.requests[r];
    && q.token.Some? && q.dropped == 0
    && (if Pending(s, r) then q.sent == [] && q.channel == [] && !q.caller.Answered?
        else
          && |q.sent| == 1 && q.sent[0].token == q.token && !q.caller.Reserved?
          && (if q.caller.Answered? then q.channel == [] && q.caller.outcome == q.sent[0].outcome
                else q.channel == q.sent))
    && (r < |s.begun| ==> !q.caller.Reserved?)
  }

  /** Requests are begun in order of admission. At most one, the last, has not been begun: it is about to be
      sent, or in the queue. */
  predicate QueueInv(s: State) {
    && |s.begun| <= |s.requests| <= |s.begun| + 1
    && (forall i :: 0 <= i < |s.begun| ==> s.begun[i] == i)
    && (|s.requests| == |s.begun| ==> s.queue == [])
    && (|s.requests| == |s.begun| + 1 ==> s.queue == if s.requests[|s.begun|].caller.Reserved? then [] else [|s.begun|])
  }

  predicate Working(w: Worker) {
    w.Transacting? || w.Delivered?
  }

  predicate WorkerInv(s: State) {
    && (Working(s.worker) ==> s.worker.request + 1 == |s.begun| && |s.requests| == |s.begun|)
    && (s.worker.Recovered? ==> s.worker.active.Some? && s.worker.active.value + 1 == |s.begun|)
    && (s.lock.failed.Some? <==>
          s.worker.Recovered? || s.worker.Notifying? || s.worker.Notified? || s.worker == Exited(true))
    && (s.lock.failed.Some? ==> s.lock.busy && |s.requests| == |s.begun| > 0)
    && (s.lock.failed.None? ==> (s.lock.busy <==> Working(s.worker) || |s.requests| == |s.begun| + 1))
    && (s.lock.started <==> !s.worker.NotRunning?)
    && (s.stopClosed ==> s.lock.stopping) && (s.lock.stopping ==> s.lock.started)
    && (s.worker.NotRunning? ==> s.requests == [])
    && (s.worker == Exited(false) ==> s.stopClosed)
    && s.fatals == (if s.worker.Notified? || s.worker == Exited(true) then 1 else 0)
  }

  ghost predicate Inv(s: State) {
    && QueueInv(s) && WorkerInv(s)
    && forall r :: 0 <= r < |s.requests| ==> RequestInv(s, r)
  }

  predicate IsWorkerStep(step: Step) {
    step.Receive? || step.Finish? || step.Panic? || step.Release? || step.AnswerActive? || step.NotifyFatal?
    || step.CloseDone? || step.HonourStop?
  }

  lemma WorkerStepKeepsRequest(s: State, step: Step, r: nat)
    requires Inv(s) && Enabled(s, step) && IsWorkerStep(step) && r < |Apply(s, step).requests|
    ensures RequestInv(Apply(s, step), r)
  {
    assert RequestInv(s, r);
  }

  lemma CallerStepKeepsRequest(s: State, step: Step, r: nat)
    requires Inv(s) && Enabled(s, step) && !IsWorkerStep(step) && r < |Apply(s, step).requests|
    ensures RequestInv(Apply(s, step), r)
  {
    if r < |s.requests| {
      assert RequestInv(s, r);
    }
  }

  lemma StepKeepsQueue(s: State, step: Step)
    requires Inv(s) && Enabled(s, step)
    ensures QueueInv(Apply(s, step))
  {
    if step.Send? || step.Take? || step.Detach? {
      assert RequestInv(s, step.request);
    }
    if step.Receive? {
      assert RequestInv(s, s.queue[0]);
    }
    if step.Send? {
      assert s.queue == [] && s.queue + [step.request] == [|s.begun|];
    }
  }

  lemma WorkerStepKeepsWorker(s: State, step: Step)
    requires Inv(s) && Enabled(s, step) && IsWorkerStep(step)
    ensures WorkerInv(Apply(s, step))
  {
    if step.Receive? {
      assert RequestInv(s, s.queue[0]);
    }
  }

  lemma CallerStepKeepsWorker(s: State, step: Step)
    requires Inv(s) && Enabled(s, step) && !IsWorkerStep(step)
    ensures WorkerInv(Apply(s, step))
  {
  }

  lemma StepInv(s: State, step: Step)
    requires Inv(s) && Enabled(s, step)
    ensures Inv(Apply(s, step))
  {
    StepKeepsQueue(s, step);
    var t := Apply(s, step);
    if IsWorkerStep(step) {
      WorkerStepKeepsWorker(s, step);
      forall r | 0 <= r < |t.requests| ensures RequestInv(t, r) {
        WorkerStepKeepsRequest(s, step, r);
      }
    } else {
      CallerStepKeepsWorker(s, step);
      forall r | 0 <= r < |t.requests| ensures RequestInv(t, r) {
        CallerStepKeepsRequest(s, step, r);
      }
    }
  }

  lemma {:induction false} RunInv(s: State, steps: seq<Step>)
    requires Inv(s) && ValidRun(s, steps)
    ensures Inv(Final(s, steps))
    decreases |steps|
  {
    if steps != [] {
      StepInv(s, steps[0]);
      RunInv(Apply(s, steps[0]), steps[1..]);
    }
  }

  // ----- At most one request -----

  /** Reserved, queued, being transacted, or transacted and not yet released. */
  predicate Live(s: State, r: nat) {
    IsCaller(s, r, Reserved) || r in s.queue || s.worker == Transacting(r) || s.worker == Delivered(r)
  }

  /** In every reachable state: until the executor fails, `busy` holds exactly if one request is live, and
      then only that one is; once it has failed, none is, and the slot is never free again. */
  lemma BusyIffOneIsLive(steps: seq<Step>)
    requires ValidRun(INITIAL, steps)
    ensures var s := Final(INITIAL, steps);
      && (s.lock.failed.None? ==> (s.lock.busy <==> exists r: nat :: Live(s, r)))
      && (s.lock.failed.Some? ==> s.lock.busy && forall r: nat :: !Live(s, r))
      && forall r: nat, q: nat :: Live(s, r) && Live(s, q) ==> r == q
  {
    RunInv(INITIAL, steps);
    var s := Final(INITIAL, steps);
    forall r: nat | Live(s, r) ensures r + 1 == |s.requests| {
      LiveIsLast(s, r);
    }
    if s.lock.failed.None? && s.lock.busy {
      assert Live(s, |s.requests| - 1);
    } else {
      forall r: nat ensures !Live(s, r) {
        if Live(s, r) {
          LiveIsLast(s, r);
        }
      }
    }
  }

  lemma LiveIsLast(s: State, r: nat)
    requires Inv(s) && Live(s, r)
    ensures r + 1 == |s.requests| && s.lock.busy && s.lock.failed.None?
  {
    if IsCaller(s, r, Reserved) {
      assert RequestInv(s, r);
    }
  }

  /** Nothing in the protocol ever blocks on a full channel: a caller finds the queue empty, and the worker
      finds the result channel of its request empty, even when it has to answer after a panic. */
  lemma SendsNeverBlock(steps: seq<Step>, r: nat)
    requires ValidRun(INITIAL, steps)
    ensures var s := Final(INITIAL, steps);
      && (IsCaller(s, r, Reserved) ==> Enabled(s, Send(r)))
      && (s.worker == Transacting(r) ==> r < |s.requests| && s.requests[r].channel == [])
      && (s.worker.Recovered? ==> Enabled(s, AnswerActive))
  {
    RunInv(INITIAL, steps);
    var s := Final(INITIAL, steps);
    if IsCaller(s, r, Reserved) {
      assert RequestInv(s, r);
    }
    if s.worker == Transacting(r) {
      assert RequestInv(s, r);
    }
    if s.worker.Recovered? {
      assert RequestInv(s, s.worker.active.value);
    }
  }

  /** While it is busy and has neither failed nor stopped, some step other than a new call moves the request on. */
  lemma BusyIsNotStuck(steps: seq<Step>)
    requires ValidRun(INITIAL, steps)
    requires var s := Final(INITIAL, steps); s.lock.busy && s.lock.failed.None? && !s.worker.Exited?
    ensures var s := Final(INITIAL, steps);
      Enabled(s, Send(|s.begun|)) || Enabled(s, Receive) || Enabled(s, Finish(Mask(0))) || Enabled(s, Release)
  {
    RunInv(INITIAL, steps);
  }

  // ----- Results -----

  /** Each admitted request is begun at most once, in order of admission. Its result channel gets one result,
      carrying its own token, as soon as its transaction is over; and none is ever dropped. */
  lemma OneResultEach(steps: seq<Step>, r: nat)
    requires ValidRun(INITIAL, steps) && r < |Final(INITIAL, steps).requests|
    ensures var s := Final(INITIAL, steps);
      && (forall i :: 0 <= i < |s.begun| ==> s.begun[i] == i)
      && |s.requests[r].sent| == (if Pending(s, r) then 0 else 1)
      && s.requests[r].dropped == 0
      && (!Pending(s, r) ==> s.requests[r].sent[0].token == s.requests[r].token && s.requests[r].token.Some?)
      && (s.requests[r].caller.Answered? ==>
            !Pending(s, r) && s.requests[r].caller.outcome == s.requests[r].sent[0].outcome)
  {
    RunInv(INITIAL, steps);
    assert RequestInv(Final(INITIAL, steps), r);
  }

  /** When the executor has come to rest, every admitted request got its result, except one at most, and
      that one only because the stop signal won. */
  lemma OnlyStopLeavesARequest(steps: seq<Step>, r: nat)
    requires ValidRun(INITIAL, steps) && r < |Final(INITIAL, steps).requests|
    requires var s := Final(INITIAL, steps); s.worker.Exited? || (s.worker.Idle? && s.queue == [])
    requires !IsCaller(Final(INITIAL, steps), r, Reserved)
    ensures var s := Final(INITIAL, steps);
      |s.requests[r].sent| == 1
          || (s.worker == Exited(false) && s.stopClosed && s.queue == [r] && r + 1 == |s.requests|)
  {
    RunInv(INITIAL, steps);
    assert RequestInv(Final(INITIAL, steps), r);
  }

  /** A result that comes after its caller left reaches nobody else: what a caller is answered is the result
      its own request was sent, and it never changes. */
  lemma {:induction false} AnswersAreFinal(s: State, steps: seq<Step>, r: nat)
    requires Inv(s) && ValidRun(s, steps) && r < |s.requests| && |s.requests[r].sent| == 1
    ensures r < |Final(s, steps).requests| && Final(s, steps).requests[r].sent == s.requests[r].sent
    ensures s.requests[r].caller.Answered? || s.requests[r].caller.Detached? ==>
              Final(s, steps).requests[r].caller == s.requests[r].caller
    decreases |steps|
  {
    if steps != [] {
      AnswerIsKept(s, steps[0], r);
      StepInv(s, steps[0]);
      AnswersAreFinal(Apply(s, steps[0]), steps[1..], r);
    }
  }

  lemma AnswerIsKept(s: State, step: Step, r: nat)
    requires Inv(s) && Enabled(s, step) && r < |s.requests| && |s.requests[r].sent| == 1
    ensures r < |Apply(s, step).requests| && Apply(s, step).requests[r].sent == s.requests[r].sent
    ensures s.requests[r].caller.Answered? || s.requests[r].caller.Detached? ==>
              Apply(s, step).requests[r].caller == s.requests[r].caller
  {
    assert RequestInv(s, r);
  }

  // ----- What a result reports -----

  /** The outcome states what the firmware answered: the flags of its mask, or why there is none. */
  ghost predicate Reports(o: Outcome<FirmwareHealth>, response: Response) {
    match response
    case Mask(mask) => ValidOutcome(o) && o.Present? && RaspberryPi.FlagsOf(mask, o.value)
    case TransactionError(err) =>
      && ValidOutcome(o) && !o.Present? && o.cause == Some(err)
      && (o.reason == PERMISSION_DENIED <==> err.permission)
      && (o.reason == UNSUPPORTED <==> err.missing && !err.permission)
  }

  lemma OutcomeReports(response: Response)
    ensures Reports(OutcomeOf(response), response)
  {
    if response.Mask? {
      RaspberryPi.MaskHasFlags(response.mask);
    }
  }

  /** Step `i` of the run sent request `r` its result: it ended the request's own transaction, and the result
      reports what the firmware answered to it; or it answered the request after a panic. */
  ghost predicate SentAt(s: State, steps: seq<Step>, i: nat, r: nat, result: Result)
    requires ValidRun(s, steps)
  {
    && i < |steps| && ValidRun(s, steps[..i])
    && var before := Final(s, steps[..i]);
       || (steps[i].Finish? && before.worker == Transacting(r) && Reports(result.outcome, steps[i].response))
       || (steps[i].AnswerActive? && before.worker == Recovered(Some(r))
           && result.outcome == Defect(before.lock.failed))
  }

  /** Which step sends a result. */
  lemma FirstSent(s: State, step: Step, r: nat)
    requires Inv(s) && Enabled(s, step)
    requires r < |Apply(s, step).requests| && Apply(s, step).requests[r].sent != []
    requires r < |s.requests| ==> s.requests[r].sent == []
    ensures var result := Apply(s, step).requests[r].sent[0];
      || (step.Finish? && s.worker == Transacting(r) && Reports(result.outcome, step.response))
      || (step.AnswerActive? && s.worker == Recovered(Some(r)) && result.outcome == Defect(s.lock.failed))
  {
    if step.Finish? {
      OutcomeReports(step.response);
      assert RequestInv(s, s.worker.request);
    }
    if step.AnswerActive? {
      assert RequestInv(s, s.worker.active.value);
    }
  }

  lemma {:induction false} SentFromHere(s: State, steps: seq<Step>, r: nat) returns (i: nat)
    requires Inv(s) && ValidRun(s, steps) && (r < |s.requests| ==> s.requests[r].sent == [])
    requires r < |Final(s, steps).requests| && |Final(s, steps).requests[r].sent| == 1
    ensures SentAt(s, steps, i, r, Final(s, steps).requests[r].sent[0])
    decreases |steps|
  {
    var t := Apply(s, steps[0]);
    StepInv(s, steps[0]);
    if r < |t.requests| && t.requests[r].sent != [] {
      i := 0;
      FirstSent(s, steps[0], r);
      assert RequestInv(t, r);
      AnswersAreFinal(t, steps[1..], r);
      assert steps[..0] == [];
    } else {
      var j := SentFromHere(t, steps[1..], r);
      i := j + 1;
      assert steps[..i][1..] == steps[1..][..j];
    }
  }

  /** In every run, whatever result a request was sent reports what the firmware answered in that request's own
      transaction, or else the panic that ended it. */
  lemma ResultsReport(steps: seq<Step>, r: nat) returns (i: nat)
    requires ValidRun(INITIAL, steps) && r < |Final(INITIAL, steps).requests|
    requires Final(INITIAL, steps).requests[r].sent != []
    ensures SentAt(INITIAL, steps, i, r, Final(INITIAL, steps).requests[r].sent[0])
  {
    RunInv(INITIAL, steps);
    assert RequestInv(Final(INITIAL, steps), r);
    i := SentFromHere(INITIAL, steps, r);
  }

  // ----- Failure and stop -----

  lemma FailureIsKept(s: State, step: Step)
    requires Inv(s) && Enabled(s, step) && (s.lock.failed.Some? || s.lock.stopping)
    ensures var t := Apply(s, step);
      && |t.requests| == |s.requests| && (s.lock.stopping ==> t.lock.stopping)
      && (s.lock.failed.Some? ==> t.lock.failed == s.lock.failed && t.begun == s.begun)
  {
  }

  /** After a failure, or once stopping, no request is admitted; and no transaction begins after a failure. */
  lemma {:induction false} NothingAfterFailure(s: State, steps: seq<Step>)
    requires Inv(s) && ValidRun(s, steps) && (s.lock.failed.Some? || s.lock.stopping)
    ensures |Final(s, steps).requests| == |s.requests|
    ensures s.lock.failed.Some? ==> Final(s, steps).lock.failed == s.lock.failed && Final(s, steps).begun == s.begun
    decreases |steps|
  {
    if steps != [] {
      FailureIsKept(s, steps[0]);
      StepInv(s, steps[0]);
      NothingAfterFailure(Apply(s, steps[0]), steps[1..]);
    }
  }

  /** The fatal callback is called at most once, only after a failure whose active caller has been answered,
      and exactly once if a failed executor has exited. An empty cycle identity is never what failed it. */
  lemma FatalOnce(steps: seq<Step>)
    requires ValidRun(INITIAL, steps)
    ensures var s := Final(INITIAL, steps);
      && s.fatals <= 1
      && (s.fatals == 1 ==> s.lock.failed.Some? && s.begun != []
                            && |s.requests| == |s.begun| && s.requests[|s.begun| - 1].sent != [])
      && (s.worker.Exited? ==> (s.fatals == 1 <==> s.lock.failed.Some?))
      && s.worker != Recovered(None)
  {
    RunInv(INITIAL, steps);
    var s := Final(INITIAL, steps);
    if s.fatals == 1 {
      assert RequestInv(s, |s.begun| - 1);
    }
  }

  // ----- What a collector sees -----

  ghost predicate GoodResults(s: State) {
    && s.lock.failed.None?
    && forall r :: 0 <= r < |s.requests| && s.requests[r].sent != [] ==> ValidOutcome(s.requests[r].sent[0].outcome)
  }

  lemma {:induction false} ResultsAreGood(s: State, steps: seq<Step>)
    requires Inv(s) && GoodResults(s) && ValidRun(s, steps) && forall i :: 0 <= i < |steps| ==> !steps[i].Panic?
    ensures GoodResults(Final(s, steps))
    decreases |steps|
  {
    if steps != [] {
      StepInv(s, steps[0]);
      GoodIsKept(s, steps[0]);
      ResultsAreGood(Apply(s, steps[0]), steps[1..]);
    }
  }

  lemma GoodIsKept(s: State, step: Step)
    requires Inv(s) && GoodResults(s) && Enabled(s, step) && !step.Panic?
    ensures GoodResults(Apply(s, step))
  {
    var t := Apply(s, step);
    if step.Receive? {
      assert RequestInv(s, s.queue[0]);
    }
    forall r | 0 <= r < |t.requests| && t.requests[r].sent != [] ensures ValidOutcome(t.requests[r].sent[0].outcome) {
      if r < |s.requests| {
        assert RequestInv(s, r);
      }
    }
  }

  /** As long as no transaction panics, a running executor that is not stopping answers every call that has a
      context and an identity with an outcome that passes validation, whatever the firmware responds and
      however the calls interleave. */
  lemma AnswersAreValid(steps: seq<Step>, r: nat, token: Token)
    requires ValidRun(INITIAL, steps) && forall i :: 0 <= i < |steps| ==> !steps[i].Panic?
    ensures var s := Final(INITIAL, steps);
      && (s.lock.started && !s.lock.stopping ==>
            Admit(s.lock, true, Some(token)).Admitted? || ValidOutcome(Admit(s.lock, true, Some(token)).outcome))
      && (r < |s.requests| && s.requests[r].caller.Answered? ==> ValidOutcome(s.requests[r].caller.outcome))
  {
    RunInv(INITIAL, steps);
    ResultsAreGood(INITIAL, steps);
    var s := Final(INITIAL, steps);
    if r < |s.requests| {
      assert RequestInv(s, r);
    }
  }

  /** How a call got its answer: at once, from the result channel of its request, or because its context was done. */
  datatype Way = AtOnce | FromRequest(request: nat) | ContextDone(err: Failure)

  /** `o` is what a call gets from an executor that was started, is not being closed and saw no panic. */
  predicate IsAnswer(o: Outcome<FirmwareHealth>, steps: seq<Step>, token: Token, way: Way) {
    && ValidRun(INITIAL, steps) && (forall i :: 0 <= i < |steps| ==> !steps[i].Panic?)
    && var s := Final(INITIAL, steps);
       && s.lock.started && !s.lock.stopping
       && match way
          case AtOnce => Admit(s.lock, true, Some(token)) == Refused(o)
          case FromRequest(r) => IsCaller(s, r, Answered(o)) && s.requests[r].token == Some(token)
          case ContextDone(err) => o == Unavailable(TEMPORARILY_UNAVAILABLE, Some(err))
  }

  lemma AnswerIsValid(o: Outcome<FirmwareHealth>, steps: seq<Step>, token: Token, way: Way)
    requires IsAnswer(o, steps, token, way)
    ensures ValidOutcome(o)
  {
    AnswersAreValid(steps, if way.FromRequest? then way.request else 0, token);
  }

  /** The flags are those of a mask with which the firmware answered the transaction of a request with `token`. */
  ghost predicate MaskReported(steps: seq<Step>, token: Token, health: FirmwareHealth)
    requires ValidRun(INITIAL, steps)
  {
    exists i: nat, r: nat :: MaskReportedAt(steps, i, r, token, health)
  }

  ghost predicate MaskReportedAt(steps: seq<Step>, i: nat, r: nat, token: Token, health: FirmwareHealth)
    requires ValidRun(INITIAL, steps)
  {
    && i < |steps| && steps[i].Finish? && steps[i].response.Mask? && RaspberryPi.FlagsOf(steps[i].response.mask, health)
    && ValidRun(INITIAL, steps[..i]) && Final(INITIAL, steps[..i]).worker == Transacting(r)
    && r < |Final(INITIAL, steps).requests| && Final(INITIAL, steps).requests[r].token == Some(token)
  }

  /** A present answer carries the flags of the mask that the firmware gave to the call's own request. */
  lemma AnswerReportsMask(o: Outcome<FirmwareHealth>, steps: seq<Step>, token: Token, way: Way)
    requires IsAnswer(o, steps, token, way) && o.Present?
    ensures MaskReported(steps, token, o.value)
  {
    var r := way.request;
    RunInv(INITIAL, steps);
    assert RequestInv(Final(INITIAL, steps), r);
    var i := ResultsReport(steps, r);
    assert MaskReportedAt(steps, i, r, token, o.value);
  }
}
