/** How the CPU observer starts and ends: its goroutine, its panics and its closers, in any interleaving.

    What it samples and publishes in between is the subject of `CpuObserver`; here a sample either returns or
    panics, and a wait returns, fails or panics.
 */
module ObserverLifecycle {
  datatype Goroutine =
    | NotStarted
    | Baseline                    // inside `Start`, taking the first sample
    | StartPanicked               // about to publish the defect
    | StartPublished              // about to notify
    | StartNotified               // about to cancel
    | StartCancelled              // about to close `done`
    | Waiting
    | Woken                       // the wait returned; about to look at the context
    | Sampling
    | Leaving(failed: bool)       // the loop was left, with an error or without
    | Publishing
    | Notifying
    | Closing
    | Ended

  datatype Closer = Joining | Joined | Expired | Immediate

  /** `unexpected` says whether the loop was found left without an error and without a cancelled context. */
  datatype State = State(
    started: bool, stopped: bool, cancelled: bool, goroutine: Goroutine,
    defects: nat, fatals: nat, doneCloses: nat, broken: bool, unexpected: bool, closers: map<nat, Closer>)

  const INITIAL := State(false, false, false, NotStarted, 0, 0, 0, false, false, map[])

  datatype Wait = Returned | WaitError | WaitPanic

  datatype Step =
    | Start
    | FirstSample(panics: bool)
    | WaitEnds(wait: Wait)
    | CheckContext
    | Sample(panics: bool)
    | Recover          // the deferred function looks at what happened
    | PublishDefect
    | NotifyFatal
    | CancelAfterStart
    | CloseDone
    | Close(caller: nat)
    | Join(caller: nat)
    | Expire(caller: nat)

  predicate Enabled(s: State, step: Step) {
    match step
    case Start => true
    case FirstSample(_) => s.goroutine.Baseline?
    case WaitEnds(_) => s.goroutine.Waiting?
    case CheckContext => s.goroutine.Woken?
    case Sample(_) => s.goroutine.Sampling?
    case Recover => s.goroutine.Leaving?
    case PublishDefect => s.goroutine.StartPanicked? || s.goroutine.Publishing?
    case NotifyFatal => s.goroutine.StartPublished? || s.goroutine.Notifying?
    case CancelAfterStart => s.goroutine.StartNotified?
    case CloseDone => s.goroutine.StartCancelled? || s.goroutine.Closing?
    case Close(c) => c !in s.closers
    case Join(c) => c in s.closers && s.closers[c].Joining? && s.doneCloses > 0
    case Expire(c) => c in s.closers && s.closers[c].Joining?
  }

  /** The loop fails: an error of the wait counts unless the context is cancelled, a panic always does. */
  function Leave(s: State, panicked: bool): State {
    var failed := panicked || !s.cancelled;
    s.(goroutine := Leaving(failed), broken := s.broken || failed)
  }

  function Apply(s: State, step: Step): State
    requires Enabled(s, step)
  {
    match step
    case Start => if s.started || s.stopped then s else s.(started := true, goroutine := Baseline)
    case FirstSample(panics) =>
      if panics then s.(goroutine := StartPanicked, broken := true) else s.(goroutine := Waiting)
    case WaitEnds(wait) =>
      if wait.Returned? then s.(goroutine := Woken) else Leave(s, wait.WaitPanic?)
    case CheckContext => s.(goroutine := if s.cancelled then Leaving(false) else Sampling)
    case Sample(panics) => if panics then Leave(s, true) else s.(goroutine := Waiting)
    case Recover =>
      var surprise := !s.goroutine.failed && !s.cancelled;
      s.(unexpected := s.unexpected || surprise,
         goroutine := if s.goroutine.failed || surprise then Publishing else Closing)
    case PublishDefect =>
      s.(defects := if s.stopped || s.cancelled then s.defects else s.defects + 1,
         goroutine := if s.goroutine.StartPanicked? then StartPublished else Notifying)
    case NotifyFatal =>
      s.(fatals := s.fatals + 1, goroutine := if s.goroutine.StartPublished? then StartNotified else Closing)
    case CancelAfterStart => s.(cancelled := true, goroutine := StartCancelled)
    case CloseDone => s.(doneCloses := s.doneCloses + 1, goroutine := Ended)
    case Close(c) =>
      var closer := if s.started then Joining else Immediate;
      s.(stopped := true, cancelled := true, closers := s.closers[c := closer])
    case Join(c) => s.(closers := s.closers[c := Joined])
    case Expire(c) => s.(closers := s.closers[c := Expired])
  }

  predicate ValidRun(s: State, steps: seq<Step>)
    decreases |steps|
  {
    steps == [] || (Enabled(s, steps[0]) && ValidRun(Apply(s, steps[0]), steps[1..]))
  }

  function Final(s: State, steps: seq<Step>): State
    requires ValidRun(s, steps)
    decreases |steps|
  {
    if steps == [] then s else Final(Apply(s, steps[0]), steps[1..])
  }

  // ----- What every step keeps -----

  predicate AfterNotification(g: Goroutine) {
    g.StartNotified? || g.StartCancelled? || g.Closing? || g.Ended?
  }

  predicate BeforeEnd(g: Goroutine) {
    g.NotStarted? || g.Baseline? || g.Waiting? || g.Woken? || g.Sampling?
  }

  predicate BeforeNotification(g: Goroutine) {
    g.StartPanicked? || g.StartPublished? || g.Publishing? || g.Notifying?
  }

  predicate StartFailed(g: Goroutine) {
    g.StartNotified? || g.StartCancelled?
  }

  ghost predicate Inv(s: State) {
    && (s.started <==> !s.goroutine.NotStarted?)
    && (s.stopped ==> s.cancelled)
    && (BeforeEnd(s.goroutine) ==> !s.broken)
    && (s.goroutine.Leaving? ==> s.broken == s.goroutine.failed && (s.goroutine.failed || s.cancelled))
    && (BeforeNotification(s.goroutine) || StartFailed(s.goroutine) ==> s.broken)
    && s.fatals == (if AfterNotification(s.goroutine) && s.broken then 1 else 0)
    && s.doneCloses == (if s.goroutine.Ended? then 1 else 0)
    && (s.goroutine.Closing? || s.goroutine.Ended? ==> s.broken || s.cancelled)
    && !s.unexpected
    && (s.defects > 0 ==> s.broken) && s.defects <= 1
    && (BeforeEnd(s.goroutine) || s.goroutine.Leaving? || s.goroutine.StartPanicked? || s.goroutine.Publishing? ==>
          s.defects == 0)
    && (forall c :: c in s.closers && s.closers[c].Joined? ==> s.goroutine.Ended?)
    && (forall c :: c in s.closers && s.closers[c].Joining? ==> s.started)
    && (s.closers != map[] ==> s.stopped)
  }

  lemma StepInv(s: State, step: Step)
    requires Inv(s) && Enabled(s, step)
    ensures Inv(Apply(s, step))
  {
  }

  lemma {:induction false} RunInv(s: State, steps: seq<Step>)
    requires Inv(s) && ValidRun(s, steps)
    ensures Inv(Final(s, steps))
    decreases |steps|
  {
    if steps != [] {
      StepInv(s, steps[0]);
      RunInv(Apply(s, steps[0]), steps[1..]);
    }
  }

  /** In every reachable state the fatal callback was called at most once and `done` closed at most once. An
      observer that has ended has closed `done` exactly once, and called `fatal` exactly if it broke: if a sample
      or a wait panicked, or a wait failed before the context was cancelled. Otherwise it was cancelled: the
      branch for an unexpected stop is never taken. */
  lemma EndsOnce(steps: seq<Step>)
    requires ValidRun(INITIAL, steps)
    ensures var s := Final(INITIAL, steps);
      && s.fatals <= 1 && s.doneCloses <= 1 && s.defects <= 1 && !s.unexpected
      && (s.goroutine.Ended? ==> s.doneCloses == 1 && (s.fatals == 1 <==> s.broken) && (s.fatals == 0 ==> s.cancelled))
      && (s.fatals == 1 ==> s.broken)
  {
    RunInv(INITIAL, steps);
  }

  /** A closer that was joined returns only after the observer has ended: nothing happens after that. */
  lemma {:induction false} JoinedIsFinal(s: State, steps: seq<Step>, c: nat)
    requires Inv(s) && ValidRun(s, steps) && c in s.closers && s.closers[c].Joined?
    ensures var t := Final(s, steps);
      t.goroutine.Ended? && t.fatals == s.fatals && t.defects == s.defects && t.doneCloses == 1
    decreases |steps|
  {
    if steps != [] {
      StepInv(s, steps[0]);
      JoinedIsFinal(Apply(s, steps[0]), steps[1..], c);
    }
  }

  /** Once closed or cancelled, an observer publishes no defect any more, and one that was not started never is. */
  lemma {:induction false} QuietAfterClose(s: State, steps: seq<Step>)
    requires ValidRun(s, steps) && s.stopped && s.cancelled
    ensures var t := Final(s, steps); t.stopped && t.defects == s.defects && t.started == s.started
    decreases |steps|
  {
    if steps != [] {
      QuietAfterClose(Apply(s, steps[0]), steps[1..]);
    }
  }

  /** A started observer that was closed can always go on to its end, whatever samples and waits it is in: some
      step of its own is enabled until it has ended, and once it has, its closers can join. */
  lemma CloseIsNotStuck(steps: seq<Step>, c: nat)
    requires ValidRun(INITIAL, steps)
    requires var s := Final(INITIAL, steps); c in s.closers && s.closers[c].Joining?
    ensures var s := Final(INITIAL, steps);
      if s.goroutine.Ended? then Enabled(s, Join(c))
      else
        || Enabled(s, FirstSample(false)) || Enabled(s, WaitEnds(WaitError)) || Enabled(s, CheckContext)
        || Enabled(s, Sample(false)) || Enabled(s, Recover) || Enabled(s, PublishDefect) || Enabled(s, NotifyFatal)
        || Enabled(s, CancelAfterStart) || Enabled(s, CloseDone)
  {
    RunInv(INITIAL, steps);
  }
}
