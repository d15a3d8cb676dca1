/** A cycle of the production service: from what the platform answers to what is published and reported. */
module Production {
  import opened Text
  import opened Outcomes
  import opened Snapshot
  import opened SnapshotBuilding
  import opened Cycle
  import opened PlatformAnswers
  import opened PublishedDocument
  import opened PublishedIssues
  import FirmwareExecutor
  import CpuObserver
  import Degradation
  import Acceptance

  /** Published flags are those of a mask that the firmware gave to this cycle's own request. */
  ghost predicate FlagsReported(
    document: Document, steps: seq<FirmwareExecutor.Step>, token: FirmwareExecutor.Token)
    requires FirmwareExecutor.ValidRun(FirmwareExecutor.INITIAL, steps)
  {
    HealthField(document.pi).Some? ==> FirmwareExecutor.MaskReported(steps, token, HealthField(document.pi).value)
  }

  lemma FlagsAreReported(
    p: Platform, t: Timing, document: Document,
    steps: seq<FirmwareExecutor.Step>, token: FirmwareExecutor.Token, way: FirmwareExecutor.Way)
    requires FirmwareExecutor.IsAnswer(p.firmware, steps, token, way) && PiFields(p, t, document)
    ensures FlagsReported(document, steps, token)
  {
    if HealthField(document.pi).Some? {
      FirmwareExecutor.AnswerReportsMask(p.firmware, steps, token, way);
    }
  }

  /** What a published document and the events reported with it state. */
  ghost predicate PublishedStates(
    p: Platform, t: Timing, last: Outcome<CpuObserver.Publication>, now: int,
    document: Document, events: seq<Degradation.Event>)
  {
    && DocumentStated(p, t, document) && UtilizationStated(p, t, last, now, document.utilization)
    && IssuesStated(p, t, last, document) && EventsMatch(events, document.issues)
  }

  lemma PublishedIsStated(
    p: Platform, d: Domains, t: Timing, last: Outcome<CpuObserver.Publication>, now: int, observedAt: nat)
    requires Stated(p, d) && CpuObserver.Sound(last, now)
    requires ValidObservations(Complete(d, t, last, now)) && Complete(d, t, last, now).host.hostname.Present?
    ensures var o := Complete(d, t, last, now);
      PublishedStates(p, t, last, now, DocumentOf(o, observedAt), Acceptance.Events(o))
  {
    DocumentIsStated(p, d, t, Complete(d, t, last, now), observedAt);
    UtilizationIsStated(p, d, t, last, now);
    IssuesAreStated(p, d, t, last, now, observedAt);
    EventsAreIssues(Complete(d, t, last, now));
  }

  /** What a cycle's result and its events state. */
  ghost predicate ResultStates(
    p: Platform, t: Timing, last: Outcome<CpuObserver.Publication>, now: int, observedAt: nat,
    r: Result, events: seq<Degradation.Event>)
  {
    match r
    case Published(document) =>
      document.observedAt == observedAt && PublishedStates(p, t, last, now, document, events)
    case NoUsefulSnapshot => t.expired(HOST) || p.hostname.ReadError? ==> HostnameReported(p, t, events)
    case InternalDefect => observedAt == 0
    case LifecycleEnded => exists j: nat :: j <= COPY && t.ended(j)
  }

  lemma EndingStates(
    p: Platform, t: Timing, last: Outcome<CpuObserver.Publication>, now: int, observedAt: nat,
    o: Observations, events: seq<Degradation.Event>)
    requires ValidObservations(o)
    requires o.host.hostname.Present? ==>
               && PublishedStates(p, t, last, now, DocumentOf(o, observedAt), events)
               && !t.expired(HOST) && p.hostname.Got?
    requires !o.host.hostname.Present? ==> HostnameReported(p, t, events)
    ensures match Acceptance.Ending(o, observedAt)
            case Published(document) => ResultStates(p, t, last, now, observedAt, Published(document), events)
            case NoUsefulSnapshot => ResultStates(p, t, last, now, observedAt, NoUsefulSnapshot, events)
            case InternalDefect => observedAt == 0
  {
  }

  lemma EventsState(
    p: Platform, d: Domains, t: Timing, last: Outcome<CpuObserver.Publication>, now: int, observedAt: nat)
    requires Stated(p, d) && CpuObserver.Sound(last, now) && ValidObservations(Complete(d, t, last, now))
    ensures var o := Complete(d, t, last, now);
      if o.host.hostname.Present? then
        && PublishedStates(p, t, last, now, DocumentOf(o, observedAt), Acceptance.Events(o))
        && !t.expired(HOST) && p.hostname.Got?
      else HostnameReported(p, t, Acceptance.Events(o))
  {
    var o := Complete(d, t, last, now);
    if o.host.hostname.Present? {
      PublishedIsStated(p, d, t, last, now, observedAt);
    } else {
      HostnameIsReported(p, d, t, o);
    }
  }

  /** The cycle of collected domains, with what its result states. */
  method CycleOf(
    p: Platform, d: Domains, t: Timing, last: Outcome<CpuObserver.Publication>, now: int,
    reporter: Degradation.DegradationReporter, observedAt: nat, reportedAt: int)
    returns (r: Result, ghost events: seq<Degradation.Event>)
    requires Stated(p, d) && CpuObserver.Sound(last, now) && reporter.Valid()
    requires forall i: nat :: i < COPY ==> ValidDomain(d, i)
    modifies reporter
    ensures reporter.Valid()
    ensures r.LifecycleEnded? <==> exists j: nat :: j <= COPY && t.ended(j)
    ensures r.Published? || r.NoUsefulSnapshot? ==>
              && |reporter.history| == |old(reporter.history)| + 1
              && reporter.history[|old(reporter.history)|].events == events
    ensures ResultStates(p, t, last, now, observedAt, r, events)
  {
    CpuObserver.CopyNeverDefect(last, now, Observed(d, t).cpuLoad);
    WithoutFaults(d, t);
    r := Collect(d, t, last, now, reporter, observedAt, reportedAt);
    events := [];
    if r.Published? || r.NoUsefulSnapshot? {
      ghost var o := Complete(d, t, last, now);
      events := Acceptance.Events(o);
      EventsState(p, d, t, last, now, observedAt);
      EndingStates(p, t, last, now, observedAt, o, events);
    }
  }

  /** A cycle of the production service, with a firmware executor that runs and did not panic, and a sound CPU
      publication, as the observer stores them when its clock is monotone. Whatever the platform answers and
      whichever deadlines pass, it is an internal defect only if a snapshot would be dated with the zero time;
      otherwise it ends with the service's lifecycle, without a useful snapshot, or with one that states exactly
      what the platform states, with issues that say why anything is missing. */
  method ProductionCycle(
    p: Platform, t: Timing,
    ghost steps: seq<FirmwareExecutor.Step>, ghost token: FirmwareExecutor.Token, ghost way: FirmwareExecutor.Way,
    last: Outcome<CpuObserver.Publication>, now: int,
    reporter: Degradation.DegradationReporter, observedAt: nat, reportedAt: int)
    returns (r: Result, ghost events: seq<Degradation.Event>)
    requires FirmwareExecutor.IsAnswer(p.firmware, steps, token, way)
    requires CpuObserver.Sound(last, now) && reporter.Valid()
    modifies reporter
    ensures reporter.Valid()
    ensures r.LifecycleEnded? <==> exists j: nat :: j <= COPY && t.ended(j)
    ensures r.Published? || r.NoUsefulSnapshot? ==>
              && |reporter.history| == |old(reporter.history)| + 1
              && reporter.history[|old(reporter.history)|].events == events
    ensures ResultStates(p, t, last, now, observedAt, r, events)
    ensures r.Published? ==> FlagsReported(r.document, steps, token)
  {
    FirmwareExecutor.AnswerIsValid(p.firmware, steps, token, way);
    var d := CollectDomains(p);
    r, events := CycleOf(p, d, t, last, now, reporter, observedAt, reportedAt);
    if r.Published? {
      FlagsAreReported(p, t, r.document, steps, token, way);
    }
  }

  /** Without faults, a cycle gets through unless the lifecycle has ended before a stage. */
  lemma WithoutFaults(d: Domains, t: Timing)
    requires forall i: nat :: i < COPY ==> ValidDomain(d, i)
    ensures LifecycleEndsBefore(d, t, COPY + 1) <==> exists j: nat :: j <= COPY && t.ended(j)
    ensures LifecycleEndsBefore(d, t, COPY + 1) || (Reaches(d, t, COPY) && !t.ended(COPY))
  {
    FirstEnd(d, t, COPY + 1);
    FirstEnd(d, t, COPY);
  }

  /** Without faults, a cycle ends with the lifecycle if that has ended before any stage. */
  lemma {:induction false} FirstEnd(d: Domains, t: Timing, n: nat)
    requires forall i: nat :: i < COPY ==> ValidDomain(d, i)
    ensures LifecycleEndsBefore(d, t, n) <==> exists j: nat :: j < n && t.ended(j)
    ensures Reaches(d, t, n) <==> forall j: nat :: j < n ==> !t.ended(j)
  {
    forall j: nat ensures !Faulty(d, t, j) {}
    if n > 0 {
      FirstEnd(d, t, n - 1);
      if Reaches(d, t, n - 1) && t.ended(n - 1) {
        assert LifecycleEndsBefore(d, t, n);
      }
    }
  }
}
