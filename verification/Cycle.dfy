/** One collection cycle: six domains in a frozen order under deadlines, then the copied CPU utilisation.

    A domain's value is what its collector returns if it is called. When contexts become done is arbitrary.
 */
module Cycle {
  import opened Text
  import opened Outcomes
  import opened Snapshot
  import opened SnapshotBuilding
  import Network
  import CpuObserver
  import Degradation
  import Acceptance

  const HOST: nat := 0
  const CPU_LOAD: nat := 1
  const MEMORY_DOMAIN: nat := 2
  const ROOT_DOMAIN: nat := 3
  const RASPBERRY_PI: nat := 4
  const NETWORK_DOMAIN: nat := 5
  const COPY: nat := 6

  datatype Domains = Domains(
    host: HostObservation, cpuLoad: CpuLoadObservation, memory: Outcome<BytesObservation>,
        root: Outcome<BytesObservation>,
    pi: PiObservation, network: Outcome<seq<Network.Interface>>)

  /** When contexts are done: the service's when stage `i` is reached, the cycle's when stage `i` is reached, and
      the domain's when the collector of stage `i` has returned. */
  datatype Timing = Timing(ended: nat -> bool, overdue: nat -> bool, expired: nat -> bool)

  const UNAVAILABLE_CYCLE := Observations(
    HostObservation(Temporary(), Temporary()), CpuLoadObservation(Temporary(), "", Temporary()), Temporary(),
        Temporary(),
    PiObservation(Temporary(), Temporary()), Temporary(), Temporary())

  /** Only the first domain is run without a look at the cycle's deadline. */
  predicate Runs(t: Timing, i: nat) {
    i == HOST || !t.overdue(i)
  }

  predicate Contributes(t: Timing, i: nat) {
    Runs(t, i) && !t.expired(i)
  }

  ghost predicate ValidDomain(d: Domains, i: nat) {
    if i == HOST then ValidHost(d.host)
    else if i == CPU_LOAD then ValidCpuLoad(d.cpuLoad)
    else if i == MEMORY_DOMAIN then ValidBytes(d.memory)
    else if i == ROOT_DOMAIN then ValidBytes(d.root)
    else if i == RASPBERRY_PI then ValidPi(d.pi)
    else i == NETWORK_DOMAIN ==> ValidNetwork(d.network)
  }

  ghost predicate Faulty(d: Domains, t: Timing, i: nat) {
    i < COPY && Runs(t, i) && !ValidDomain(d, i)
  }

  /** No stage before `i` ended the cycle. */
  ghost predicate Reaches(d: Domains, t: Timing, i: nat) {
    forall j: nat {:trigger t.ended(j)} :: j < i ==> !t.ended(j) && !Faulty(d, t, j)
  }

  /** The observations when all domains are through: unavailable wherever a domain did not contribute. */
  function Observed(d: Domains, t: Timing): Observations {
    var u := UNAVAILABLE_CYCLE;
    Observations(
      if Contributes(t, HOST) then d.host else u.host,
      if Contributes(t, CPU_LOAD) then d.cpuLoad else u.cpuLoad,
      if Contributes(t, MEMORY_DOMAIN) then d.memory else u.memory,
      if Contributes(t, ROOT_DOMAIN) then d.root else u.root,
      if Contributes(t, RASPBERRY_PI) then d.pi else u.pi,
      if Contributes(t, NETWORK_DOMAIN) then d.network else u.network,
      u.utilization)
  }

  function Complete(d: Domains, t: Timing, publication: Outcome<CpuObserver.Publication>, now: int): Observations {
    var o := Observed(d, t);
    o.(utilization := CpuObserver.CopyCpu(publication, now, o.cpuLoad))
  }

  datatype Gathered = Ended | Defective | Through(o: Observations)

  /** The validator a stage applies to its domain's value, run even if the domain expired. */
  method Validate(d: Domains, i: nat) returns (ok: bool)
    requires i < COPY
    ensures ok <==> ValidDomain(d, i)
  {
    if i == HOST { return ValidHost(d.host); }
    if i == CPU_LOAD { return ValidCpuLoad(d.cpuLoad); }
    if i == MEMORY_DOMAIN { return ValidBytes(d.memory); }
    if i == ROOT_DOMAIN { return ValidBytes(d.root); }
    if i == RASPBERRY_PI { return ValidPi(d.pi); }
    ok := ValidateNetwork(d.network);
  }

  /** One stage keeps its domain's value if its context is not done. */
  function Keep(o: Observations, d: Domains, i: nat): Observations
    requires i < COPY
  {
    if i == HOST then o.(host := d.host)
    else if i == CPU_LOAD then o.(cpuLoad := d.cpuLoad)
    else if i == MEMORY_DOMAIN then o.(memory := d.memory)
    else if i == ROOT_DOMAIN then o.(root := d.root)
    else if i == RASPBERRY_PI then o.(pi := d.pi)
    else o.(network := d.network)
  }

  method RunStage(d: Domains, t: Timing, i: nat, before: Gathered) returns (after: Gathered)
    requires i < COPY
    ensures !before.Through? ==> after == before
    ensures before.Through? ==>
              after == if t.ended(i) then Ended else if Faulty(d, t, i) then Defective
                       else Through(if Contributes(t, i) then Keep(before.o, d, i) else before.o)
  {
    if !before.Through? {
      return before;
    }
    if t.ended(i) {
      return Ended;
    }
    if !Runs(t, i) {
      return before;
    }
    var ok := Validate(d, i);
    if !ok {
      return Defective;
    }
    return if t.expired(i) then before else Through(Keep(before.o, d, i));
  }

  /** The first thing to end the cycle, before stage `i`, is the end of the service's lifecycle. */
  ghost predicate LifecycleEndsBefore(d: Domains, t: Timing, i: nat) {
    exists j: nat :: j < i && Reaches(d, t, j) && t.ended(j)
  }

  /** The first thing to end the cycle, before stage `i`, is a value its validator refused. */
  ghost predicate FaultBefore(d: Domains, t: Timing, i: nat) {
    exists j: nat :: j < i && Reaches(d, t, j) && !t.ended(j) && Faulty(d, t, j)
  }

  /** How the stages before `i` end a cycle. */
  ghost predicate EndsBy(d: Domains, t: Timing, i: nat, g: Gathered) {
    match g
    case Ended => LifecycleEndsBefore(d, t, i)
    case Defective => FaultBefore(d, t, i)
    case Through(_) => Reaches(d, t, i)
  }

  /** Whatever a domain that did not contribute would have been, it is temporarily unavailable, and without the
      CPU list no publication passes as the utilisation, however fresh it is. */
  ghost predicate OnlyContributions(t: Timing, o: Observations) {
    && (!Contributes(t, HOST) ==> o.host == HostObservation(Temporary(), Temporary()))
    && (!Contributes(t, CPU_LOAD) ==>
          && o.cpuLoad == CpuLoadObservation(Temporary(), "", Temporary())
          && forall publication, now :: !CpuObserver.CopyCpu(publication, now, o.cpuLoad).Present?)
    && (!Contributes(t, MEMORY_DOMAIN) ==> o.memory == Temporary())
    && (!Contributes(t, ROOT_DOMAIN) ==> o.root == Temporary())
    && (!Contributes(t, RASPBERRY_PI) ==> o.pi == PiObservation(Temporary(), Temporary()))
    && (!Contributes(t, NETWORK_DOMAIN) ==> o.network == Temporary())
  }

  method Gather(d: Domains, t: Timing) returns (g: Gathered)
    ensures EndsBy(d, t, COPY, g)
    ensures g.Through? ==> g.o == Observed(d, t) && OnlyContributions(t, g.o)
  {
    g := RunStage(d, t, HOST, Through(UNAVAILABLE_CYCLE));
    g := RunStage(d, t, CPU_LOAD, g);
    g := RunStage(d, t, MEMORY_DOMAIN, g);
    g := RunStage(d, t, ROOT_DOMAIN, g);
    g := RunStage(d, t, RASPBERRY_PI, g);
    g := RunStage(d, t, NETWORK_DOMAIN, g);
  }

  // ----- The whole cycle -----

  datatype Result = LifecycleEnded | InternalDefect | NoUsefulSnapshot | Published(document: Document)

  lemma CopyIsPercentage(publication: Outcome<CpuObserver.Publication>, now: int, cpuLoad: CpuLoadObservation)
    requires ValidOutcome(CpuObserver.CopyCpu(publication, now, cpuLoad))
    ensures var copy := CpuObserver.CopyCpu(publication, now, cpuLoad);
      copy.Present? ==> NonNegative(copy.value) && copy.value.value <= 100.0
  {
  }

  /** The stages' validators are what finalisation relies on. */
  lemma ThroughIsValid(d: Domains, t: Timing, publication: Outcome<CpuObserver.Publication>, now: int)
    requires Reaches(d, t, COPY) && ValidOutcome(CpuObserver.CopyCpu(publication, now, Observed(d, t).cpuLoad))
    ensures ValidObservations(Complete(d, t, publication, now))
  {
    CopyIsPercentage(publication, now, Observed(d, t).cpuLoad);
    forall i | i == HOST || i == CPU_LOAD || i == MEMORY_DOMAIN || i == ROOT_DOMAIN || i == RASPBERRY_PI
        || i == NETWORK_DOMAIN
      ensures Contributes(t, i) ==> ValidDomain(d, i)
    {
      assert !t.ended(i) ==> true;
    }
  }

  /** The stages are through, and the utilisation was copied. */
  ghost predicate Completes(d: Domains, t: Timing, publication: Outcome<CpuObserver.Publication>, now: int) {
    Reaches(d, t, COPY) && !t.ended(COPY) && ValidOutcome(CpuObserver.CopyCpu(publication, now, Observed(d, t).cpuLoad))
  }

  /** Runs one cycle. It is an internal defect exactly if a validator refused a value, the copied utilisation is a
      defect, or a snapshot would have to be dated with the zero time. */
  method Collect(
    d: Domains, t: Timing, publication: Outcome<CpuObserver.Publication>, now: int,
    reporter: Degradation.DegradationReporter, observedAt: nat, reportedAt: int)
    returns (r: Result)
    requires reporter.Valid()
    modifies reporter
    ensures reporter.Valid()
    ensures r.LifecycleEnded? <==> LifecycleEndsBefore(d, t, COPY + 1)
    ensures Completes(d, t, publication, now) ==>
              var o := Complete(d, t, publication, now);
              && ValidObservations(o)
              && r == (match Acceptance.Ending(o, observedAt)
                       case InternalDefect => InternalDefect
                       case NoUsefulSnapshot => NoUsefulSnapshot
                       case Published(document) => Published(document))
              && (!r.InternalDefect? ==>
                    && |reporter.history| == |old(reporter.history)| + 1
                    && reporter.history[|old(reporter.history)|].events == Acceptance.Events(o))
    ensures !Completes(d, t, publication, now) ==> r.LifecycleEnded? || r.InternalDefect?
    ensures r.LifecycleEnded? || r.InternalDefect? ==> reporter.history == old(reporter.history)
  {
    var g := Gather(d, t);
    OneEnd(d, t);
    if g.Ended? {
      return LifecycleEnded;
    }
    if g.Defective? {
      return InternalDefect;
    }
    if t.ended(COPY) {
      return LifecycleEnded;
    }
    var copy := CpuObserver.CopyCpu(publication, now, g.o.cpuLoad);
    if !ValidOutcome(copy) {
      return InternalDefect;
    }
    ThroughIsValid(d, t, publication, now);
    var result := Acceptance.Finalize(g.o.(utilization := copy), observedAt, reporter, reportedAt);
    match result
    case InternalDefect => r := InternalDefect;
    case NoUsefulSnapshot => r := NoUsefulSnapshot;
    case Published(document) => r := Published(document);
  }

  /** A cycle ends in one way only. */
  lemma OneEnd(d: Domains, t: Timing)
    ensures LifecycleEndsBefore(d, t, COPY) ==> !FaultBefore(d, t, COPY) && !Reaches(d, t, COPY)
    ensures FaultBefore(d, t, COPY) ==> !Reaches(d, t, COPY)
    ensures LifecycleEndsBefore(d, t, COPY + 1) <==>
              LifecycleEndsBefore(d, t, COPY) || (Reaches(d, t, COPY) && t.ended(COPY))
  {
    forall j: nat, k: nat | EndsAt(d, t, j) && Reaches(d, t, k) ensures k <= j {
      assert j < k ==> !t.ended(j);
    }
    if j: nat :| j < COPY && Reaches(d, t, j) && t.ended(j) {
      assert EndsAt(d, t, j);
    }
    if j: nat :| j < COPY && Reaches(d, t, j) && !t.ended(j) && Faulty(d, t, j) {
      assert EndsAt(d, t, j);
    }
    if j: nat :| j < COPY + 1 && Reaches(d, t, j) && t.ended(j) {
      assert j == COPY || j < COPY;
    }
  }

  ghost predicate EndsAt(d: Domains, t: Timing, j: nat) {
    Reaches(d, t, j) && (t.ended(j) || Faulty(d, t, j))
  }
}
