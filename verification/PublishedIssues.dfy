/** What the issues of a published document say, and what is reported about them. */
module PublishedIssues {
  import opened Text
  import opened Outcomes
  import opened Snapshot
  import opened SnapshotBuilding
  import opened Cycle
  import opened PlatformAnswers
  import opened PublishedDocument
  import Network
  import CpuObserver
  import Degradation
  import Acceptance

  // ----- One issue -----

  function CodeFor(denied: bool, unsupported: bool): string {
    if denied then "permission_denied" else if unsupported then "unsupported" else "temporarily_unavailable"
  }

  function MessageFor(denied: bool, unsupported: bool): string {
    "The metric is "
    + (if denied then "not accessible " else if unsupported then "unsupported " else "temporarily ")
    + (if denied then "to the service account." else if unsupported then "on this platform." else "unavailable.")
  }

  /** The issue at `path` has the code and message for a denied, an unsupported or a temporarily missing metric. */
  predicate Says(issues: seq<Issue>, path: string, denied: bool, unsupported: bool) {
    Issue(path, CodeFor(denied, unsupported), MessageFor(denied, unsupported)) in issues
  }

  lemma SaysReason(issues: seq<Issue>, path: string, reason: byte)
    requires IsReason(reason) && UnavailableIssue(path, reason) in issues
    ensures Says(issues, path, reason == PERMISSION_DENIED, reason == UNSUPPORTED)
  {
  }

  /** No two issues are about one path. */
  ghost predicate OnePerPath(issues: seq<Issue>) {
    forall i, j :: 0 <= i < j < |issues| ==> issues[i].path != issues[j].path
  }

  lemma IssuesAreOnePerPath(o: Observations)
    requires ValidObservations(o)
    ensures OnePerPath(Issues(o))
  {
    IssuePathsAreExpected(o, 1);
    Acceptance.DistinctExpected(DocumentOf(o, 1));
    forall i, j | 0 <= i < j < |Issues(o)| ensures Issues(o)[i].path != Issues(o)[j].path {
      assert Paths(Issues(o))[i] != Paths(Issues(o))[j];
    }
  }

  // ----- Every absent outcome has its issue -----

  /** The issue of an outcome at a path is in the list, if the outcome is absent. */
  ghost predicate Raises<T>(issues: seq<Issue>, o: Outcome<T>, path: string)
    requires ValidOutcome(o)
  {
    !o.Present? ==> UnavailableIssue(path, o.reason) in issues
  }

  ghost predicate AllIn(a: seq<Issue>, b: seq<Issue>) {
    forall issue :: issue in a ==> issue in b
  }

  lemma HostAndCpuIssues(o: Observations)
    requires ValidObservations(o)
    ensures Raises(Issues(o), o.host.uptime, UPTIME)
    ensures Raises(Issues(o), o.cpuLoad.logicalCpuCount, LOGICAL_CPU_COUNT) && Raises(Issues(o), o.cpuLoad.load, LOAD)
    ensures Raises(Issues(o), o.utilization, UTILIZATION)
  {
    HeadIssues(o);
  }

  lemma HeadIssues(o: Observations)
    requires ValidObservations(o)
    ensures AllIn(GenericIssues(o), Issues(o)) && AllIn(NetworkIssues(o.network), Issues(o))
  {
  }

  lemma BytesIssues(o: Observations)
    requires ValidObservations(o)
    ensures Raises(Issues(o), o.memory, MEMORY) && Raises(Issues(o), o.root, ROOT_FILESYSTEM)
  {
    HeadIssues(o);
  }

  lemma PiIssuesRaised(o: Observations)
    requires ValidObservations(o)
    ensures Raises(Issues(o), o.pi.temperature, SOC_TEMPERATURE)
    ensures Raises(Issues(o), o.pi.firmware, THROTTLING_ACTIVE) && Raises(Issues(o), o.pi.firmware, THROTTLING_OCCURRED)
    ensures Raises(Issues(o), o.pi.firmware, UNDERVOLTAGE_ACTIVE)
              && Raises(Issues(o), o.pi.firmware, UNDERVOLTAGE_OCCURRED)
  {
    var before := GenericIssues(o) + IssueAt(o.pi.temperature, SOC_TEMPERATURE);
    assert forall issue :: issue in FirmwareIssues(before, o.pi.firmware) ==> issue in Issues(o);
  }

  lemma FieldIssuesRaised(i: Network.Interface, k: nat)
    requires ValidOutcomes(i)
    ensures Raises(FieldIssues(i, k), i.state, InterfacePath(k, "state"))
    ensures Raises(FieldIssues(i, k), i.rxBytes, InterfacePath(k, "rx_bytes"))
    ensures Raises(FieldIssues(i, k), i.txBytes, InterfacePath(k, "tx_bytes"))
  {
  }

  lemma {:induction false} FieldIssuesAreIn(observed: seq<Network.Interface>, k: nat, issue: Issue)
    requires (forall i :: 0 <= i < |observed| ==> ValidOutcomes(observed[i])) && k < |observed|
    requires issue in FieldIssues(observed[k], k)
    ensures issue in InterfaceIssues(observed)
  {
    if k < |observed| - 1 {
      FieldIssuesAreIn(observed[..|observed| - 1], k, issue);
    }
  }

  // ----- What the issues of a document say -----

  ghost predicate HostIssues(p: Platform, t: Timing, d: Document) {
    d.uptime.None? ==>
      var err := ReadFailure(p, HOST, p.uptime);
      Says(d.issues, UPTIME, !t.expired(HOST) && Denied(err), !t.expired(HOST) && Unsupported(err))
  }

  ghost predicate CpuIssues(p: Platform, t: Timing, d: Document) {
    && (d.logicalCpuCount.None? ==>
          var err := ReadFailure(p, CPU_LOAD, p.online);
          Says(d.issues, LOGICAL_CPU_COUNT,
               InTime(t, CPU_LOAD) && Denied(err), InTime(t, CPU_LOAD) && Unsupported(err)))
    && (d.load.oneMinute.None? ==>
          var err := ReadFailure(p, CPU_LOAD, p.loadAverage);
          Says(d.issues, LOAD, InTime(t, CPU_LOAD) && Denied(err), InTime(t, CPU_LOAD) && Unsupported(err)))
  }

  ghost predicate BytesIssuesSay(p: Platform, t: Timing, d: Document) {
    && (d.memory.total.None? ==>
          var err := ReadFailure(p, MEMORY_DOMAIN, p.memoryInfo);
          Says(d.issues, MEMORY, InTime(t, MEMORY_DOMAIN) && Denied(err), InTime(t, MEMORY_DOMAIN) && Unsupported(err)))
    && (d.root.total.None? ==>
          var err := ReadFailure(p, ROOT_DOMAIN, p.filesystem);
          Says(d.issues, ROOT_FILESYSTEM,
               InTime(t, ROOT_DOMAIN) && Denied(err), InTime(t, ROOT_DOMAIN) && Unsupported(err)))
  }

  ghost predicate TemperatureIssue(p: Platform, t: Timing, d: Document) {
    d.pi.temperature.None? ==>
      Says(d.issues, SOC_TEMPERATURE,
           InTime(t, RASPBERRY_PI) && TemperatureDenied(p), InTime(t, RASPBERRY_PI) && TemperatureUnsupported(p))
  }

  /** All four flags share the reason of the executor's answer. */
  ghost predicate FlagIssues(p: Platform, t: Timing, d: Document) {
    d.pi.throttlingActive.None? ==>
      var denied := InTime(t, RASPBERRY_PI) && !p.firmware.Present? && p.firmware.reason == PERMISSION_DENIED;
      var unsupported := InTime(t, RASPBERRY_PI) && !p.firmware.Present? && p.firmware.reason == UNSUPPORTED;
      && Says(d.issues, THROTTLING_ACTIVE, denied, unsupported)
      && Says(d.issues, THROTTLING_OCCURRED, denied, unsupported)
      && Says(d.issues, UNDERVOLTAGE_ACTIVE, denied, unsupported)
      && Says(d.issues, UNDERVOLTAGE_OCCURRED, denied, unsupported)
  }

  /** A network that could not be listed has one issue; fields of a listed interface are temporarily unavailable. */
  ghost predicate NetworkIssue(p: Platform, t: Timing, d: Document) {
    match d.network
    case None =>
      var err := NetworkError(p.ctxErr(NETWORK_DOMAIN), p.links);
      Says(d.issues, NETWORK, InTime(t, NETWORK_DOMAIN) && Denied(err), InTime(t, NETWORK_DOMAIN) && Unsupported(err))
    case Some(interfaces) => forall k :: 0 <= k < |interfaces| ==> InterfaceIssue(d.issues, interfaces[k], k)
  }

  predicate InterfaceIssue(issues: seq<Issue>, n: NetworkInterface, k: nat) {
    && (n.state.None? ==> Says(issues, InterfacePath(k, "state"), false, false))
    && (n.rxBytes.None? ==> Says(issues, InterfacePath(k, "rx_bytes"), false, false))
    && (n.txBytes.None? ==> Says(issues, InterfacePath(k, "tx_bytes"), false, false))
  }

  /** A publication that is absent passes its reason on; any other obstacle is temporary. */
  ghost predicate UtilizationIssue(last: Outcome<CpuObserver.Publication>, d: Document) {
    d.utilization.None? ==>
      Says(d.issues, UTILIZATION,
           !last.Present? && last.reason == PERMISSION_DENIED, !last.Present? && last.reason == UNSUPPORTED)
  }

  /** Each missing metric has one issue, whose code and message say why: access was denied, or the source is
      missing on this platform, as the platform's own answer said in time; and otherwise temporarily. */
  ghost predicate IssuesStated(p: Platform, t: Timing, last: Outcome<CpuObserver.Publication>, d: Document) {
    && OnePerPath(d.issues)
    && HostIssues(p, t, d) && CpuIssues(p, t, d) && BytesIssuesSay(p, t, d)
    && TemperatureIssue(p, t, d) && FlagIssues(p, t, d) && NetworkIssue(p, t, d) && UtilizationIssue(last, d)
  }

  /** What a reasoned outcome's issue says, whether its domain was in time or not. */
  lemma ReasonedSays<T>(issues: seq<Issue>, o: Outcome<T>, path: string, inTime: bool, err: Option<Failure>)
    requires ValidOutcome(o) && Raises(issues, o, path) && !o.Present?
    requires if inTime then Reasoned(o, err) else o.reason == TEMPORARILY_UNAVAILABLE
    ensures Says(issues, path, inTime && Denied(err), inTime && Unsupported(err))
  {
    SaysReason(issues, path, o.reason);
  }

  lemma HostIssuesAreStated(p: Platform, d: Domains, t: Timing, o: Observations, doc: Document)
    requires Stated(p, d) && ValidObservations(o) && o.(utilization := Temporary()) == Observed(d, t)
    requires HasFields(doc, o) && doc.issues == Issues(o)
    ensures HostIssues(p, t, doc)
  {
    HostAndCpuIssues(o);
    if doc.uptime.None? {
      ReasonedSays(doc.issues, o.host.uptime, UPTIME, !t.expired(HOST), ReadFailure(p, HOST, p.uptime));
    }
  }

  lemma CpuIssuesAreStated(p: Platform, d: Domains, t: Timing, o: Observations, doc: Document)
    requires Stated(p, d) && ValidObservations(o) && o.(utilization := Temporary()) == Observed(d, t)
    requires HasFields(doc, o) && doc.issues == Issues(o)
    ensures CpuIssues(p, t, doc)
  {
    HostAndCpuIssues(o);
    var inTime := InTime(t, CPU_LOAD);
    if doc.logicalCpuCount.None? {
      ReasonedSays(doc.issues, o.cpuLoad.logicalCpuCount, LOGICAL_CPU_COUNT, inTime,
          ReadFailure(p, CPU_LOAD, p.online));
    }
    if doc.load.oneMinute.None? {
      ReasonedSays(doc.issues, o.cpuLoad.load, LOAD, inTime, ReadFailure(p, CPU_LOAD, p.loadAverage));
    }
  }

  lemma BytesIssuesAreStated(p: Platform, d: Domains, t: Timing, o: Observations, doc: Document)
    requires Stated(p, d) && ValidObservations(o) && o.(utilization := Temporary()) == Observed(d, t)
    requires HasFields(doc, o) && doc.issues == Issues(o)
    ensures BytesIssuesSay(p, t, doc)
  {
    BytesIssues(o);
    if doc.memory.total.None? {
      ReasonedSays(doc.issues, o.memory, MEMORY, InTime(t, MEMORY_DOMAIN), ReadFailure(p, MEMORY_DOMAIN, p.memoryInfo));
    }
    if doc.root.total.None? {
      ReasonedSays(doc.issues, o.root, ROOT_FILESYSTEM, InTime(t, ROOT_DOMAIN),
          ReadFailure(p, ROOT_DOMAIN, p.filesystem));
    }
  }

  lemma TemperatureIssueIsStated(p: Platform, d: Domains, t: Timing, o: Observations, doc: Document)
    requires Stated(p, d) && ValidObservations(o) && o.(utilization := Temporary()) == Observed(d, t)
    requires HasFields(doc, o) && doc.issues == Issues(o)
    ensures TemperatureIssue(p, t, doc)
  {
    PiIssuesRaised(o);
    if doc.pi.temperature.None? {
      SaysReason(doc.issues, SOC_TEMPERATURE, o.pi.temperature.reason);
    }
  }

  lemma FlagIssuesAreStated(p: Platform, d: Domains, t: Timing, o: Observations, doc: Document)
    requires d.pi.firmware == p.firmware && ValidObservations(o) && o.(utilization := Temporary()) == Observed(d, t)
    requires HasFields(doc, o) && doc.issues == Issues(o)
    ensures FlagIssues(p, t, doc)
  {
    PiIssuesRaised(o);
    if doc.pi.throttlingActive.None? {
      SaysReason(doc.issues, THROTTLING_ACTIVE, o.pi.firmware.reason);
      SaysReason(doc.issues, THROTTLING_OCCURRED, o.pi.firmware.reason);
      SaysReason(doc.issues, UNDERVOLTAGE_ACTIVE, o.pi.firmware.reason);
      SaysReason(doc.issues, UNDERVOLTAGE_OCCURRED, o.pi.firmware.reason);
    }
  }

  lemma InterfaceIssueIsStated(issues: seq<Issue>, observed: seq<Network.Interface>, k: nat, links: seq<Network.Link>)
    requires (forall i :: 0 <= i < |observed| ==> ValidOutcomes(observed[i])) && k < |observed|
    requires Network.ObservesSome(observed[k], links)
    requires AllIn(InterfaceIssues(observed), issues)
    ensures InterfaceIssue(issues, InterfaceOf(observed[k]), k)
  {
    var f := observed[k];
    FieldIssuesRaised(f, k);
    forall issue | issue in FieldIssues(f, k) ensures issue in issues {
      FieldIssuesAreIn(observed, k, issue);
    }
    if !f.state.Present? {
      SaysReason(issues, InterfacePath(k, "state"), f.state.reason);
    }
    if !f.rxBytes.Present? {
      SaysReason(issues, InterfacePath(k, "rx_bytes"), f.rxBytes.reason);
    }
    if !f.txBytes.Present? {
      SaysReason(issues, InterfacePath(k, "tx_bytes"), f.txBytes.reason);
    }
  }

  lemma ListedIssue(issues: seq<Issue>, observed: seq<Network.Interface>, k: nat, links: seq<Network.Link>)
    requires AllValid(observed) && k < |observed| && Network.ObservesCapable(links, observed)
    requires AllIn(InterfaceIssues(observed), issues)
    ensures InterfaceIssue(issues, InterfacesOf(observed)[k], k)
  {
    assert observed[k] in observed;
    InterfaceIssueIsStated(issues, observed, k, links);
  }

  lemma ListedIssues(issues: seq<Issue>, observed: seq<Network.Interface>, links: seq<Network.Link>)
    requires AllValid(observed) && Network.ObservesCapable(links, observed)
    requires AllIn(InterfaceIssues(observed), issues)
    ensures forall k :: 0 <= k < |observed| ==> InterfaceIssue(issues, InterfacesOf(observed)[k], k)
  {
    forall k | 0 <= k < |observed| ensures InterfaceIssue(issues, InterfacesOf(observed)[k], k) {
      ListedIssue(issues, observed, k, links);
    }
  }

  lemma UnlistedIssue(issues: seq<Issue>, network: Outcome<seq<Network.Interface>>)
    requires ValidNetwork(network) && !network.Present?
    requires AllIn(NetworkIssues(network), issues)
    ensures Raises(issues, network, NETWORK)
  {
    assert UnavailableIssue(NETWORK, network.reason) in NetworkIssues(network);
  }

  lemma NetworkIssuesAreStated(p: Platform, d: Domains, t: Timing, o: Observations, doc: Document)
    requires NetworkStated(p, d.network) && ValidObservations(o)
    requires o.network == if InTime(t, NETWORK_DOMAIN) then d.network else Temporary()
    requires HasFields(doc, o) && doc.issues == Issues(o)
    ensures NetworkIssue(p, t, doc)
  {
    HeadIssues(o);
    if o.network.Present? {
      Network.ExactObservesCapable(p.links.links, o.network.value);
      ListedIssues(doc.issues, o.network.value, p.links.links);
    } else {
      UnlistedIssue(doc.issues, o.network);
      var err := NetworkError(p.ctxErr(NETWORK_DOMAIN), p.links);
      ReasonedSays(doc.issues, o.network, NETWORK, InTime(t, NETWORK_DOMAIN), err);
    }
  }

  lemma UtilizationIssueIsStated(
    d: Domains, t: Timing, last: Outcome<CpuObserver.Publication>, now: int, doc: Document)
    requires CpuObserver.Sound(last, now) && ValidObservations(Complete(d, t, last, now))
    requires doc.utilization == ValueOf(Complete(d, t, last, now).utilization)
              && doc.issues == Issues(Complete(d, t, last, now))
    ensures UtilizationIssue(last, doc)
  {
    var o := Complete(d, t, last, now);
    CpuObserver.CopyNeverDefect(last, now, Observed(d, t).cpuLoad);
    HostAndCpuIssues(o);
    if doc.utilization.None? {
      SaysReason(doc.issues, UTILIZATION, o.utilization.reason);
    }
  }

  lemma IssuesAreStated(
    p: Platform, d: Domains, t: Timing, last: Outcome<CpuObserver.Publication>, now: int, observedAt: nat)
    requires Stated(p, d) && CpuObserver.Sound(last, now) && ValidObservations(Complete(d, t, last, now))
    ensures IssuesStated(p, t, last, DocumentOf(Complete(d, t, last, now), observedAt))
  {
    var o := Complete(d, t, last, now);
    var doc := DocumentOf(o, observedAt);
    IssuesAreOnePerPath(o);
    HostIssuesAreStated(p, d, t, o, doc);
    CpuIssuesAreStated(p, d, t, o, doc);
    BytesIssuesAreStated(p, d, t, o, doc);
    TemperatureIssueIsStated(p, d, t, o, doc);
    FlagIssuesAreStated(p, d, t, o, doc);
    NetworkIssuesAreStated(p, d, t, o, doc);
    UtilizationIssueIsStated(d, t, last, now, doc);
  }

  // ----- What is reported -----

  /** The reported events are those of the issues, one by one: the same metric, and the same code. */
  ghost predicate EventsMatch(events: seq<Degradation.Event>, issues: seq<Issue>) {
    |events| == |issues|
    && forall k :: 0 <= k < |issues| ==> events[k].metric == issues[k].path && events[k].reason == issues[k].code
  }

  lemma EventsAreIssues(o: Observations)
    requires ValidObservations(o) && o.host.hostname.Present?
    ensures EventsMatch(Acceptance.Events(o), Issues(o))
  {
  }

  /** Without a hostname, the first event says why. */
  ghost predicate HostnameReported(p: Platform, t: Timing, events: seq<Degradation.Event>) {
    var err := ReadFailure(p, HOST, p.hostname);
    && events != [] && events[0].metric == "/host/hostname"
    && events[0].reason == CodeFor(!t.expired(HOST) && Denied(err), !t.expired(HOST) && Unsupported(err))
  }

  lemma HostnameIsReported(p: Platform, d: Domains, t: Timing, o: Observations)
    requires Stated(p, d) && ValidObservations(o) && o.(utilization := Temporary()) == Observed(d, t)
    requires !o.host.hostname.Present?
    ensures HostnameReported(p, t, Acceptance.Events(o))
  {
  }
}
