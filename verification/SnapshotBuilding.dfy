/** Building a snapshot and its issues from one cycle's observations, and why its validator accepts it. */
module SnapshotBuilding {
  import opened Text
  import opened Outcomes
  import opened Snapshot
  import Network

  datatype HostObservation = HostObservation(hostname: Outcome<string>, uptime: Outcome<uint64>)

  datatype LoadObservation = LoadObservation(oneMinute: Float, fiveMinutes: Float, fifteenMinutes: Float)

  datatype CpuLoadObservation = CpuLoadObservation(
    logicalCpuCount: Outcome<uint64>, signature: string, load: Outcome<LoadObservation>)

  datatype BytesObservation = BytesObservation(total: uint64, available: uint64, used: uint64)

  datatype FirmwareHealth = FirmwareHealth(
    throttlingActive: bool, throttlingOccurred: bool, undervoltageActive: bool, undervoltageOccurred: bool)

  datatype PiObservation = PiObservation(temperature: Outcome<Float>, firmware: Outcome<FirmwareHealth>)

  datatype Observations = Observations(
    host: HostObservation,
    cpuLoad: CpuLoadObservation,
    memory: Outcome<BytesObservation>,
    root: Outcome<BytesObservation>,
    pi: PiObservation,
    network: Outcome<seq<Network.Interface>>,
    utilization: Outcome<Float>)

  // ----- The validators of collector results -----

  predicate ValidHost(h: HostObservation) {
    && ValidOutcome(h.hostname)
    && (h.hostname.Present? ==> h.hostname.value != "" && ValidUtf8(h.hostname.value))
    && ValidOutcome(h.uptime)
  }

  predicate NonNegative(f: Float) {
    f.Finite? && f.value >= 0.0
  }

  predicate ValidCpuLoad(c: CpuLoadObservation) {
    && ValidOutcome(c.logicalCpuCount)
    && (c.logicalCpuCount.Present? ==> c.logicalCpuCount.value != 0 && c.signature != "")
    && (!c.logicalCpuCount.Present? ==> c.signature == "")
    && ValidOutcome(c.load)
    && (c.load.Present? ==>
          && NonNegative(c.load.value.oneMinute) && NonNegative(c.load.value.fiveMinutes)
          && NonNegative(c.load.value.fifteenMinutes))
  }

  predicate ValidBytes(o: Outcome<BytesObservation>) {
    && ValidOutcome(o)
    && (o.Present? ==> o.value.available <= o.value.total && o.value.used == o.value.total - o.value.available)
  }

  predicate ValidPi(p: PiObservation) {
    && ValidOutcome(p.temperature)
    && (p.temperature.Present? ==> p.temperature.value.Finite? && p.temperature.value.value >= -273.15)
    && ValidOutcome(p.firmware)
  }

  predicate ValidObserved(i: Network.Interface) {
    && i.name != "" && ValidUtf8(i.name)
    && ValidOutcome(i.state) && ValidOutcome(i.rxBytes) && ValidOutcome(i.txBytes)
    && (i.state.Present? ==> i.state.value == "up" || i.state.value == "down" || i.state.value == "unknown")
  }

  predicate AfterPreviousName(interfaces: seq<Network.Interface>, i: int)
    requires 0 < i < |interfaces|
  {
    Less(interfaces[i - 1].name, interfaces[i].name)
  }

  ghost predicate ValidNetwork(o: Outcome<seq<Network.Interface>>) {
    && ValidOutcome(o)
    && (o.Present? ==>
          && |o.value| <= Network.MAXIMUM_INTERFACES
          && (forall i :: 0 <= i < |o.value| ==> ValidObserved(o.value[i]))
          && (forall i :: 0 < i < |o.value| ==> AfterPreviousName(o.value, i)))
  }

  method ValidateNetwork(o: Outcome<seq<Network.Interface>>) returns (ok: bool)
    ensures ok <==> ValidNetwork(o)
  {
    if !ValidOutcome(o) || !o.Present? {
      return ValidOutcome(o);
    }
    if |o.value| > Network.MAXIMUM_INTERFACES {
      return false;
    }
    var previousName := "";
    for index := 0 to |o.value|
      invariant forall i :: 0 <= i < index ==> ValidObserved(o.value[i])
      invariant forall i :: 0 < i < index ==> AfterPreviousName(o.value, i)
      invariant index > 0 ==> previousName == o.value[index - 1].name
    {
      var i := o.value[index];
      assert index > 0 ==> AfterPreviousName(o.value, index) == Less(previousName, i.name);
      if !ValidObserved(i) || (index != 0 && !Less(previousName, i.name)) {
        return false;
      }
      previousName := i.name;
    }
    return true;
  }

  /** What holds of a cycle's observations when `finalize` is called: every domain passed its validator, and
      the utilisation outcome, copied last, carries only a percentage. */
  ghost predicate ValidObservations(o: Observations) {
    && ValidHost(o.host) && ValidCpuLoad(o.cpuLoad) && ValidBytes(o.memory) && ValidBytes(o.root)
    && ValidPi(o.pi) && ValidNetwork(o.network)
    && ValidOutcome(o.utilization)
    && (o.utilization.Present? ==> NonNegative(o.utilization.value) && o.utilization.value.value <= 100.0)
  }

  // ----- Issues -----

  function Code(reason: byte): string
    requires IsReason(reason)
  {
    if reason == UNSUPPORTED then UNSUPPORTED_CODE
    else if reason == PERMISSION_DENIED then PERMISSION_DENIED_CODE
    else TEMPORARILY_UNAVAILABLE_CODE
  }

  function Message(reason: byte): string
    requires IsReason(reason)
  {
    if reason == UNSUPPORTED then "The metric is " + "unsupported " + "on this platform."
    else if reason == PERMISSION_DENIED then "The metric is " + "not accessible " + "to the service account."
    else "The metric is " + "temporarily " + "unavailable."
  }

  function UnavailableIssue(path: string, reason: byte): Issue
    requires IsReason(reason)
  {
    Issue(path, Code(reason), Message(reason))
  }

  /** The issue an absent outcome leaves at `path`. */
  function IssueAt<T>(o: Outcome<T>, path: string): seq<Issue>
    requires ValidOutcome(o)
  {
    if o.Present? then [] else [UnavailableIssue(path, o.reason)]
  }

  function ValueOf<T>(o: Outcome<T>): Option<T> {
    if o.Present? then Some(o.value) else None
  }

  method SetValue<T>(o: Outcome<T>, path: string, issues: seq<Issue>) returns (field: Option<T>, issues': seq<Issue>)
    requires ValidOutcome(o)
    ensures field == ValueOf(o) && issues' == issues + IssueAt(o, path)
  {
    if o.Present? {
      return Some(o.value), issues;
    }
    return None, issues + [UnavailableIssue(path, o.reason)];
  }

  function LoadOf(o: Outcome<LoadObservation>): Load {
    if o.Present? then Load(Some(o.value.oneMinute), Some(o.value.fiveMinutes), Some(o.value.fifteenMinutes))
    else Load(None, None, None)
  }

  function BytesOf(o: Outcome<BytesObservation>): Bytes {
    if o.Present? then Bytes(Some(o.value.total), Some(o.value.available), Some(o.value.used))
    else Bytes(None, None, None)
  }

  function FirmwareOf(temperature: Option<Float>, o: Outcome<FirmwareHealth>): RaspberryPi {
    if o.Present? then
      RaspberryPi(temperature, Some(o.value.throttlingActive), Some(o.value.throttlingOccurred),
                  Some(o.value.undervoltageActive), Some(o.value.undervoltageOccurred))
    else RaspberryPi(temperature, None, None, None, None)
  }

  function FirmwareIssues(before: seq<Issue>, o: Outcome<FirmwareHealth>): seq<Issue>
    requires ValidOutcome(o)
  {
    before + IssueAt(o, THROTTLING_ACTIVE) + IssueAt(o, THROTTLING_OCCURRED)
    + IssueAt(o, UNDERVOLTAGE_ACTIVE) + IssueAt(o, UNDERVOLTAGE_OCCURRED)
  }

  method SetFirmware(temperature: Option<Float>, o: Outcome<FirmwareHealth>, issues: seq<Issue>)
    returns (pi: RaspberryPi, issues': seq<Issue>)
    requires ValidOutcome(o)
    ensures pi == FirmwareOf(temperature, o) && issues' == FirmwareIssues(issues, o)
  {
    issues' := issues;
    pi := FirmwareOf(temperature, o);
    if !o.Present? {
      for k := 0 to |FIRMWARE_PATHS|
        invariant issues' == issues
                  + seq(k, i requires 0 <= i < k <= |FIRMWARE_PATHS| => UnavailableIssue(FIRMWARE_PATHS[i], o.reason))
      {
        issues' := issues' + [UnavailableIssue(FIRMWARE_PATHS[k], o.reason)];
      }
    }
  }

  function InterfaceOf(i: Network.Interface): NetworkInterface {
    NetworkInterface(i.name, ValueOf(i.state), ValueOf(i.rxBytes), ValueOf(i.txBytes))
  }

  function InterfacesOf(observed: seq<Network.Interface>): seq<NetworkInterface> {
    seq(|observed|, k requires 0 <= k < |observed| => InterfaceOf(observed[k]))
  }

  predicate ValidOutcomes(i: Network.Interface) {
    ValidOutcome(i.state) && ValidOutcome(i.rxBytes) && ValidOutcome(i.txBytes)
  }

  function FieldIssues(i: Network.Interface, index: nat): seq<Issue>
    requires ValidOutcomes(i)
  {
    IssueAt(i.state, InterfacePath(index, "state"))
    + IssueAt(i.rxBytes, InterfacePath(index, "rx_bytes"))
    + IssueAt(i.txBytes, InterfacePath(index, "tx_bytes"))
  }

  function InterfaceIssues(observed: seq<Network.Interface>): seq<Issue>
    requires forall k :: 0 <= k < |observed| ==> ValidOutcomes(observed[k])
  {
    if observed == [] then []
    else
      var n := |observed| - 1;
      InterfaceIssues(observed[..n]) + FieldIssues(observed[n], n)
  }

  function NetworkIssues(o: Outcome<seq<Network.Interface>>): seq<Issue>
    requires ValidOutcome(o) && (o.Present? ==> forall k :: 0 <= k < |o.value| ==> ValidOutcomes(o.value[k]))
  {
    if o.Present? then InterfaceIssues(o.value) else [UnavailableIssue(NETWORK, o.reason)]
  }

  method SetInterface(observed: Network.Interface, index: nat, issues: seq<Issue>)
    returns (target: NetworkInterface, issues': seq<Issue>)
    requires ValidOutcomes(observed)
    ensures target == InterfaceOf(observed) && issues' == issues + FieldIssues(observed, index)
  {
    var state, rxBytes, txBytes;
    state, issues' := SetValue(observed.state, InterfacePath(index, "state"), issues);
    rxBytes, issues' := SetValue(observed.rxBytes, InterfacePath(index, "rx_bytes"), issues');
    txBytes, issues' := SetValue(observed.txBytes, InterfacePath(index, "tx_bytes"), issues');
    target := NetworkInterface(observed.name, state, rxBytes, txBytes);
  }

  ghost predicate AllValid(observed: seq<Network.Interface>) {
    forall k :: 0 <= k < |observed| ==> ValidOutcomes(observed[k])
  }

  /** The interfaces filled in and the issues appended for all observed ones. */
  ghost predicate Filled(
    observed: seq<Network.Interface>, issues: seq<Issue>, interfaces: seq<NetworkInterface>, issues': seq<Issue>)
  {
    && AllValid(observed)
    && interfaces == InterfacesOf(observed) && issues' == issues + InterfaceIssues(observed)
  }

  lemma FilledStep(
    front: seq<Network.Interface>, i: Network.Interface, issues: seq<Issue>,
    interfaces: seq<NetworkInterface>, issues': seq<Issue>)
    requires Filled(front, issues, interfaces, issues') && ValidOutcomes(i)
    ensures Filled(front + [i], issues, interfaces + [InterfaceOf(i)], issues' + FieldIssues(i, |front|))
  {
    OneMoreIsValid(front, i);
    IssuesOfOneMore(front, i);
    InterfacesOfOneMore(front, i);
    AppendTwice(issues, InterfaceIssues(front), FieldIssues(i, |front|));
  }

  lemma AppendTwice(a: seq<Issue>, b: seq<Issue>, c: seq<Issue>)
    ensures a + b + c == a + (b + c)
  {
  }

  lemma OneMoreIsValid(front: seq<Network.Interface>, i: Network.Interface)
    requires AllValid(front) && ValidOutcomes(i)
    ensures AllValid(front + [i])
  {
    var all := front + [i];
    forall k | 0 <= k < |all| ensures ValidOutcomes(all[k]) {
      assert all[k] == if k < |front| then front[k] else i;
    }
  }

  lemma IssuesOfOneMore(front: seq<Network.Interface>, i: Network.Interface)
    requires AllValid(front) && ValidOutcomes(i) && AllValid(front + [i])
    ensures InterfaceIssues(front + [i]) == InterfaceIssues(front) + FieldIssues(i, |front|)
  {
    LastIssues(front + [i]);
    assert (front + [i])[..|front|] == front;
  }

  lemma LastIssues(all: seq<Network.Interface>)
    requires AllValid(all) && all != []
    ensures AllValid(all[..|all| - 1])
    ensures InterfaceIssues(all) == InterfaceIssues(all[..|all| - 1]) + FieldIssues(all[|all| - 1], |all| - 1)
  {
  }

  lemma InterfacesOfOneMore(front: seq<Network.Interface>, i: Network.Interface)
    ensures InterfacesOf(front + [i]) == InterfacesOf(front) + [InterfaceOf(i)]
  {
  }

  method SetNetwork(o: Outcome<seq<Network.Interface>>, issues: seq<Issue>)
    returns (network: Option<seq<NetworkInterface>>, issues': seq<Issue>)
    requires ValidOutcome(o) && (o.Present? ==> forall k :: 0 <= k < |o.value| ==> ValidOutcomes(o.value[k]))
    ensures network == (if o.Present? then Some(InterfacesOf(o.value)) else None)
    ensures issues' == issues + NetworkIssues(o)
  {
    if !o.Present? {
      return None, issues + [UnavailableIssue(NETWORK, o.reason)];
    }
    var interfaces;
    interfaces, issues' := SetInterfaces(o.value, issues);
    network := Some(interfaces);
  }

  method SetInterfaces(observed: seq<Network.Interface>, issues: seq<Issue>)
    returns (interfaces: seq<NetworkInterface>, issues': seq<Issue>)
    requires forall k :: 0 <= k < |observed| ==> ValidOutcomes(observed[k])
    ensures interfaces == InterfacesOf(observed) && issues' == issues + InterfaceIssues(observed)
  {
    interfaces, issues' := [], issues;
    for index := 0 to |observed|
      invariant Filled(observed[..index], issues, interfaces, issues')
    {
      assert observed[..index + 1] == observed[..index] + [observed[index]];
      interfaces, issues' := FillNext(observed[..index], observed[index], issues, interfaces, issues');
    }
    assert observed[..|observed|] == observed;
  }

  /** One round of the loop: interface number |front|. */
  method FillNext(
    ghost front: seq<Network.Interface>, i: Network.Interface, ghost issues: seq<Issue>,
    before: seq<NetworkInterface>, issuesBefore: seq<Issue>)
    returns (interfaces: seq<NetworkInterface>, issues': seq<Issue>)
    requires Filled(front, issues, before, issuesBefore) && ValidOutcomes(i)
    ensures Filled(front + [i], issues, interfaces, issues')
  {
    var target;
    target, issues' := SetInterface(i, |before|, issuesBefore);
    interfaces := before + [target];
    FilledStep(front, i, issues, before, issuesBefore);
  }

  // ----- The document -----

  function GenericIssues(o: Observations): seq<Issue>
    requires ValidHost(o.host) && ValidCpuLoad(o.cpuLoad) && ValidBytes(o.memory) && ValidBytes(o.root)
  {
    []
    + IssueAt(o.host.uptime, UPTIME)
    + IssueAt(o.cpuLoad.logicalCpuCount, LOGICAL_CPU_COUNT)
    + IssueAt(o.cpuLoad.load, LOAD)
    + IssueAt(o.memory, MEMORY)
    + IssueAt(o.root, ROOT_FILESYSTEM)
  }

  function PiIssues(before: seq<Issue>, pi: PiObservation): seq<Issue>
    requires ValidPi(pi)
  {
    FirmwareIssues(before + IssueAt(pi.temperature, SOC_TEMPERATURE), pi.firmware)
  }

  /** All issues of a cycle, in the frozen order. */
  ghost function Issues(o: Observations): seq<Issue>
    requires ValidObservations(o)
  {
    PiIssues(GenericIssues(o), o.pi) + NetworkIssues(o.network) + IssueAt(o.utilization, UTILIZATION)
  }

  ghost function DocumentOf(o: Observations, observedAt: nat): Document
    requires ValidObservations(o)
  {
    Document(
      observedAt,
      if o.host.hostname.Present? then o.host.hostname.value else "",
      ValueOf(o.utilization),
      ValueOf(o.cpuLoad.logicalCpuCount),
      LoadOf(o.cpuLoad.load),
      BytesOf(o.memory),
      BytesOf(o.root),
      ValueOf(o.host.uptime),
      if o.network.Present? then Some(InterfacesOf(o.network.value)) else None,
      FirmwareOf(ValueOf(o.pi.temperature), o.pi.firmware),
      Issues(o))
  }

  // ----- Why the validator agrees -----

  lemma PathsAppend(a: seq<Issue>, b: seq<Issue>)
    ensures Paths(a + b) == Paths(a) + Paths(b)
  {
  }

  lemma PathsOf<T>(before: seq<Issue>, o: Outcome<T>, path: string)
    requires ValidOutcome(o)
    ensures Paths(before + IssueAt(o, path)) == Paths(before) + Missing(o.Present?, path)
  {
    PathsAppend(before, IssueAt(o, path));
    assert Paths(IssueAt(o, path)) == Missing(o.Present?, path);
  }

  lemma GenericPaths(o: Observations, t: nat)
    requires ValidObservations(o)
    ensures Paths(GenericIssues(o)) == ExpectedGeneric(DocumentOf(o, t))
  {
    var i1 := [] + IssueAt(o.host.uptime, UPTIME);
    var i2 := i1 + IssueAt(o.cpuLoad.logicalCpuCount, LOGICAL_CPU_COUNT);
    var i3 := i2 + IssueAt(o.cpuLoad.load, LOAD);
    var i4 := i3 + IssueAt(o.memory, MEMORY);
    PathsOf([], o.host.uptime, UPTIME);
    PathsOf(i1, o.cpuLoad.logicalCpuCount, LOGICAL_CPU_COUNT);
    PathsOf(i2, o.cpuLoad.load, LOAD);
    PathsOf(i3, o.memory, MEMORY);
    PathsOf(i4, o.root, ROOT_FILESYSTEM);
    assert Paths([]) == [];
  }

  lemma PiPaths(before: seq<Issue>, pi: PiObservation)
    requires ValidPi(pi)
    ensures Paths(PiIssues(before, pi)) == ExpectedPi(Paths(before), FirmwareOf(ValueOf(pi.temperature), pi.firmware))
  {
    var i1 := before + IssueAt(pi.temperature, SOC_TEMPERATURE);
    var i2 := i1 + IssueAt(pi.firmware, THROTTLING_ACTIVE);
    var i3 := i2 + IssueAt(pi.firmware, THROTTLING_OCCURRED);
    var i4 := i3 + IssueAt(pi.firmware, UNDERVOLTAGE_ACTIVE);
    PathsOf(before, pi.temperature, SOC_TEMPERATURE);
    PathsOf(i1, pi.firmware, THROTTLING_ACTIVE);
    PathsOf(i2, pi.firmware, THROTTLING_OCCURRED);
    PathsOf(i3, pi.firmware, UNDERVOLTAGE_ACTIVE);
    PathsOf(i4, pi.firmware, UNDERVOLTAGE_OCCURRED);
  }

  lemma FieldPaths(i: Network.Interface, index: nat)
    requires ValidOutcomes(i)
    ensures Paths(FieldIssues(i, index)) == MissingFields(InterfaceOf(i), index)
  {
    var i1 := [] + IssueAt(i.state, InterfacePath(index, "state"));
    var i2 := i1 + IssueAt(i.rxBytes, InterfacePath(index, "rx_bytes"));
    PathsOf([], i.state, InterfacePath(index, "state"));
    PathsOf(i1, i.rxBytes, InterfacePath(index, "rx_bytes"));
    PathsOf(i2, i.txBytes, InterfacePath(index, "tx_bytes"));
    assert Paths([]) == [] && i1 == IssueAt(i.state, InterfacePath(index, "state"));
  }

  lemma {:induction false} InterfacePaths(observed: seq<Network.Interface>)
    requires forall k :: 0 <= k < |observed| ==> ValidOutcomes(observed[k])
    ensures Paths(InterfaceIssues(observed)) == ExpectedInterfaces(InterfacesOf(observed))
  {
    if observed != [] {
      var n := |observed| - 1;
      InterfacePaths(observed[..n]);
      FieldPaths(observed[n], n);
      PathsAppend(InterfaceIssues(observed[..n]), FieldIssues(observed[n], n));
      assert InterfacesOf(observed)[..n] == InterfacesOf(observed[..n]);
    }
  }

  /** The issues a cycle appends are, in order and number, those the validator derives from the document. */
  lemma IssuePathsAreExpected(o: Observations, t: nat)
    requires ValidObservations(o)
    ensures Paths(Issues(o)) == Expected(DocumentOf(o, t))
  {
    var pi := PiIssues(GenericIssues(o), o.pi);
    GenericPaths(o, t);
    PiPaths(GenericIssues(o), o.pi);
    if o.network.Present? {
      InterfacePaths(o.network.value);
    }
    assert Paths(NetworkIssues(o.network)) == ExpectedNetwork(DocumentOf(o, t).network);
    PathsAppend(pi, NetworkIssues(o.network));
    PathsOf(pi + NetworkIssues(o.network), o.utilization, UTILIZATION);
  }
}
