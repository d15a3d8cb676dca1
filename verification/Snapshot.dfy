/** The snapshot schema's validator: the checks `Encode` makes before marshalling.

    The validator derives the list of issue paths a snapshot must carry from the fields that are
    missing, and rejects any snapshot whose issues differ from it in number, order or path.
 */
module Snapshot {
  import opened Text

  const MAXIMUM_INTERFACES: nat := 64

  const UNSUPPORTED_CODE := "unsupported"
  const PERMISSION_DENIED_CODE := "permission_denied"
  const TEMPORARILY_UNAVAILABLE_CODE := "temporarily_unavailable"

  const UPTIME := "/" + "uptime_seconds"
  const LOGICAL_CPU_COUNT := "/" + "cpu" + "/" + "logical_cpu_count"
  const LOAD := "/" + "load"
  const MEMORY := "/" + "memory"
  const ROOT_FILESYSTEM := "/" + "root_filesystem"
  const SOC_TEMPERATURE := "/" + "raspberry_pi" + "/" + "soc_temperature_celsius"
  const THROTTLING_ACTIVE := "/" + "raspberry_pi" + "/" + "thermal_throttling_active"
  const THROTTLING_OCCURRED := "/" + "raspberry_pi" + "/" + "thermal_throttling_occurred_since_boot"
  const UNDERVOLTAGE_ACTIVE := "/" + "raspberry_pi" + "/" + "undervoltage_active"
  const UNDERVOLTAGE_OCCURRED := "/" + "raspberry_pi" + "/" + "undervoltage_occurred_since_boot"
  const NETWORK := "/" + "network"
  const UTILIZATION := "/" + "cpu" + "/" + "utilization_percent"

  /** Binary64 values without rounding. */
  datatype Float = NaN | PositiveInfinity | NegativeInfinity | Finite(value: real)

  datatype Issue = Issue(path: string, code: string, message: string)

  datatype Bytes = Bytes(total: Option<uint64>, available: Option<uint64>, used: Option<uint64>)

  datatype Load = Load(oneMinute: Option<Float>, fiveMinutes: Option<Float>, fifteenMinutes: Option<Float>)

  datatype NetworkInterface = NetworkInterface(
    name: string, state: Option<string>, rxBytes: Option<uint64>, txBytes: Option<uint64>)

  datatype RaspberryPi = RaspberryPi(
    temperature: Option<Float>,
    throttlingActive: Option<bool>, throttlingOccurred: Option<bool>,
    undervoltageActive: Option<bool>, undervoltageOccurred: Option<bool>)

  /** `observedAt` is 0 for the zero time. */
  datatype Document = Document(
    observedAt: nat,
    hostname: string,
    utilization: Option<Float>,
    logicalCpuCount: Option<uint64>,
    load: Load,
    memory: Bytes,
    root: Bytes,
    uptime: Option<uint64>,
    network: Option<seq<NetworkInterface>>,
    pi: RaspberryPi,
    issues: seq<Issue>)

  // ----- Field checks -----

  predicate FiniteOrAbsent(value: Option<Float>) {
    value.Some? ==> value.value.Finite?
  }

  /** Both bounds are finite, or the upper one is absent for an unbounded range. */
  predicate InRange(value: Option<Float>, minimum: real, maximum: Option<real>) {
    && FiniteOrAbsent(value)
    && (value.Some? ==> minimum <= value.value.value && (maximum.Some? ==> value.value.value <= maximum.value))
  }

  ghost predicate AllOrNone(present: seq<bool>) {
    (forall i :: 0 <= i < |present| ==> present[i]) || (forall i :: 0 <= i < |present| ==> !present[i])
  }

  method ValidateAllOrNone(present: seq<bool>) returns (ok: bool)
    ensures ok <==> AllOrNone(present)
  {
    var count := 0;
    for i := 0 to |present|
      invariant 0 <= count <= i
      invariant count == i <==> forall j :: 0 <= j < i ==> present[j]
      invariant count == 0 <==> forall j :: 0 <= j < i ==> !present[j]
    {
      if present[i] {
        count := count + 1;
      }
    }
    ok := count == 0 || count == |present|;
  }

  predicate ConsistentBytes(b: Bytes) {
    && b.total.Some? == b.available.Some? == b.used.Some?
    && (b.total.Some? ==> b.available.value <= b.total.value && b.used.value == b.total.value - b.available.value)
  }

  ghost predicate ValidInterfaces(interfaces: seq<NetworkInterface>) {
    && |interfaces| <= MAXIMUM_INTERFACES
    && (forall i :: 0 <= i < |interfaces| ==> ValidInterface(interfaces[i]))
    && (forall i :: 0 < i < |interfaces| ==> AfterPrevious(interfaces, i))
  }

  predicate AfterPrevious(interfaces: seq<NetworkInterface>, i: int)
    requires 0 < i < |interfaces|
  {
    Less(interfaces[i - 1].name, interfaces[i].name)
  }

  predicate ValidInterface(i: NetworkInterface) {
    && i.name != "" && ValidUtf8(i.name)
    && (i.state.Some? ==> i.state.value != "" && ValidUtf8(i.state.value))
  }

  predicate ValidScalars(d: Document) {
    && d.observedAt != 0
    && d.hostname != "" && ValidUtf8(d.hostname)
    && InRange(d.utilization, 0.0, Some(100.0))
    && d.logicalCpuCount != Some(0)
    && InRange(d.load.oneMinute, 0.0, None) && InRange(d.load.fiveMinutes, 0.0, None)
    && InRange(d.load.fifteenMinutes, 0.0, None)
    && FiniteOrAbsent(d.pi.temperature)
    && d.load.oneMinute.Some? == d.load.fiveMinutes.Some? == d.load.fifteenMinutes.Some?
    && ConsistentBytes(d.memory)
    && ConsistentBytes(d.root)
    && d.pi.throttlingActive.Some? == d.pi.throttlingOccurred.Some? == d.pi.undervoltageActive.Some?
          == d.pi.undervoltageOccurred.Some?
  }

  ghost predicate WellFormed(d: Document) {
    ValidScalars(d) && (d.network.Some? ==> ValidInterfaces(d.network.value))
  }

  // ----- Expected issues and usable leaves -----

  function Missing(present: bool, path: string): seq<string> {
    if present then [] else [path]
  }

  function Count(present: bool, n: nat): nat {
    if present then n else 0
  }

  function InterfacePath(index: nat, field: string): string {
    "/network/interfaces/" + Format(index, 10) + "/" + field
  }

  function ExpectedInterfaces(interfaces: seq<NetworkInterface>): seq<string> {
    if interfaces == [] then []
    else
      var n := |interfaces| - 1;
      ExpectedInterfaces(interfaces[..n]) + MissingFields(interfaces[n], n)
  }

  function MissingFields(i: NetworkInterface, index: nat): seq<string> {
    Missing(i.state.Some?, InterfacePath(index, "state"))
    + Missing(i.rxBytes.Some?, InterfacePath(index, "rx_bytes"))
    + Missing(i.txBytes.Some?, InterfacePath(index, "tx_bytes"))
  }

  function ExpectedGeneric(d: Document): seq<string> {
    []
    + Missing(d.uptime.Some?, UPTIME)
    + Missing(d.logicalCpuCount.Some?, LOGICAL_CPU_COUNT)
    + Missing(d.load.oneMinute.Some?, LOAD)
    + Missing(d.memory.total.Some?, MEMORY)
    + Missing(d.root.total.Some?, ROOT_FILESYSTEM)
  }

  function ExpectedPi(before: seq<string>, pi: RaspberryPi): seq<string> {
    before
    + Missing(pi.temperature.Some?, SOC_TEMPERATURE)
    + Missing(pi.throttlingActive.Some?, THROTTLING_ACTIVE)
    + Missing(pi.throttlingOccurred.Some?, THROTTLING_OCCURRED)
    + Missing(pi.undervoltageActive.Some?, UNDERVOLTAGE_ACTIVE)
    + Missing(pi.undervoltageOccurred.Some?, UNDERVOLTAGE_OCCURRED)
  }

  function ExpectedNetwork(network: Option<seq<NetworkInterface>>): seq<string> {
    if network.None? then [NETWORK] else ExpectedInterfaces(network.value)
  }

  /** The paths at which the validator expects an issue, in order. */
  function Expected(d: Document): seq<string> {
    ExpectedPi(ExpectedGeneric(d), d.pi) + ExpectedNetwork(d.network) + Missing(d.utilization.Some?, UTILIZATION)
  }

  function UsableInterfaces(interfaces: seq<NetworkInterface>): nat {
    if interfaces == [] then 0
    else
      UsableInterfaces(interfaces[..|interfaces| - 1]) + UsableFields(interfaces[|interfaces| - 1])
  }

  /** An interface counts as a leaf itself: its name is always present. */
  function UsableFields(i: NetworkInterface): nat {
    1 + Count(i.state.Some?, 1) + Count(i.rxBytes.Some?, 1) + Count(i.txBytes.Some?, 1)
  }

  function UsableGeneric(d: Document): nat {
    Count(d.uptime.Some?, 1) + Count(d.logicalCpuCount.Some?, 1)
    + Count(d.load.oneMinute.Some?, 3) + Count(d.memory.total.Some?, 3) + Count(d.root.total.Some?, 3)
  }

  function UsablePi(pi: RaspberryPi): nat {
    Count(pi.temperature.Some?, 1)
    + Count(pi.throttlingActive.Some?, 1) + Count(pi.throttlingOccurred.Some?, 1)
    + Count(pi.undervoltageActive.Some?, 1) + Count(pi.undervoltageOccurred.Some?, 1)
  }

  /** The number of metric leaves that carry a value. */
  function Usable(d: Document): nat {
    UsableGeneric(d) + UsablePi(d.pi)
    + (if d.network.None? then 0 else UsableInterfaces(d.network.value))
    + Count(d.utilization.Some?, 1)
  }

  method CountOrIssue(present: bool, count: nat, path: string, usable: nat, expected: seq<string>)
    returns (usable': nat, expected': seq<string>)
    ensures usable' == usable + Count(present, count) && expected' == expected + Missing(present, path)
  {
    usable', expected' := usable, expected;
    if present {
      usable' := usable' + count;
      return;
    }
    expected' := expected' + [path];
  }

  method CountInterface(i: NetworkInterface, index: nat, usable: nat, expected: seq<string>)
    returns (usable': nat, expected': seq<string>)
    ensures usable' == usable + UsableFields(i) && expected' == expected + MissingFields(i, index)
  {
    usable' := usable + 1;
    usable', expected' := CountOrIssue(i.state.Some?, 1, InterfacePath(index, "state"), usable', expected);
    usable', expected' := CountOrIssue(i.rxBytes.Some?, 1, InterfacePath(index, "rx_bytes"), usable', expected');
    usable', expected' := CountOrIssue(i.txBytes.Some?, 1, InterfacePath(index, "tx_bytes"), usable', expected');
  }

  ghost predicate Counted(interfaces: seq<NetworkInterface>, usable: nat, expected: seq<string>, usable': nat,
      expected': seq<string>)
  {
    usable' == usable + UsableInterfaces(interfaces) && expected' == expected + ExpectedInterfaces(interfaces)
  }

  lemma CountedStep(interfaces: seq<NetworkInterface>, n: nat, usable: nat, expected: seq<string>, usable': nat,
      expected': seq<string>)
    requires n < |interfaces| && Counted(interfaces[..n], usable, expected, usable', expected')
    ensures Counted(interfaces[..n + 1], usable, expected,
                    usable' + UsableFields(interfaces[n]), expected' + MissingFields(interfaces[n], n))
  {
    assert interfaces[..n + 1][..n] == interfaces[..n];
  }

  method CheckInterfaces(interfaces: seq<NetworkInterface>, usable: nat, expected: seq<string>)
    returns (ok: bool, usable': nat, expected': seq<string>)
    ensures ok <==> ValidInterfaces(interfaces)
    ensures ok ==> Counted(interfaces, usable, expected, usable', expected')
  {
    usable', expected' := usable, expected;
    if |interfaces| > MAXIMUM_INTERFACES {
      return false, usable', expected';
    }
    var previousName := "";
    for index := 0 to |interfaces|
      invariant forall i :: 0 <= i < index ==> ValidInterface(interfaces[i])
      invariant forall i :: 0 < i < index ==> AfterPrevious(interfaces, i)
      invariant index > 0 ==> previousName == interfaces[index - 1].name
      invariant Counted(interfaces[..index], usable, expected, usable', expected')
    {
      var i := interfaces[index];
      assert index > 0 ==> AfterPrevious(interfaces, index) == Less(previousName, i.name);
      if !ValidInterface(i) || (index != 0 && !Less(previousName, i.name)) {
        return false, usable', expected';
      }
      CountedStep(interfaces, index, usable, expected, usable', expected');
      usable', expected' := CountInterface(i, index, usable', expected');
      previousName := i.name;
    }
    assert interfaces[..|interfaces|] == interfaces;
    return true, usable', expected';
  }

  method ValidateScalars(d: Document) returns (ok: bool)
    ensures ok <==> ValidScalars(d)
  {
    var load := ValidateAllOrNone([d.load.oneMinute.Some?, d.load.fiveMinutes.Some?, d.load.fifteenMinutes.Some?]);
    AllOfThree(d.load.oneMinute.Some?, d.load.fiveMinutes.Some?, d.load.fifteenMinutes.Some?);
    var p := d.pi;
    var firmware := ValidateAllOrNone([p.throttlingActive.Some?, p.throttlingOccurred.Some?, p.undervoltageActive.Some?,
        p.undervoltageOccurred.Some?]);
    AllOfFour(p.throttlingActive.Some?, p.throttlingOccurred.Some?, p.undervoltageActive.Some?,
        p.undervoltageOccurred.Some?);
    var memory := ValidateBytes(d.memory);
    var root := ValidateBytes(d.root);
    return d.observedAt != 0 && d.hostname != "" && ValidUtf8(d.hostname)
      && InRange(d.utilization, 0.0, Some(100.0)) && d.logicalCpuCount != Some(0)
      && InRange(d.load.oneMinute, 0.0, None) && InRange(d.load.fiveMinutes, 0.0, None)
      && InRange(d.load.fifteenMinutes, 0.0, None)
      && FiniteOrAbsent(d.pi.temperature) && load && memory && root && firmware;
  }

  method ValidateBytes(b: Bytes) returns (ok: bool)
    ensures ok <==> ConsistentBytes(b)
  {
    ok := ValidateAllOrNone([b.total.Some?, b.available.Some?, b.used.Some?]);
    AllOfThree(b.total.Some?, b.available.Some?, b.used.Some?);
    if ok && b.total.Some? {
      ok := b.available.value <= b.total.value && b.used.value == b.total.value - b.available.value;
    }
  }

  lemma AllOfThree(a: bool, b: bool, c: bool)
    ensures AllOrNone([a, b, c]) <==> a == b && b == c
  {
    var s := [a, b, c];
    assert s[0] == a && s[1] == b && s[2] == c;
  }

  lemma AllOfFour(a: bool, b: bool, c: bool, d: bool)
    ensures AllOrNone([a, b, c, d]) <==> a == b && b == c && c == d
  {
    var s := [a, b, c, d];
    assert s[0] == a && s[1] == b && s[2] == c && s[3] == d;
  }

  method CountGeneric(d: Document) returns (usable: nat, expected: seq<string>)
    ensures usable == UsableGeneric(d) && expected == ExpectedGeneric(d)
  {
    usable, expected := 0, [];
    usable, expected := CountOrIssue(d.uptime.Some?, 1, UPTIME, usable, expected);
    usable, expected := CountOrIssue(d.logicalCpuCount.Some?, 1, LOGICAL_CPU_COUNT, usable, expected);
    usable, expected := CountOrIssue(d.load.oneMinute.Some?, 3, LOAD, usable, expected);
    usable, expected := CountOrIssue(d.memory.total.Some?, 3, MEMORY, usable, expected);
    usable, expected := CountOrIssue(d.root.total.Some?, 3, ROOT_FILESYSTEM, usable, expected);
  }

  method CountPi(pi: RaspberryPi, before: nat, already: seq<string>) returns (usable: nat, expected: seq<string>)
    ensures usable == before + UsablePi(pi) && expected == ExpectedPi(already, pi)
  {
    usable, expected := CountOrIssue(pi.temperature.Some?, 1, SOC_TEMPERATURE, before, already);
    usable, expected := CountOrIssue(pi.throttlingActive.Some?, 1, THROTTLING_ACTIVE, usable, expected);
    usable, expected := CountOrIssue(pi.throttlingOccurred.Some?, 1, THROTTLING_OCCURRED, usable, expected);
    usable, expected := CountOrIssue(pi.undervoltageActive.Some?, 1, UNDERVOLTAGE_ACTIVE, usable, expected);
    usable, expected := CountOrIssue(pi.undervoltageOccurred.Some?, 1, UNDERVOLTAGE_OCCURRED, usable, expected);
  }

  method BuildDocument(d: Document) returns (ok: bool, expected: seq<string>, usable: nat)
    ensures ok <==> WellFormed(d)
    ensures ok ==> expected == Expected(d) && usable == Usable(d)
  {
    expected, usable := [], 0;
    ok := ValidateScalars(d);
    if !ok {
      return;
    }
    usable, expected := CountGeneric(d);
    usable, expected := CountPi(d.pi, usable, expected);
    if d.network.None? {
      expected := expected + [NETWORK];
    } else {
      ok, usable, expected := CheckInterfaces(d.network.value, usable, expected);
      if !ok {
        return;
      }
    }
    usable, expected := CountOrIssue(d.utilization.Some?, 1, UTILIZATION, usable, expected);
  }

  // ----- Issues -----

  predicate IsCode(code: string) {
    code == UNSUPPORTED_CODE || code == PERMISSION_DENIED_CODE || code == TEMPORARILY_UNAVAILABLE_CODE
  }

  predicate ValidIssue(issue: Issue) {
    IsCode(issue.code) && issue.message != "" && ValidUtf8(issue.message)
  }

  function Paths(issues: seq<Issue>): (paths: seq<string>) {
    seq(|issues|, i requires 0 <= i < |issues| => issues[i].path)
  }

  method ValidateIssues(issues: seq<Issue>, expected: seq<string>) returns (ok: bool)
    ensures ok <==> Paths(issues) == expected && forall i :: 0 <= i < |issues| ==> ValidIssue(issues[i])
  {
    if |issues| != |expected| {
      return false;
    }
    for index := 0 to |issues|
      invariant forall i :: 0 <= i < index ==> issues[i].path == expected[i] && ValidIssue(issues[i])
    {
      if issues[index].path != expected[index] {
        assert Paths(issues)[index] != expected[index];
        return false;
      }
      if !ValidIssue(issues[index]) {
        return false;
      }
    }
    return true;
  }

  const FIRMWARE_PATHS := [THROTTLING_ACTIVE, THROTTLING_OCCURRED, UNDERVOLTAGE_ACTIVE, UNDERVOLTAGE_OCCURRED]

  /** Issues about firmware flags agree: the flags come from one transaction. */
  ghost predicate CoherentFirmware(issues: seq<Issue>) {
    forall i, j :: 0 <= i < j < |issues| && issues[i].path in FIRMWARE_PATHS && issues[j].path in FIRMWARE_PATHS ==>
      issues[i].code == issues[j].code && issues[i].message == issues[j].message
  }

  method ValidateFirmwareIssues(d: Document) returns (ok: bool)
    ensures ok <==> d.pi.throttlingActive.Some? || CoherentFirmware(d.issues)
  {
    if d.pi.throttlingActive.Some? {
      return true;
    }
    var first: Option<Issue> := None;
    ghost var at := 0;
    for index := 0 to |d.issues|
      invariant first.None? ==> forall i :: 0 <= i < index ==> d.issues[i].path !in FIRMWARE_PATHS
      invariant first.Some? ==> 0 <= at < index && d.issues[at] == first.value && first.value.path in FIRMWARE_PATHS
      invariant first.Some? ==> forall i :: 0 <= i < index && d.issues[i].path in FIRMWARE_PATHS ==>
                  at <= i && d.issues[i].code == first.value.code && d.issues[i].message == first.value.message
    {
      var issue := d.issues[index];
      if issue.path in FIRMWARE_PATHS {
        if first.None? {
          first, at := Some(issue), index;
        } else if issue.code != first.value.code || issue.message != first.value.message {
          return false;
        }
      }
    }
    return true;
  }

  // ----- Verdict -----

  /** `Accepted` documents are marshalled. */
  datatype Verdict = Rejected | Useless | Accepted

  ghost predicate Acceptable(d: Document) {
    && WellFormed(d)
    && Paths(d.issues) == Expected(d)
    && (forall i :: 0 <= i < |d.issues| ==> ValidIssue(d.issues[i]))
    && (d.pi.throttlingActive.Some? || CoherentFirmware(d.issues))
  }

  method Encode(d: Document) returns (verdict: Verdict)
    ensures verdict == if !Acceptable(d) then Rejected else if Usable(d) == 0 then Useless else Accepted
  {
    var ok, expected, usable := BuildDocument(d);
    if !ok {
      return Rejected;
    }
    ok := ValidateIssues(d.issues, expected);
    if !ok {
      return Rejected;
    }
    ok := ValidateFirmwareIssues(d);
    if !ok {
      return Rejected;
    }
    return if usable == 0 then Useless else Accepted;
  }
}
