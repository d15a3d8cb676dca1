/** The end of a collection cycle: the finished document is never rejected, and its degradation events are
    never refused. */
module Acceptance {
  import opened Text
  import opened Outcomes
  import opened Snapshot
  import opened SnapshotBuilding
  import Network
  import Degradation
  import JsonPointer

  // ----- Paths are told apart by their length, interface paths by their prefix and fields -----

  const HOSTNAME := "/host/hostname"
  const INTERFACE_TAG: nat := 0

  /** The length of a path outside `/network/interfaces/`; all those paths have different lengths. */
  function Tag(path: string): nat {
    if |path| > 8 && path[1] == 'n' then INTERFACE_TAG else |path|
  }

  lemma GenericTags()
    ensures Tag(HOSTNAME) == 14 && Tag(UPTIME) == 15 && Tag(LOGICAL_CPU_COUNT) == 22
    ensures Tag(LOAD) == 5 && Tag(MEMORY) == 7 && Tag(ROOT_FILESYSTEM) == 16
    ensures Tag(NETWORK) == 8 && Tag(UTILIZATION) == 24
  {
  }

  lemma PiTags()
    ensures Tag(SOC_TEMPERATURE) == 37 && Tag(THROTTLING_ACTIVE) == 39 && Tag(THROTTLING_OCCURRED) == 52
    ensures Tag(UNDERVOLTAGE_ACTIVE) == 33 && Tag(UNDERVOLTAGE_OCCURRED) == 46
  {
  }

  lemma InterfaceTag(index: nat, field: string)
    ensures Tag(InterfacePath(index, field)) == INTERFACE_TAG && InterfacePath(index, field) != ""
  {
    assert InterfacePath(index, field)[1] == "/network/interfaces/"[1];
  }

  /** Interface paths are injective: the decimal index ends at the next slash. */
  lemma InterfacePathInjective(i: nat, f: string, j: nat, g: string)
    requires InterfacePath(i, f) == InterfacePath(j, g)
    ensures i == j && f == g
  {
    var prefix := "/network/interfaces/";
    var a, b := Format(i, 10) + "/" + f, Format(j, 10) + "/" + g;
    assert InterfacePath(i, f) == prefix + a && InterfacePath(j, g) == prefix + b;
    assert (prefix + a)[|prefix|..] == a && (prefix + b)[|prefix|..] == b;
    FormatValue(i, 10);
    FormatValue(j, 10);
    SlashEndsDigits(Format(i, 10), f, Format(j, 10), g);
    FormatInjective(i, j, 10);
  }

  lemma {:induction false} SlashEndsDigits(a: string, f: string, b: string, g: string)
    requires Digits(a, 10) && Digits(b, 10) && a + "/" + f == b + "/" + g
    ensures a == b && f == g
  {
    var s, t := a + "/" + f, b + "/" + g;
    assert s[0] == (if a == "" then '/' else a[0]) && t[0] == (if b == "" then '/' else b[0]);
    assert a != "" ==> s[0] != '/';
    assert b != "" ==> t[0] != '/';
    if a == "" {
      assert s[1..] == f && t[1..] == g;
    } else {
      assert s[1..] == a[1..] + "/" + f && t[1..] == b[1..] + "/" + g;
      SlashEndsDigits(a[1..], f, b[1..], g);
      assert a == [a[0]] + a[1..] && b == [b[0]] + b[1..];
    }
  }

  // ----- Every issue is valid, and firmware issues agree -----

  /** Issues that pass the validator one by one and, about firmware flags, carry one reason. */
  ghost predicate GoodIssues(issues: seq<Issue>, firmware: byte) {
    forall k :: 0 <= k < |issues| ==> GoodIssue(issues[k], firmware)
  }

  ghost predicate GoodIssue(issue: Issue, firmware: byte) {
    && ValidIssue(issue)
    && issue.path != ""
    && (Tag(issue.path) in {39, 52, 33, 46} ==>
          IsReason(firmware) && issue.code == Code(firmware) && issue.message == Message(firmware))
  }

  lemma CodesAreValid(reason: byte)
    requires IsReason(reason)
    ensures IsCode(Code(reason)) && Message(reason) != "" && ValidUtf8(Message(reason))
  {
    ReasonIsAscii(reason);
    AsciiIsValidUtf8(Message(reason));
  }

  predicate Ascii(s: string) {
    forall i :: 0 <= i < |s| ==> s[i] < '\U{80}'
  }

  lemma AsciiAppend(a: string, b: string, c: string)
    requires Ascii(a) && Ascii(b) && Ascii(c)
    ensures Ascii(a + b + c)
  {
  }

  lemma ReasonIsAscii(reason: byte)
    requires IsReason(reason)
    ensures Ascii(Message(reason)) && Message(reason) != ""
  {
    UnsupportedIsAscii();
    PermissionIsAscii();
    TemporaryIsAscii();
    AsciiAppend("The metric is ", "unsupported ", "on this platform.");
    AsciiAppend("The metric is ", "not accessible ", "to the service account.");
    AsciiAppend("The metric is ", "temporarily ", "unavailable.");
  }

  lemma UnsupportedIsAscii()
    ensures Ascii("The metric is ") && Ascii("unsupported ") && Ascii("on this platform.")
  {
  }

  lemma PermissionIsAscii()
    ensures Ascii("not accessible ") && Ascii("to the service account.")
  {
    assert "to the service account." == "to the service " + "account.";
    AsciiAppend("to the service ", "account.", "");
  }

  lemma TemporaryIsAscii()
    ensures Ascii("temporarily ") && Ascii("unavailable.")
  {
  }

  lemma GoodAppend<T>(before: seq<Issue>, o: Outcome<T>, path: string, firmware: byte)
    requires GoodIssues(before, firmware) && ValidOutcome(o) && path != ""
    requires !o.Present? && Tag(path) in {39, 52, 33, 46} ==> firmware == o.reason
    ensures GoodIssues(before + IssueAt(o, path), firmware)
  {
    if !o.Present? {
      CodesAreValid(o.reason);
    }
  }

  lemma GoodGeneric(o: Observations, firmware: byte)
    requires ValidObservations(o)
    ensures GoodIssues(GenericIssues(o), firmware)
  {
    GenericTags();
    var i1 := [] + IssueAt(o.host.uptime, UPTIME);
    var i2 := i1 + IssueAt(o.cpuLoad.logicalCpuCount, LOGICAL_CPU_COUNT);
    var i3 := i2 + IssueAt(o.cpuLoad.load, LOAD);
    var i4 := i3 + IssueAt(o.memory, MEMORY);
    GoodAppend([], o.host.uptime, UPTIME, firmware);
    GoodAppend(i1, o.cpuLoad.logicalCpuCount, LOGICAL_CPU_COUNT, firmware);
    GoodAppend(i2, o.cpuLoad.load, LOAD, firmware);
    GoodAppend(i3, o.memory, MEMORY, firmware);
    GoodAppend(i4, o.root, ROOT_FILESYSTEM, firmware);
  }

  lemma GoodPi(before: seq<Issue>, pi: PiObservation)
    requires ValidPi(pi) && GoodIssues(before, pi.firmware.reason)
    ensures GoodIssues(PiIssues(before, pi), pi.firmware.reason)
  {
    PiTags();
    var firmware := pi.firmware.reason;
    var i1 := before + IssueAt(pi.temperature, SOC_TEMPERATURE);
    var i2 := i1 + IssueAt(pi.firmware, THROTTLING_ACTIVE);
    var i3 := i2 + IssueAt(pi.firmware, THROTTLING_OCCURRED);
    var i4 := i3 + IssueAt(pi.firmware, UNDERVOLTAGE_ACTIVE);
    GoodAppend(before, pi.temperature, SOC_TEMPERATURE, firmware);
    GoodAppend(i1, pi.firmware, THROTTLING_ACTIVE, firmware);
    GoodAppend(i2, pi.firmware, THROTTLING_OCCURRED, firmware);
    GoodAppend(i3, pi.firmware, UNDERVOLTAGE_ACTIVE, firmware);
    GoodAppend(i4, pi.firmware, UNDERVOLTAGE_OCCURRED, firmware);
  }

  lemma GoodFields(i: Network.Interface, index: nat, firmware: byte)
    requires ValidOutcomes(i)
    ensures GoodIssues(FieldIssues(i, index), firmware)
  {
    InterfaceTag(index, "state");
    InterfaceTag(index, "rx_bytes");
    InterfaceTag(index, "tx_bytes");
    var i1 := [] + IssueAt(i.state, InterfacePath(index, "state"));
    var i2 := i1 + IssueAt(i.rxBytes, InterfacePath(index, "rx_bytes"));
    GoodAppend([], i.state, InterfacePath(index, "state"), firmware);
    GoodAppend(i1, i.rxBytes, InterfacePath(index, "rx_bytes"), firmware);
    GoodAppend(i2, i.txBytes, InterfacePath(index, "tx_bytes"), firmware);
    assert i1 == IssueAt(i.state, InterfacePath(index, "state"));
  }

  lemma {:induction false} GoodInterfaces(observed: seq<Network.Interface>, firmware: byte)
    requires forall k :: 0 <= k < |observed| ==> ValidOutcomes(observed[k])
    ensures GoodIssues(InterfaceIssues(observed), firmware)
  {
    if observed != [] {
      var n := |observed| - 1;
      GoodInterfaces(observed[..n], firmware);
      GoodFields(observed[n], n, firmware);
    }
  }

  lemma AllIssuesAreGood(o: Observations)
    requires ValidObservations(o)
    ensures GoodIssues(Issues(o), o.pi.firmware.reason)
  {
    var firmware := o.pi.firmware.reason;
    GoodGeneric(o, firmware);
    GoodPi(GenericIssues(o), o.pi);
    GoodNetwork(PiIssues(GenericIssues(o), o.pi), o.network, firmware);
    GenericTags();
    GoodAppend(PiIssues(GenericIssues(o), o.pi) + NetworkIssues(o.network), o.utilization, UTILIZATION, firmware);
  }

  lemma GoodNetwork(before: seq<Issue>, network: Outcome<seq<Network.Interface>>, firmware: byte)
    requires ValidNetwork(network) && GoodIssues(before, firmware)
    ensures GoodIssues(before + NetworkIssues(network), firmware)
  {
    GenericTags();
    if network.Present? {
      GoodInterfaces(network.value, firmware);
    } else {
      GoodAppend(before, network, NETWORK, firmware);
      assert IssueAt(network, NETWORK) == NetworkIssues(network);
    }
  }

  // ----- The document is well formed -----

  lemma DocumentIsWellFormed(o: Observations, t: nat)
    requires ValidObservations(o) && o.host.hostname.Present? && t != 0
    ensures WellFormed(DocumentOf(o, t))
  {
    if o.network.Present? {
      InterfacesAreWellFormed(o.network.value);
    }
  }

  lemma InterfacesAreWellFormed(observed: seq<Network.Interface>)
    requires ValidNetwork(Good(observed))
    ensures ValidInterfaces(InterfacesOf(observed))
  {
    var interfaces := InterfacesOf(observed);
    forall k | 0 <= k < |interfaces| ensures ValidInterface(interfaces[k]) {
      StateIsText(observed[k]);
    }
    forall k | 0 < k < |interfaces| ensures AfterPrevious(interfaces, k) {
      assert AfterPreviousName(observed, k);
    }
  }

  lemma StateIsText(i: Network.Interface)
    requires ValidObserved(i)
    ensures ValidInterface(InterfaceOf(i))
  {
    if i.state.Present? {
      AsciiIsValidUtf8(i.state.value);
    }
  }

  lemma FirmwareIsCoherent(o: Observations)
    requires ValidObservations(o)
    ensures CoherentFirmware(Issues(o))
  {
    AllIssuesAreGood(o);
    PiTags();
    var issues, firmware := Issues(o), o.pi.firmware.reason;
    forall k | 0 <= k < |issues| && issues[k].path in FIRMWARE_PATHS
      ensures GoodIssue(issues[k], firmware) && Tag(issues[k].path) in {39, 52, 33, 46}
    {
    }
  }

  /** No metric leaf carries a value. */
  predicate NothingUseful(o: Observations) {
    && !o.host.uptime.Present? && !o.cpuLoad.logicalCpuCount.Present? && !o.cpuLoad.load.Present?
    && !o.memory.Present? && !o.root.Present? && !o.pi.temperature.Present? && !o.pi.firmware.Present?
    && (o.network.Present? ==> o.network.value == []) && !o.utilization.Present?
  }

  lemma NoLeafIsCounted(o: Observations, t: nat)
    requires ValidObservations(o)
    ensures Usable(DocumentOf(o, t)) == 0 <==> NothingUseful(o)
  {
    if o.network.Present? && o.network.value != [] {
      var interfaces := InterfacesOf(o.network.value);
      assert UsableInterfaces(interfaces) >= UsableFields(interfaces[|interfaces| - 1]);
    }
  }

  /** The finaliser and the validator agree: with a hostname, the checks of `Encode` reject a cycle's document
      only if the clock is at the zero time. */
  lemma ValidatorAccepts(o: Observations, t: nat)
    requires ValidObservations(o) && o.host.hostname.Present?
    ensures Snapshot.Acceptable(DocumentOf(o, t)) <==> t != 0
  {
    if t != 0 {
      DocumentIsWellFormed(o, t);
    }
    IssuePathsAreExpected(o, t);
    AllIssuesAreGood(o);
    FirmwareIsCoherent(o);
    var issues := Issues(o);
    forall k | 0 <= k < |issues| ensures ValidIssue(issues[k]) {
      assert GoodIssue(issues[k], o.pi.firmware.reason);
    }
  }

  lemma IssuesPointAtNulls(o: Observations, t: nat)
    requires ValidObservations(o) && o.host.hostname.Present? && t != 0
    ensures forall k :: 0 <= k < |Issues(o)| ==> JsonPointer.PointsAtMissing(DocumentOf(o, t), Issues(o)[k].path)
  {
    var d, issues := DocumentOf(o, t), Issues(o);
    DocumentIsWellFormed(o, t);
    IssuePathsAreExpected(o, t);
    forall k | 0 <= k < |issues| ensures JsonPointer.PointsAtMissing(d, issues[k].path) {
      assert Paths(issues)[k] in Expected(d);
      JsonPointer.IssuesPointAtMissing(d, issues[k].path);
    }
  }

  lemma NullsHaveIssues(o: Observations, t: nat, tokens: seq<string>)
    requires ValidObservations(o) && o.host.hostname.Present? && t != 0
    ensures JsonPointer.Leads(JsonPointer.Tree(DocumentOf(o, t)), tokens, JsonPointer.Null) ==>
              exists k :: 0 <= k < |Issues(o)| && JsonPointer.Covers(Issues(o)[k].path, tokens)
  {
    var d, issues := DocumentOf(o, t), Issues(o);
    DocumentIsWellFormed(o, t);
    IssuePathsAreExpected(o, t);
    JsonPointer.MissingHasAnIssue(d, tokens);
    if p :| p in Expected(d) && JsonPointer.Covers(p, tokens) {
      assert p in Paths(issues);
      var k :| 0 <= k < |Paths(issues)| && Paths(issues)[k] == p;
      assert issues[k].path == p;
    }
  }

  /** The issues of a published document explain its nulls: each points at a null or at a group of nulls, and
      above every null there is one. */
  lemma IssuesExplainNulls(o: Observations, t: nat)
    requires ValidObservations(o) && o.host.hostname.Present? && t != 0
    ensures forall k :: 0 <= k < |Issues(o)| ==> JsonPointer.PointsAtMissing(DocumentOf(o, t), Issues(o)[k].path)
    ensures forall tokens :: JsonPointer.Leads(JsonPointer.Tree(DocumentOf(o, t)), tokens, JsonPointer.Null) ==>
                               exists k :: 0 <= k < |Issues(o)| && JsonPointer.Covers(Issues(o)[k].path, tokens)
  {
    IssuesPointAtNulls(o, t);
    forall tokens | JsonPointer.Leads(JsonPointer.Tree(DocumentOf(o, t)), tokens, JsonPointer.Null)
      ensures exists k :: 0 <= k < |Issues(o)| && JsonPointer.Covers(Issues(o)[k].path, tokens)
    {
      NullsHaveIssues(o, t, tokens);
    }
  }

  // ----- Degradation events -----

  function EventOf(issue: Issue): Degradation.Event {
    Degradation.Event(issue.path, issue.code)
  }

  function HostnameEvent(o: Observations): seq<Degradation.Event>
    requires ValidHost(o.host)
  {
    if o.host.hostname.Present? then [] else [Degradation.Event(HOSTNAME, Code(o.host.hostname.reason))]
  }

  function EventsOf(issues: seq<Issue>): seq<Degradation.Event> {
    seq(|issues|, k requires 0 <= k < |issues| => EventOf(issues[k]))
  }

  /** The degradation events of a cycle: the hostname's first, then one for each issue. */
  ghost function Events(o: Observations): seq<Degradation.Event>
    requires ValidObservations(o)
  {
    HostnameEvent(o) + EventsOf(Issues(o))
  }

  /** The paths are pairwise distinct, and the tags of those that are not interface paths are in `tags`. */
  ghost predicate DistinctPaths(paths: seq<string>, tags: set<nat>) {
    && (forall i, j :: 0 <= i < j < |paths| ==> paths[i] != paths[j])
    && (forall i :: 0 <= i < |paths| ==> Tag(paths[i]) in tags)
  }

  lemma DistinctAppend(paths: seq<string>, tags: set<nat>, present: bool, path: string)
    requires DistinctPaths(paths, tags) && Tag(path) !in tags
    ensures DistinctPaths(paths + Missing(present, path), tags + {Tag(path)})
  {
  }

  lemma DistinctGeneric(d: Document)
    ensures DistinctPaths(ExpectedGeneric(d), {15, 22, 5, 7, 16})
  {
    GenericTags();
    var p1 := [] + Missing(d.uptime.Some?, UPTIME);
    var p2 := p1 + Missing(d.logicalCpuCount.Some?, LOGICAL_CPU_COUNT);
    var p3 := p2 + Missing(d.load.oneMinute.Some?, LOAD);
    var p4 := p3 + Missing(d.memory.total.Some?, MEMORY);
    DistinctAppend([], {}, d.uptime.Some?, UPTIME);
    DistinctAppend(p1, {} + {15}, d.logicalCpuCount.Some?, LOGICAL_CPU_COUNT);
    DistinctAppend(p2, {} + {15} + {22}, d.load.oneMinute.Some?, LOAD);
    DistinctAppend(p3, {} + {15} + {22} + {5}, d.memory.total.Some?, MEMORY);
    DistinctAppend(p4, {} + {15} + {22} + {5} + {7}, d.root.total.Some?, ROOT_FILESYSTEM);
    assert {} + {15} + {22} + {5} + {7} + {16} == {15, 22, 5, 7, 16};
  }

  lemma DistinctPi(before: seq<string>, tags: set<nat>, pi: RaspberryPi)
    requires DistinctPaths(before, tags) && tags !! {37, 39, 52, 33, 46}
    ensures DistinctPaths(ExpectedPi(before, pi), tags + {37, 39, 52, 33, 46})
  {
    PiTags();
    var p1 := before + Missing(pi.temperature.Some?, SOC_TEMPERATURE);
    var p2 := p1 + Missing(pi.throttlingActive.Some?, THROTTLING_ACTIVE);
    var p3 := p2 + Missing(pi.throttlingOccurred.Some?, THROTTLING_OCCURRED);
    var p4 := p3 + Missing(pi.undervoltageActive.Some?, UNDERVOLTAGE_ACTIVE);
    DistinctAppend(before, tags, pi.temperature.Some?, SOC_TEMPERATURE);
    DistinctAppend(p1, tags + {37}, pi.throttlingActive.Some?, THROTTLING_ACTIVE);
    DistinctAppend(p2, tags + {37} + {39}, pi.throttlingOccurred.Some?, THROTTLING_OCCURRED);
    DistinctAppend(p3, tags + {37} + {39} + {52}, pi.undervoltageActive.Some?, UNDERVOLTAGE_ACTIVE);
    DistinctAppend(p4, tags + {37} + {39} + {52} + {33}, pi.undervoltageOccurred.Some?, UNDERVOLTAGE_OCCURRED);
    assert tags + {37} + {39} + {52} + {33} + {46} == tags + {37, 39, 52, 33, 46};
  }

  /** `path` is a field of one of the first `n` interfaces. */
  ghost predicate FieldBelow(path: string, n: nat) {
    exists i: nat, f :: i < n && path == InterfacePath(i, f)
  }

  lemma FieldsAreDistinct(i: NetworkInterface, index: nat)
    ensures forall j, k :: 0 <= j < k < |MissingFields(i, index)| ==>
              MissingFields(i, index)[j] != MissingFields(i, index)[k]
    ensures forall p :: p in MissingFields(i, index) ==>
              Tag(p) == INTERFACE_TAG && FieldBelow(p, index + 1) && !FieldBelow(p, index)
  {
    forall f, g | InterfacePath(index, f) == InterfacePath(index, g) ensures f == g {
      InterfacePathInjective(index, f, index, g);
    }
    assert |"state"| == 5 && |"rx_bytes"| == 8 && "rx_bytes"[0] == 'r' && "tx_bytes"[0] == 't';
    forall p | p in MissingFields(i, index)
      ensures Tag(p) == INTERFACE_TAG && FieldBelow(p, index + 1) && !FieldBelow(p, index)
    {
      var f :| p == InterfacePath(index, f);
      InterfaceTag(index, f);
      forall j: nat, g | j < index && p == InterfacePath(j, g) ensures false {
        InterfacePathInjective(index, f, j, g);
      }
    }
  }

  lemma {:induction false} DistinctInterfaces(interfaces: seq<NetworkInterface>)
    ensures DistinctPaths(ExpectedInterfaces(interfaces), {INTERFACE_TAG})
    ensures forall p :: p in ExpectedInterfaces(interfaces) ==> FieldBelow(p, |interfaces|)
    ensures |ExpectedInterfaces(interfaces)| <= 3 * |interfaces|
  {
    if interfaces != [] {
      var n := |interfaces| - 1;
      DistinctInterfaces(interfaces[..n]);
      FieldsAreDistinct(interfaces[n], n);
      var before := ExpectedInterfaces(interfaces[..n]);
      forall p | p in before ensures FieldBelow(p, n + 1) {
        var i: nat, f :| i < n && p == InterfacePath(i, f);
      }
    }
  }

  lemma DistinctConcat(a: seq<string>, tags: set<nat>, b: seq<string>, tags': set<nat>)
    requires DistinctPaths(a, tags) && DistinctPaths(b, tags') && tags !! tags'
    ensures DistinctPaths(a + b, tags + tags')
  {
    forall i, j | 0 <= i < j < |a + b| ensures (a + b)[i] != (a + b)[j] {
      if i < |a| <= j {
        assert Tag(a[i]) in tags && Tag(b[j - |a|]) in tags';
      }
    }
  }

  lemma DistinctHead(d: Document)
    ensures DistinctPaths(ExpectedPi(ExpectedGeneric(d), d.pi), {15, 22, 5, 7, 16} + {37, 39, 52, 33, 46})
    ensures |ExpectedPi(ExpectedGeneric(d), d.pi)| <= 10
  {
    DistinctGeneric(d);
    DistinctPi(ExpectedGeneric(d), {15, 22, 5, 7, 16}, d.pi);
  }

  lemma DistinctNetwork(network: Option<seq<NetworkInterface>>)
    requires network.Some? ==> |network.value| <= MAXIMUM_INTERFACES
    ensures DistinctPaths(ExpectedNetwork(network), {INTERFACE_TAG, 8})
    ensures |ExpectedNetwork(network)| <= 192
  {
    GenericTags();
    if network.Some? {
      DistinctInterfaces(network.value);
    }
  }

  lemma DistinctExpected(d: Document)
    requires d.network.Some? ==> |d.network.value| <= MAXIMUM_INTERFACES
    ensures DistinctPaths(Expected(d), {15, 22, 5, 7, 16} + {37, 39, 52, 33, 46} + {INTERFACE_TAG, 8} + {24})
    ensures |Expected(d)| <= 203
  {
    var tags := {15, 22, 5, 7, 16} + {37, 39, 52, 33, 46};
    DistinctHead(d);
    DistinctNetwork(d.network);
    var head := ExpectedPi(ExpectedGeneric(d), d.pi);
    DistinctConcat(head, tags, ExpectedNetwork(d.network), {INTERFACE_TAG, 8});
    GenericTags();
    DistinctAppend(head + ExpectedNetwork(d.network), tags + {INTERFACE_TAG, 8}, d.utilization.Some?, UTILIZATION);
  }

  /** All paths a cycle can report are pairwise distinct, and there are at most 204 of them. */
  lemma AllPathsAreDistinct(first: bool, d: Document, paths: seq<string>)
    requires paths == Missing(first, HOSTNAME) + Expected(d)
    requires d.network.Some? ==> |d.network.value| <= MAXIMUM_INTERFACES
    ensures forall i, j :: 0 <= i < j < |paths| ==> paths[i] != paths[j]
    ensures |paths| <= 204
  {
    GenericTags();
    DistinctExpected(d);
    var tags := {15, 22, 5, 7, 16} + {37, 39, 52, 33, 46} + {INTERFACE_TAG, 8} + {24};
    DistinctConcat(Missing(first, HOSTNAME), {14}, Expected(d), tags);
  }

  /** The degradation events of a cycle are never refused: they are pairwise distinct, valid, and at most 204. */
  lemma EventsAreAcceptable(o: Observations)
    requires ValidObservations(o)
    ensures Degradation.Acceptable(Events(o))
  {
    var events := Events(o);
    var d := DocumentOf(o, 1);
    var paths := Missing(o.host.hostname.Present?, HOSTNAME) + Expected(d);
    IssuePathsAreExpected(o, 1);
    AllPathsAreDistinct(o.host.hostname.Present?, d, paths);
    EventMetrics(o, paths);
    EventsAreValid(o);
    forall i, j | 0 <= i < j < |events| ensures events[i] != events[j] {
      assert paths[i] != paths[j];
    }
  }

  lemma EventsAreValid(o: Observations)
    requires ValidObservations(o)
    ensures forall k :: 0 <= k < |Events(o)| ==> Degradation.ValidEvent(Events(o)[k])
  {
    AllIssuesAreGood(o);
    if !o.host.hostname.Present? {
      CodesAreValid(o.host.hostname.reason);
    }
    IssueEventsAreValid(HostnameEvent(o), Issues(o), o.pi.firmware.reason);
  }

  lemma IssueEventsAreValid(head: seq<Degradation.Event>, issues: seq<Issue>, firmware: byte)
    requires GoodIssues(issues, firmware) && forall k :: 0 <= k < |head| ==> Degradation.ValidEvent(head[k])
    ensures forall k :: 0 <= k < |head + EventsOf(issues)| ==> Degradation.ValidEvent((head + EventsOf(issues))[k])
  {
    forall k | 0 <= k < |issues| ensures Degradation.ValidEvent(EventsOf(issues)[k]) {
      assert GoodIssue(issues[k], firmware);
    }
  }

  lemma EventMetrics(o: Observations, paths: seq<string>)
    requires ValidObservations(o) && paths == Missing(o.host.hostname.Present?, HOSTNAME) + Paths(Issues(o))
    ensures |Events(o)| == |paths| && forall k :: 0 <= k < |paths| ==> Events(o)[k].metric == paths[k]
  {
    MetricsAppend(HostnameEvent(o), Missing(o.host.hostname.Present?, HOSTNAME), Issues(o));
  }

  lemma MetricsAppend(events: seq<Degradation.Event>, metrics: seq<string>, issues: seq<Issue>)
    requires |events| == |metrics| && forall k :: 0 <= k < |events| ==> events[k].metric == metrics[k]
    ensures var all, paths := events + EventsOf(issues), metrics + Paths(issues);
      |all| == |paths| && forall k :: 0 <= k < |paths| ==> all[k].metric == paths[k]
  {
  }

  // ----- The bound of 204 is attained -----

  /** The first `n` of a strictly ordered family of interface names: "a", "aa", "aaa", ... */
  function Name(k: nat): string {
    if k == 0 then "a" else "a" + Name(k - 1)
  }

  lemma {:induction false} NamesAreOrdered(k: nat)
    ensures Less(Name(k), Name(k + 1)) && ValidUtf8(Name(k)) && Name(k) != ""
  {
    if k > 0 {
      NamesAreOrdered(k - 1);
    }
    assert Name(k)[1..] == if k == 0 then "" else Name(k - 1);
    assert Name(k + 1)[1..] == Name(k);
  }

  function Silent(k: nat): Network.Interface {
    Network.Interface(Name(k), Temporary(), Temporary(), Temporary())
  }

  function SilentInterfaces(n: nat): seq<Network.Interface> {
    seq(n, k requires 0 <= k < n => Silent(k))
  }

  /** Nothing is available, except that the network lists as many interfaces as it may. */
  const WORST := Observations(
    HostObservation(Temporary(), Temporary()), CpuLoadObservation(Temporary(), "", Temporary()),
    Temporary(), Temporary(), PiObservation(Temporary(), Temporary()),
    Good(SilentInterfaces(Network.MAXIMUM_INTERFACES)), Temporary())

  lemma {:induction false} SilentPaths(n: nat)
    ensures |ExpectedInterfaces(InterfacesOf(SilentInterfaces(n)))| == 3 * n
  {
    if n > 0 {
      SilentPaths(n - 1);
      var interfaces := InterfacesOf(SilentInterfaces(n));
      assert interfaces[..n - 1] == InterfacesOf(SilentInterfaces(n - 1));
    }
  }

  lemma WorstIsValid()
    ensures ValidObservations(WORST)
  {
    var observed := WORST.network.value;
    forall k | 0 <= k < |observed| ensures ValidObserved(observed[k]) {
      NamesAreOrdered(k);
    }
    forall k | 0 < k < |observed| ensures AfterPreviousName(observed, k) {
      NamesAreOrdered(k - 1);
    }
  }

  /** The reporter's bound is exact: some valid cycle reports 204 degradations. */
  lemma BoundIsAttained()
    ensures ValidObservations(WORST) && |Events(WORST)| == Degradation.MAXIMUM_STATES
  {
    WorstIsValid();
    IssuePathsAreExpected(WORST, 1);
    SilentPaths(Network.MAXIMUM_INTERFACES);
    var d := DocumentOf(WORST, 1);
    assert |ExpectedNetwork(d.network)| == 192;
    WorstSize(d);
    assert |Issues(WORST)| == |Paths(Issues(WORST))|;
  }

  lemma WorstSize(d: Document)
    requires d.uptime.None? && d.logicalCpuCount.None? && d.load.oneMinute.None? && d.utilization.None?
    requires d.memory.total.None? && d.root.total.None? && d.pi == RaspberryPi(None, None, None, None, None)
    ensures |Expected(d)| == 11 + |ExpectedNetwork(d.network)|
  {
    assert |ExpectedGeneric(d)| == 5;
    assert |ExpectedPi(ExpectedGeneric(d), d.pi)| == 10;
  }

  // ----- Finalisation -----

  datatype CycleResult = Published(document: Document) | NoUsefulSnapshot | InternalDefect

  /** How validated observations end their cycle: only a clock at the zero time makes them a defect. */
  ghost function Ending(o: Observations, observedAt: nat): CycleResult
    requires ValidObservations(o)
  {
    if !o.host.hostname.Present? then NoUsefulSnapshot
    else if observedAt == 0 then InternalDefect
    else if NothingUseful(o) then NoUsefulSnapshot
    else Published(DocumentOf(o, observedAt))
  }

  /** Ends a cycle: builds the document and its issues in the frozen order, encodes it, and reports what was
      degraded. `observedAt` and `reportedAt` are the two clock readings. */
  method Finalize(o: Observations, observedAt: nat, reporter: Degradation.DegradationReporter, reportedAt: int)
    returns (result: CycleResult)
    requires ValidObservations(o) && reporter.Valid()
    modifies reporter
    ensures reporter.Valid()
    ensures result == Ending(o, observedAt)
    ensures result.InternalDefect? ==> reporter.history == old(reporter.history)
    ensures !result.InternalDefect? ==>
              && |reporter.history| == |old(reporter.history)| + 1
              && reporter.history[..|old(reporter.history)|] == old(reporter.history)
              && reporter.history[|old(reporter.history)|].events == Events(o)
  {
    var d, issues := BuildSnapshot(o, observedAt);
    EventsAreAcceptable(o);
    var events := HostnameEvent(o) + EventsOf(issues);
    if !o.host.hostname.Present? {
      var reported := reporter.Report(events, reportedAt);
      return if reported then NoUsefulSnapshot else InternalDefect;
    }
    ValidatorAccepts(o, observedAt);
    NoLeafIsCounted(o, observedAt);
    var verdict := Encode(d);
    if verdict.Rejected? {
      return InternalDefect;
    }
    var reported := reporter.Report(events, reportedAt);
    if !reported {
      return InternalDefect;
    }
    return if verdict.Useless? then NoUsefulSnapshot else Published(d);
  }

  /** The field setters, in the order in which the issues must appear. */
  method BuildSnapshot(o: Observations, observedAt: nat) returns (d: Document, issues: seq<Issue>)
    requires ValidObservations(o)
    ensures d == DocumentOf(o, observedAt) && issues == Issues(o)
  {
    issues := [];
    var uptime, count, temperature, utilization;
    uptime, issues := SetValue(o.host.uptime, UPTIME, issues);
    count, issues := SetValue(o.cpuLoad.logicalCpuCount, LOGICAL_CPU_COUNT, issues);
    issues := issues + IssueAt(o.cpuLoad.load, LOAD);
    issues := issues + IssueAt(o.memory, MEMORY);
    issues := issues + IssueAt(o.root, ROOT_FILESYSTEM);
    temperature, issues := SetValue(o.pi.temperature, SOC_TEMPERATURE, issues);
    var pi;
    pi, issues := SetFirmware(temperature, o.pi.firmware, issues);
    var network;
    network, issues := SetNetwork(o.network, issues);
    utilization, issues := SetValue(o.utilization, UTILIZATION, issues);
    var hostname := if o.host.hostname.Present? then o.host.hostname.value else "";
    d := Document(observedAt, hostname, utilization, count, LoadOf(o.cpuLoad.load), BytesOf(o.memory), BytesOf(o.root),
                  uptime, network, pi, issues);
  }
}
