/** What issue paths mean: each is a JSON Pointer (RFC 6901) to something missing in the encoded document, and
    everything missing is below one of them.

    A document is seen as the tree of its JSON values: nulls, other scalars, objects and arrays.
 */
module JsonPointer {
  import opened Text
  import opened Snapshot

  datatype Node = Null | Scalar | Object(members: map<string, Node>) | Array(items: seq<Node>)

  // ----- Pointers: sections 3 and 4 of RFC 6901 -----

  /** "~1" stands for a slash and "~0" for a tilde. */
  function Unescape(s: string): string {
    if s == "" then ""
    else if s[0] == '~' && |s| > 1 && s[1] == '1' then "/" + Unescape(s[2..])
    else if s[0] == '~' && |s| > 1 && s[1] == '0' then "~" + Unescape(s[2..])
    else [s[0]] + Unescape(s[1..])
  }

  function UnescapeAll(tokens: seq<string>): seq<string> {
    seq(|tokens|, i requires 0 <= i < |tokens| => Unescape(tokens[i]))
  }

  /** The reference tokens of a pointer; a text that is neither empty nor starts with a slash is no pointer. */
  function Tokens(path: string): Option<seq<string>> {
    if path == "" then Some([])
    else if path[0] != '/' then None
    else Some(UnescapeAll(Split(path[1..], '/')))
  }

  /** The array index a token denotes: decimal, without leading zeros. */
  predicate IsIndex(token: string, i: nat) {
    token == Format(i, 10)
  }

  /** The node `target` is what the tokens lead to from `node`. */
  predicate Leads(node: Node, tokens: seq<string>, target: Node)
    decreases |tokens|
  {
    if tokens == [] then node == target
    else
      match node
      case Object(members) => tokens[0] in members && Leads(members[tokens[0]], tokens[1..], target)
      case Array(items) => exists i: nat :: i < |items| && IsIndex(tokens[0], i) && Leads(items[i], tokens[1..], target)
      case _ => false
  }

  // ----- The document tree -----

  function Leaf<T>(o: Option<T>): Node {
    if o.Some? then Scalar else Null
  }

  function CpuNode(d: Document): Node {
    Object(map["utilization_percent" := Leaf(d.utilization), "logical_cpu_count" := Leaf(d.logicalCpuCount)])
  }

  function LoadNode(l: Load): Node {
    Object(map["one_minute" := Leaf(l.oneMinute), "five_minutes" := Leaf(l.fiveMinutes),
        "fifteen_minutes" := Leaf(l.fifteenMinutes)])
  }

  function BytesNode(b: Bytes): Node {
    Object(map["total_bytes" := Leaf(b.total), "available_bytes" := Leaf(b.available), "used_bytes" := Leaf(b.used)])
  }

  function InterfaceNode(i: NetworkInterface): Node {
    Object(map["name" := Scalar, "state" := Leaf(i.state), "rx_bytes" := Leaf(i.rxBytes),
        "tx_bytes" := Leaf(i.txBytes)])
  }

  function InterfaceNodes(interfaces: seq<NetworkInterface>): seq<Node> {
    seq(|interfaces|, k requires 0 <= k < |interfaces| => InterfaceNode(interfaces[k]))
  }

  function NetworkNode(network: Option<seq<NetworkInterface>>): Node {
    if network.None? then Null else Object(map["interfaces" := Array(InterfaceNodes(network.value))])
  }

  function PiNode(pi: RaspberryPi): Node {
    Object(map[
      "soc_temperature_celsius" := Leaf(pi.temperature),
      "thermal_throttling_active" := Leaf(pi.throttlingActive),
      "thermal_throttling_occurred_since_boot" := Leaf(pi.throttlingOccurred),
      "undervoltage_active" := Leaf(pi.undervoltageActive),
      "undervoltage_occurred_since_boot" := Leaf(pi.undervoltageOccurred)])
  }

  function IssueNodes(issues: seq<Issue>): seq<Node> {
    seq(|issues|, _ => Object(map["path" := Scalar, "code" := Scalar, "message" := Scalar]))
  }

  function HostNode(): Node {
    Object(map["hostname" := Scalar])
  }

  function MetricNodes(d: Document): map<string, Node> {
    map[
      "cpu" := CpuNode(d),
      "load" := LoadNode(d.load),
      "memory" := BytesNode(d.memory),
      "root_filesystem" := BytesNode(d.root),
      "uptime_seconds" := Leaf(d.uptime),
      "network" := NetworkNode(d.network),
      "raspberry_pi" := PiNode(d.pi)]
  }

  function OtherNodes(d: Document): map<string, Node> {
    map[
      "schema_version" := Scalar,
      "observed_at" := Scalar,
      "host" := HostNode(),
      "issues" := Array(IssueNodes(d.issues))]
  }

  function Tree(d: Document): Node {
    Object(OtherNodes(d) + MetricNodes(d))
  }

  lemma MetricMembers(d: Document)
    ensures var m := MetricNodes(d);
      && m.Keys == {"cpu", "load", "memory", "root_filesystem", "uptime_seconds", "network", "raspberry_pi"}
      && m["cpu"] == CpuNode(d) && m["load"] == LoadNode(d.load) && m["memory"] == BytesNode(d.memory)
      && m["root_filesystem"] == BytesNode(d.root) && m["uptime_seconds"] == Leaf(d.uptime)
      && m["network"] == NetworkNode(d.network) && m["raspberry_pi"] == PiNode(d.pi)
  {
  }

  /** No member that is not a metric is missing, or has a missing part. */
  lemma OtherMembers(d: Document)
    ensures OtherNodes(d).Keys == {"schema_version", "observed_at", "host", "issues"}
    ensures forall name :: name in OtherNodes(d) ==>
              OtherNodes(d)[name] == Scalar || OtherNodes(d)[name] == HostNode()
                  || OtherNodes(d)[name] == Array(IssueNodes(d.issues))
  {
  }

  lemma PiMembers(pi: RaspberryPi)
    ensures var m := PiNode(pi).members;
      && m.Keys == {"soc_temperature_celsius", "thermal_throttling_active", "thermal_throttling_occurred_since_boot",
                    "undervoltage_active", "undervoltage_occurred_since_boot"}
      && m["soc_temperature_celsius"] == Leaf(pi.temperature)
      && m["thermal_throttling_active"] == Leaf(pi.throttlingActive)
      && m["thermal_throttling_occurred_since_boot"] == Leaf(pi.throttlingOccurred)
      && m["undervoltage_active"] == Leaf(pi.undervoltageActive)
      && m["undervoltage_occurred_since_boot"] == Leaf(pi.undervoltageOccurred)
  {
  }

  lemma InterfaceMembers(i: NetworkInterface)
    ensures var m := InterfaceNode(i).members;
      && m.Keys == {"name", "state", "rx_bytes", "tx_bytes"}
      && m["name"] == Scalar && m["state"] == Leaf(i.state) && m["rx_bytes"] == Leaf(i.rxBytes)
      && m["tx_bytes"] == Leaf(i.txBytes)
  {
    assert "rx_bytes"[0] == 'r' && "tx_bytes"[0] == 't';
  }

  // ----- The tokens of the issue paths -----

  /** A name that stands for itself as a reference token. */
  predicate Plain(s: string) {
    forall i :: 0 <= i < |s| ==> s[i] != '/' && s[i] != '~'
  }

  lemma PlainAppend(a: string, b: string)
    requires Plain(a) && Plain(b)
    ensures Plain(a + b)
  {
  }

  lemma {:induction false} PlainIsUnescaped(s: string)
    requires Plain(s)
    ensures Unescape(s) == s
  {
    if s != "" {
      PlainIsUnescaped(s[1..]);
      assert s == [s[0]] + s[1..];
    }
  }

  /** The pointer with the given plain tokens. */
  function PointerTo(tokens: seq<string>): string {
    "/" + Join(tokens, '/')
  }

  lemma PlainTokens(tokens: seq<string>)
    requires tokens != [] && forall t :: t in tokens ==> Plain(t)
    ensures Tokens(PointerTo(tokens)) == Some(tokens)
  {
    var path := PointerTo(tokens);
    assert path[0] == '/' && path[1..] == Join(tokens, '/');
    SplitJoin(tokens, '/');
    forall i | 0 <= i < |tokens| ensures Unescape(tokens[i]) == tokens[i] {
      PlainIsUnescaped(tokens[i]);
    }
    assert UnescapeAll(tokens) == tokens;
  }

  lemma OneToken(a: string)
    requires Plain(a)
    ensures Tokens("/" + a) == Some([a])
  {
    PlainTokens([a]);
  }

  lemma TwoTokens(a: string, b: string)
    requires Plain(a) && Plain(b)
    ensures Tokens("/" + a + "/" + b) == Some([a, b])
  {
    assert Join([a, b], '/') == a + "/" + b by {
      assert [a, b][1..] == [b];
    }
    assert "/" + a + "/" + b == PointerTo([a, b]);
    PlainTokens([a, b]);
  }

  lemma {:induction false} DigitsArePlain(i: nat)
    ensures Plain(Format(i, 10))
  {
    FormatValue(i, 10);
    assert DigitValue('/') == 36 && DigitValue('~') == 36;
  }

  lemma JoinFour(a: string, b: string, c: string, d: string)
    ensures PointerTo([a, b, c, d]) == "/" + a + "/" + b + "/" + c + "/" + d
  {
    assert [a, b, c, d][1..] == [b, c, d] && [b, c, d][1..] == [c, d] && [c, d][1..] == [d];
    assert Join([c, d], '/') == c + "/" + d;
    assert Join([b, c, d], '/') == b + "/" + (c + "/" + d);
    assert Join([a, b, c, d], '/') == a + "/" + (b + "/" + (c + "/" + d));
  }

  lemma InterfacePrefix()
    ensures "/network/interfaces/" == "/" + "network" + "/" + "interfaces" + "/"
    ensures Plain("network") && Plain("interfaces")
  {
  }

  lemma InterfaceTokens(i: nat, field: string)
    requires Plain(field)
    ensures Tokens(InterfacePath(i, field)) == Some(["network", "interfaces", Format(i, 10), field])
  {
    DigitsArePlain(i);
    InterfacePrefix();
    JoinFour("network", "interfaces", Format(i, 10), field);
    PlainTokens(["network", "interfaces", Format(i, 10), field]);
  }

  lemma GenericNames()
    ensures Plain("uptime_seconds") && Plain("load") && Plain("memory") && Plain("root_filesystem") && Plain("network")
  {
  }

  lemma GenericTokens()
    ensures Tokens(UPTIME) == Some(["uptime_seconds"]) && Tokens(LOAD) == Some(["load"])
              && Tokens(MEMORY) == Some(["memory"])
    ensures Tokens(ROOT_FILESYSTEM) == Some(["root_filesystem"]) && Tokens(NETWORK) == Some(["network"])
  {
    GenericNames();
    OneToken("uptime_seconds");
    OneToken("load");
    OneToken("memory");
    OneToken("root_filesystem");
    OneToken("network");
  }

  lemma CpuNames()
    ensures Plain("cpu") && Plain("logical_cpu_count") && Plain("utilization_percent")
  {
  }

  lemma CpuTokens()
    ensures Tokens(LOGICAL_CPU_COUNT) == Some(["cpu", "logical_cpu_count"])
    ensures Tokens(UTILIZATION) == Some(["cpu", "utilization_percent"])
  {
    CpuNames();
    TwoTokens("cpu", "logical_cpu_count");
    TwoTokens("cpu", "utilization_percent");
  }

  lemma ThrottlingNames()
    ensures Plain("thermal_throttling_active") && Plain("thermal_throttling_occurred_since_boot")
  {
    assert "thermal_throttling_active" == "thermal_throttling" + "_active";
    assert "thermal_throttling_occurred_since_boot" == "thermal_throttling" + "_occurred_since_boot";
    PlainAppend("thermal_throttling", "_active");
    PlainAppend("thermal_throttling", "_occurred_since_boot");
  }

  lemma UndervoltageNames()
    ensures Plain("undervoltage_active") && Plain("undervoltage_occurred_since_boot")
  {
    assert "undervoltage_occurred_since_boot" == "undervoltage" + "_occurred_since_boot";
    PlainAppend("undervoltage", "_occurred_since_boot");
  }

  lemma PiNames()
    ensures Plain("raspberry_pi") && Plain("soc_temperature_celsius")
  {
    assert "soc_temperature_celsius" == "soc_temperature" + "_celsius";
    PlainAppend("soc_temperature", "_celsius");
  }

  lemma PiTokens()
    ensures Tokens(SOC_TEMPERATURE) == Some(["raspberry_pi", "soc_temperature_celsius"])
    ensures Tokens(THROTTLING_ACTIVE) == Some(["raspberry_pi", "thermal_throttling_active"])
    ensures Tokens(THROTTLING_OCCURRED) == Some(["raspberry_pi", "thermal_throttling_occurred_since_boot"])
    ensures Tokens(UNDERVOLTAGE_ACTIVE) == Some(["raspberry_pi", "undervoltage_active"])
    ensures Tokens(UNDERVOLTAGE_OCCURRED) == Some(["raspberry_pi", "undervoltage_occurred_since_boot"])
  {
    PiNames();
    ThrottlingNames();
    UndervoltageNames();
    TwoTokens("raspberry_pi", "soc_temperature_celsius");
    TwoTokens("raspberry_pi", "thermal_throttling_active");
    TwoTokens("raspberry_pi", "thermal_throttling_occurred_since_boot");
    TwoTokens("raspberry_pi", "undervoltage_active");
    TwoTokens("raspberry_pi", "undervoltage_occurred_since_boot");
  }

  // ----- Which paths are expected -----

  ghost predicate InterfaceExpected(interfaces: seq<NetworkInterface>, i: nat, field: string) {
    && i < |interfaces|
    && (|| (field == "state" && interfaces[i].state.None?)
        || (field == "rx_bytes" && interfaces[i].rxBytes.None?)
        || (field == "tx_bytes" && interfaces[i].txBytes.None?))
  }

  /** `p` is the path of a missing field. */
  ghost predicate IsFieldPath(interfaces: seq<NetworkInterface>, p: string, i: nat, field: string) {
    InterfaceExpected(interfaces, i, field) && p == InterfacePath(i, field)
  }

  lemma {:induction false} ExpectedIsField(interfaces: seq<NetworkInterface>, p: string) returns (i: nat, field: string)
    requires p in ExpectedInterfaces(interfaces)
    ensures IsFieldPath(interfaces, p, i, field)
  {
    var n := |interfaces| - 1;
    if p in ExpectedInterfaces(interfaces[..n]) {
      i, field := ExpectedIsField(interfaces[..n], p);
    } else {
      i := n;
      field := LastExpected(interfaces, n, p);
    }
  }

  lemma LastExpected(interfaces: seq<NetworkInterface>, n: nat, p: string) returns (field: string)
    requires |interfaces| == n + 1 && p in MissingFields(interfaces[n], n)
    ensures IsFieldPath(interfaces, p, n, field)
  {
    var i := interfaces[n];
    if p in Missing(i.state.Some?, InterfacePath(n, "state")) {
      field := "state";
    } else if p in Missing(i.rxBytes.Some?, InterfacePath(n, "rx_bytes")) {
      field := "rx_bytes";
    } else {
      field := "tx_bytes";
    }
  }

  lemma {:induction false} FieldIsExpected(interfaces: seq<NetworkInterface>, p: string, i: nat, field: string)
    requires IsFieldPath(interfaces, p, i, field)
    ensures p in ExpectedInterfaces(interfaces)
  {
    var n := |interfaces| - 1;
    if i < n {
      FieldIsExpected(interfaces[..n], p, i, field);
    } else {
      assert p in MissingFields(interfaces[n], n);
    }
  }

  predicate GenericExpected(d: Document, p: string) {
    || (p == UPTIME && d.uptime.None?)
    || (p == LOGICAL_CPU_COUNT && d.logicalCpuCount.None?)
    || (p == LOAD && d.load.oneMinute.None?)
    || (p == MEMORY && d.memory.total.None?)
    || (p == ROOT_FILESYSTEM && d.root.total.None?)
    || (p == NETWORK && d.network.None?)
    || (p == UTILIZATION && d.utilization.None?)
  }

  predicate PiExpected(pi: RaspberryPi, p: string) {
    || (p == SOC_TEMPERATURE && pi.temperature.None?)
    || (p == THROTTLING_ACTIVE && pi.throttlingActive.None?)
    || (p == THROTTLING_OCCURRED && pi.throttlingOccurred.None?)
    || (p == UNDERVOLTAGE_ACTIVE && pi.undervoltageActive.None?)
    || (p == UNDERVOLTAGE_OCCURRED && pi.undervoltageOccurred.None?)
  }

  lemma GenericIsExpected(d: Document, p: string)
    ensures p in ExpectedGeneric(d) <==>
              || (p == UPTIME && d.uptime.None?)
              || (p == LOGICAL_CPU_COUNT && d.logicalCpuCount.None?)
              || (p == LOAD && d.load.oneMinute.None?)
              || (p == MEMORY && d.memory.total.None?)
              || (p == ROOT_FILESYSTEM && d.root.total.None?)
  {
  }

  lemma PiIsExpected(before: seq<string>, pi: RaspberryPi, p: string)
    ensures p in ExpectedPi(before, pi) <==> p in before || PiExpected(pi, p)
  {
  }

  /** The paths at which the validator expects an issue, one by one. */
  lemma ExpectedPaths(d: Document, p: string)
    ensures p in Expected(d) <==>
              || GenericExpected(d, p) || PiExpected(d.pi, p)
              || (d.network.Some? && p in ExpectedInterfaces(d.network.value))
  {
    GenericIsExpected(d, p);
    PiIsExpected(ExpectedGeneric(d), d.pi, p);
    assert p in ExpectedNetwork(d.network) <==>
             if d.network.None? then p == NETWORK else p in ExpectedInterfaces(d.network.value);
    assert p in Expected(d) <==>
             p in ExpectedPi(ExpectedGeneric(d), d.pi) || p in ExpectedNetwork(d.network)
                 || p in Missing(d.utilization.Some?, UTILIZATION);
  }

  // ----- Every issue points at something missing -----

  /** A null, or a group all of whose members are null. */
  predicate IsMissing(n: Node) {
    n.Null? || (n.Object? && n.members != map[] && forall name :: name in n.members ==> n.members[name].Null?)
  }

  lemma OneStep(members: map<string, Node>, a: string)
    requires a in members
    ensures Leads(Object(members), [a], members[a])
  {
    assert [a][1..] == [];
  }

  lemma TwoSteps(members: map<string, Node>, a: string, below: map<string, Node>, b: string)
    requires a in members && members[a] == Object(below) && b in below
    ensures Leads(Object(members), [a, b], below[b])
  {
    OneStep(below, b);
    assert [a, b][1..] == [b];
  }

  lemma GroupsAreMissing(d: Document)
    requires WellFormed(d)
    ensures d.load.oneMinute.None? ==> IsMissing(LoadNode(d.load))
    ensures d.memory.total.None? ==> IsMissing(BytesNode(d.memory))
    ensures d.root.total.None? ==> IsMissing(BytesNode(d.root))
  {
    assert "one_minute" in LoadNode(d.load).members && "total_bytes" in BytesNode(d.memory).members
        && "total_bytes" in BytesNode(d.root).members;
  }

  /** What the path of an issue leads to. */
  ghost predicate PointsAtMissing(d: Document, p: string) {
    exists tokens, target :: Tokens(p) == Some(tokens) && Leads(Tree(d), tokens, target) && IsMissing(target)
  }

  lemma NamePointsAtMissing(d: Document, p: string, name: string)
    requires Tokens(p) == Some([name]) && name in MetricNodes(d) && IsMissing(MetricNodes(d)[name])
    ensures PointsAtMissing(d, p)
  {
    OneStep(Tree(d).members, name);
  }

  lemma FieldPointsAtMissing(d: Document, p: string, name: string, below: map<string, Node>, field: string)
    requires Tokens(p) == Some([name, field]) && name in MetricNodes(d) && MetricNodes(d)[name] == Object(below)
    requires field in below && IsMissing(below[field])
    ensures PointsAtMissing(d, p)
  {
    TwoSteps(Tree(d).members, name, below, field);
  }

  lemma CpuPointsAtMissing(d: Document)
    ensures d.logicalCpuCount.None? ==> PointsAtMissing(d, LOGICAL_CPU_COUNT)
    ensures d.utilization.None? ==> PointsAtMissing(d, UTILIZATION)
  {
    CpuTokens();
    MetricMembers(d);
    if d.logicalCpuCount.None? {
      FieldPointsAtMissing(d, LOGICAL_CPU_COUNT, "cpu", CpuNode(d).members, "logical_cpu_count");
    }
    if d.utilization.None? {
      FieldPointsAtMissing(d, UTILIZATION, "cpu", CpuNode(d).members, "utilization_percent");
    }
  }

  lemma GroupPointsAtMissing(d: Document)
    requires WellFormed(d)
    ensures d.load.oneMinute.None? ==> PointsAtMissing(d, LOAD)
    ensures d.memory.total.None? ==> PointsAtMissing(d, MEMORY)
    ensures d.root.total.None? ==> PointsAtMissing(d, ROOT_FILESYSTEM)
  {
    GenericTokens();
    GroupsAreMissing(d);
    MetricMembers(d);
    if d.load.oneMinute.None? {
      NamePointsAtMissing(d, LOAD, "load");
    }
    if d.memory.total.None? {
      NamePointsAtMissing(d, MEMORY, "memory");
    }
    if d.root.total.None? {
      NamePointsAtMissing(d, ROOT_FILESYSTEM, "root_filesystem");
    }
  }

  lemma NullPointsAtMissing(d: Document)
    ensures d.uptime.None? ==> PointsAtMissing(d, UPTIME)
    ensures d.network.None? ==> PointsAtMissing(d, NETWORK)
  {
    GenericTokens();
    MetricMembers(d);
    if d.uptime.None? {
      NamePointsAtMissing(d, UPTIME, "uptime_seconds");
    }
    if d.network.None? {
      NamePointsAtMissing(d, NETWORK, "network");
    }
  }

  lemma PiPointsAtMissing(d: Document, p: string)
    requires PiExpected(d.pi, p)
    ensures PointsAtMissing(d, p)
  {
    PiTokens();
    MetricMembers(d);
    PiMembers(d.pi);
    var field := Tokens(p).value[1];
    TwoSteps(Tree(d).members, "raspberry_pi", PiNode(d.pi).members, field);
    assert IsMissing(PiNode(d.pi).members[field]);
  }

  lemma FieldNames()
    ensures Plain("state") && Plain("rx_bytes") && Plain("tx_bytes")
  {
  }

  lemma InterfacePointsAtMissing(d: Document, p: string, i: nat, field: string)
    requires d.network.Some? && IsFieldPath(d.network.value, p, i, field)
    ensures PointsAtMissing(d, p)
  {
    FieldNames();
    InterfaceTokens(i, field);
    MetricMembers(d);
    InterfaceMembers(d.network.value[i]);
    var nodes := InterfaceNodes(d.network.value);
    var fields := nodes[i].members;
    OneStep(fields, field);
    var n := Format(i, 10);
    LeadsToItem(nodes, i, [field], fields[field]);
    var all := ["network", "interfaces", n, field];
    assert all[1..] == ["interfaces", n, field] && all[1..][1..] == [n] + [field];
    assert Leads(NetworkNode(d.network), all[1..], fields[field]);
    assert Leads(Tree(d), all, fields[field]);
  }

  lemma LeadsToItem(items: seq<Node>, i: nat, rest: seq<string>, target: Node)
    requires i < |items| && Leads(items[i], rest, target)
    ensures Leads(Array(items), [Format(i, 10)] + rest, target)
  {
    assert ([Format(i, 10)] + rest)[1..] == rest;
    assert IsIndex(([Format(i, 10)] + rest)[0], i);
  }

  /** Every path a well-formed document needs an issue for leads to a null, or to a group of nulls. */
  lemma IssuesPointAtMissing(d: Document, p: string)
    requires WellFormed(d) && p in Expected(d)
    ensures PointsAtMissing(d, p)
  {
    ExpectedPaths(d, p);
    if GenericExpected(d, p) {
      CpuPointsAtMissing(d);
      GroupPointsAtMissing(d);
      NullPointsAtMissing(d);
    } else if PiExpected(d.pi, p) {
      PiPointsAtMissing(d, p);
    } else {
      var i, field := ExpectedIsField(d.network.value, p);
      InterfacePointsAtMissing(d, p, i, field);
    }
  }

  // ----- Everything missing has an issue -----

  /** The path leads to where the tokens lead, or to a node on the way. */
  predicate Covers(p: string, tokens: seq<string>) {
    Tokens(p).Some? && Tokens(p).value <= tokens
  }

  ghost predicate Covered(d: Document, tokens: seq<string>) {
    exists p :: p in Expected(d) && Covers(p, tokens)
  }

  lemma CoveredBy(d: Document, p: string, path: seq<string>, tokens: seq<string>)
    requires p in Expected(d) && Tokens(p) == Some(path) && path <= tokens
    ensures Covered(d, tokens)
  {
    assert Covers(p, tokens);
  }

  lemma NothingBelow(tokens: seq<string>, target: Node)
    requires Leads(Null, tokens, target) || Leads(Scalar, tokens, target)
    ensures tokens == []
  {
  }

  /** A null below an object of leaves is one of its members. */
  lemma MemberOf(members: map<string, Node>, tokens: seq<string>)
    requires (forall name :: name in members ==> members[name].Null? || members[name].Scalar?)
              && Leads(Object(members), tokens, Null)
    ensures |tokens| == 1 && tokens[0] in members && members[tokens[0]].Null?
  {
    NothingBelow(tokens[1..], Null);
  }

  lemma CpuIsCovered(d: Document, tokens: seq<string>)
    requires |tokens| > 0 && tokens[0] == "cpu" && Leads(CpuNode(d), tokens[1..], Null)
    ensures Covered(d, tokens)
  {
    CpuTokens();
    MemberOf(CpuNode(d).members, tokens[1..]);
    if tokens[1] == "logical_cpu_count" {
      FieldCovers(d, LOGICAL_CPU_COUNT, "cpu", tokens[1], tokens);
    } else {
      FieldCovers(d, UTILIZATION, "cpu", tokens[1], tokens);
    }
  }

  lemma NullLoad(l: Load, rest: seq<string>)
    requires l.oneMinute.Some? == l.fiveMinutes.Some? == l.fifteenMinutes.Some? && Leads(LoadNode(l), rest, Null)
    ensures l.oneMinute.None?
  {
    MemberOf(LoadNode(l).members, rest);
  }

  lemma NullBytes(b: Bytes, rest: seq<string>)
    requires ConsistentBytes(b) && Leads(BytesNode(b), rest, Null)
    ensures b.total.None?
  {
    MemberOf(BytesNode(b).members, rest);
  }

  lemma NameCovers(d: Document, p: string, name: string, tokens: seq<string>)
    requires |tokens| > 0 && tokens[0] == name && Tokens(p) == Some([name]) && GenericExpected(d, p)
    ensures Covered(d, tokens)
  {
    ExpectedPaths(d, p);
    CoveredBy(d, p, [name], tokens);
  }

  lemma FieldCovers(d: Document, p: string, name: string, field: string, tokens: seq<string>)
    requires |tokens| == 2 && tokens[0] == name && tokens[1] == field && Tokens(p) == Some([name, field])
    requires GenericExpected(d, p) || PiExpected(d.pi, p)
    ensures Covered(d, tokens)
  {
    ExpectedPaths(d, p);
    CoveredBy(d, p, [name, field], tokens);
  }

  lemma GroupIsCovered(d: Document, tokens: seq<string>)
    requires WellFormed(d) && |tokens| > 0
    requires || (tokens[0] == "load" && Leads(LoadNode(d.load), tokens[1..], Null))
             || (tokens[0] == "memory" && Leads(BytesNode(d.memory), tokens[1..], Null))
             || (tokens[0] == "root_filesystem" && Leads(BytesNode(d.root), tokens[1..], Null))
    ensures Covered(d, tokens)
  {
    GenericTokens();
    if tokens[0] == "load" && Leads(LoadNode(d.load), tokens[1..], Null) {
      NullLoad(d.load, tokens[1..]);
      NameCovers(d, LOAD, "load", tokens);
    } else if tokens[0] == "memory" && Leads(BytesNode(d.memory), tokens[1..], Null) {
      NullBytes(d.memory, tokens[1..]);
      NameCovers(d, MEMORY, "memory", tokens);
    } else {
      NullBytes(d.root, tokens[1..]);
      NameCovers(d, ROOT_FILESYSTEM, "root_filesystem", tokens);
    }
  }

  lemma PiIsCovered(d: Document, tokens: seq<string>)
    requires |tokens| > 0 && tokens[0] == "raspberry_pi" && Leads(PiNode(d.pi), tokens[1..], Null)
    ensures Covered(d, tokens)
  {
    PiTokens();
    PiMembers(d.pi);
    MemberOf(PiNode(d.pi).members, tokens[1..]);
    var name := tokens[1];
    if name == "soc_temperature_celsius" {
      FieldCovers(d, SOC_TEMPERATURE, "raspberry_pi", name, tokens);
    } else if name == "thermal_throttling_active" {
      FieldCovers(d, THROTTLING_ACTIVE, "raspberry_pi", name, tokens);
    } else if name == "thermal_throttling_occurred_since_boot" {
      FieldCovers(d, THROTTLING_OCCURRED, "raspberry_pi", name, tokens);
    } else if name == "undervoltage_active" {
      FieldCovers(d, UNDERVOLTAGE_ACTIVE, "raspberry_pi", name, tokens);
    } else {
      FieldCovers(d, UNDERVOLTAGE_OCCURRED, "raspberry_pi", name, tokens);
    }
  }

  lemma NetworkIsCovered(d: Document, tokens: seq<string>)
    requires |tokens| > 0 && tokens[0] == "network" && Leads(NetworkNode(d.network), tokens[1..], Null)
    ensures Covered(d, tokens)
  {
    if d.network.None? {
      GenericTokens();
      ExpectedPaths(d, NETWORK);
      CoveredBy(d, NETWORK, ["network"], tokens);
    } else {
      InterfaceIsCovered(d, tokens);
    }
  }

  lemma InterfaceIsCovered(d: Document, tokens: seq<string>)
    requires |tokens| > 0 && tokens[0] == "network" && d.network.Some?
              && Leads(NetworkNode(d.network), tokens[1..], Null)
    ensures Covered(d, tokens)
  {
    var interfaces, nodes := d.network.value, InterfaceNodes(d.network.value);
    assert tokens[1] == "interfaces" && Leads(Array(nodes), tokens[1..][1..], Null);
    assert tokens[1..][1..] == tokens[2..];
    var i: nat :| i < |nodes| && IsIndex(tokens[2..][0], i) && Leads(nodes[i], tokens[2..][1..], Null);
    assert tokens[2..][1..] == tokens[3..];
    InterfaceMembers(interfaces[i]);
    MemberOf(nodes[i].members, tokens[3..]);
    assert tokens == ["network", "interfaces", Format(i, 10), tokens[3]];
    FieldIsCovered(d, interfaces, i, tokens[3]);
  }

  lemma FieldIsCovered(d: Document, interfaces: seq<NetworkInterface>, i: nat, field: string)
    requires d.network == Some(interfaces) && InterfaceExpected(interfaces, i, field)
    ensures Covered(d, ["network", "interfaces", Format(i, 10), field])
  {
    var p := InterfacePath(i, field);
    FieldNames();
    InterfaceTokens(i, field);
    FieldIsExpected(interfaces, p, i, field);
    ExpectedPaths(d, p);
    CoveredBy(d, p, Tokens(p).value, Tokens(p).value);
  }

  lemma ScalarsHaveNoNull(members: map<string, Node>, rest: seq<string>)
    requires forall name :: name in members ==> members[name] == Scalar
    ensures !Leads(Object(members), rest, Null)
  {
  }

  lemma OthersHaveNoNull(d: Document, name: string, rest: seq<string>)
    requires name in OtherNodes(d)
    ensures !Leads(OtherNodes(d)[name], rest, Null)
  {
    OtherMembers(d);
    ScalarsHaveNoNull(HostNode().members, rest);
    var issues := IssueNodes(d.issues);
    if rest != [] {
      forall i | 0 <= i < |issues| ensures !Leads(issues[i], rest[1..], Null) {
        ScalarsHaveNoNull(issues[i].members, rest[1..]);
      }
    }
  }

  /** A null below a metric is explained. */
  lemma MetricIsCovered(d: Document, tokens: seq<string>)
    requires WellFormed(d) && |tokens| > 0 && tokens[0] in MetricNodes(d)
    ensures Leads(MetricNodes(d)[tokens[0]], tokens[1..], Null) ==> Covered(d, tokens)
  {
    var name := tokens[0];
    MetricMembers(d);
    if Leads(MetricNodes(d)[name], tokens[1..], Null) {
      if name == "cpu" {
        CpuIsCovered(d, tokens);
      } else if name == "raspberry_pi" {
        PiIsCovered(d, tokens);
      } else if name == "network" {
        NetworkIsCovered(d, tokens);
      } else if name == "uptime_seconds" {
        NothingBelow(tokens[1..], Null);
        GenericTokens();
        NameCovers(d, UPTIME, "uptime_seconds", tokens);
      } else {
        GroupIsCovered(d, tokens);
      }
    }
  }

  /** A null of the document is below one of its members, metric or not. */
  lemma BelowAMember(d: Document, tokens: seq<string>)
    ensures Leads(Tree(d), tokens, Null) ==>
              && |tokens| > 0
              && if tokens[0] in MetricNodes(d) then Leads(MetricNodes(d)[tokens[0]], tokens[1..], Null)
                 else tokens[0] in OtherNodes(d) && Leads(OtherNodes(d)[tokens[0]], tokens[1..], Null)
  {
  }

  /** Every null of a well-formed document is explained by an issue: at the null, or at the group it is in. */
  lemma MissingHasAnIssue(d: Document, tokens: seq<string>)
    requires WellFormed(d)
    ensures Leads(Tree(d), tokens, Null) ==> Covered(d, tokens)
  {
    if Leads(Tree(d), tokens, Null) {
      BelowAMember(d, tokens);
      if tokens[0] in MetricNodes(d) {
        MetricIsCovered(d, tokens);
      } else {
        OthersHaveNoNull(d, tokens[0], tokens[1..]);
      }
    }
  }
}
