/** What the fields of a published document state about the platform. */
module PublishedDocument {
  import opened Text
  import opened Outcomes
  import opened Snapshot
  import opened SnapshotBuilding
  import opened Cycle
  import opened PlatformAnswers
  import Network
  import CpuList
  import Generic
  import Pi = RaspberryPi
  import CpuObserver
  import Sorting

  /** The field is exactly what the source states. */
  ghost predicate ExactField<T(!new)>(field: Option<T>, available: bool, states: T -> bool) {
    if field.Some? then available && states(field.value) else available ==> forall v :: !states(v)
  }

  function LoadField(l: Load): Option<LoadObservation> {
    if l.oneMinute.None? || l.fiveMinutes.None? || l.fifteenMinutes.None? then None
    else Some(LoadObservation(l.oneMinute.value, l.fiveMinutes.value, l.fifteenMinutes.value))
  }

  function BytesField(b: Bytes): Option<BytesObservation> {
    if b.total.None? || b.available.None? || b.used.None? then None
    else Some(BytesObservation(b.total.value, b.available.value, b.used.value))
  }

  function HealthField(pi: RaspberryPi): Option<FirmwareHealth> {
    if pi.throttlingActive.None? || pi.throttlingOccurred.None? || pi.undervoltageActive.None?
       || pi.undervoltageOccurred.None? then None
    else Some(FirmwareHealth(pi.throttlingActive.value, pi.throttlingOccurred.value,
                             pi.undervoltageActive.value, pi.undervoltageOccurred.value))
  }

  /** Neither the cycle was overdue when the domain's turn came, nor the domain's context done when it was
      through. The first domain has its turn in any case. */
  predicate InTime(t: Timing, i: nat) {
    !t.overdue(i) && !t.expired(i)
  }

  ghost predicate HostFields(p: Platform, t: Timing, d: Document) {
    && p.hostname == Got(d.hostname)
    && ExactField(d.uptime, !t.expired(HOST) && Readable(p, HOST, p.uptime),
                  n => Generic.IsUptime(TextOf(p.uptime), n))
  }

  ghost predicate CpuFields(p: Platform, t: Timing, d: Document) {
    && ExactField(d.logicalCpuCount, InTime(t, CPU_LOAD) && Readable(p, CPU_LOAD, p.online), n => IsCount(p, n))
    && ExactField(LoadField(d.load), InTime(t, CPU_LOAD) && Readable(p, CPU_LOAD, p.loadAverage),
                  l => Generic.IsLoad(p.parseFloat, TextOf(p.loadAverage), l))
  }

  ghost predicate BytesFields(p: Platform, t: Timing, d: Document) {
    && ExactField(BytesField(d.memory), InTime(t, MEMORY_DOMAIN) && Readable(p, MEMORY_DOMAIN, p.memoryInfo),
                  m => Generic.IsMemory(TextOf(p.memoryInfo), m))
    && ExactField(BytesField(d.root), InTime(t, ROOT_DOMAIN) && Readable(p, ROOT_DOMAIN, p.filesystem),
                  b => IsSizes(p.filesystem, b))
  }

  ghost predicate PiFields(p: Platform, t: Timing, d: Document) {
    && ExactField(d.pi.temperature, InTime(t, RASPBERRY_PI) && p.zones.Got?, v => IsTemperature(p, v))
    && HealthField(d.pi) == (if InTime(t, RASPBERRY_PI) then ValueOf(p.firmware) else None)
  }

  /** What is published about a link: its name, its state exactly for the operational states 0 to 6, and its own
      two counters, each exactly if the link has it. */
  predicate IsLink(n: NetworkInterface, link: Network.Link) {
    && n.name == link.name
    && (n.state.Some? <==> link.operState.Some? && link.operState.value <= 6)
    && (n.state.Some? ==>
          && (n.state.value == "up" <==> link.operState.value == 6)
          && (n.state.value == "unknown" <==> link.operState.value == 0)
          && (n.state.value == "down" <==> 1 <= link.operState.value <= 5))
    && n.rxBytes == link.rxBytes && n.txBytes == link.txBytes
  }

  ghost predicate IsSomeLink(n: NetworkInterface, links: seq<Network.Link>) {
    exists k :: 0 <= k < |links| && Network.Capable(links, links[k].index) && IsLink(n, links[k])
  }

  ghost predicate IsListed(link: Network.Link, network: seq<NetworkInterface>) {
    exists n :: n in network && IsLink(n, link)
  }

  /** The capable links, each once, in the order of their names. */
  ghost predicate ListsCapable(links: seq<Network.Link>, network: seq<NetworkInterface>) {
    && (forall n :: n in network ==> IsSomeLink(n, links))
    && (forall k :: 0 <= k < |links| && Network.Capable(links, links[k].index) ==> IsListed(links[k], network))
    && (forall i, j :: 0 <= i < j < |network| ==> Less(network[i].name, network[j].name))
  }

  lemma ObservedIsLink(f: Network.Interface, link: Network.Link)
    requires Network.Observes(f, link)
    ensures IsLink(InterfaceOf(f), link)
  {
  }

  lemma SomeLink(f: Network.Interface, links: seq<Network.Link>)
    requires Network.ObservesSome(f, links)
    ensures IsSomeLink(InterfaceOf(f), links)
  {
    var k :| 0 <= k < |links| && Network.Capable(links, links[k].index) && Network.Observes(f, links[k]);
    ObservedIsLink(f, links[k]);
  }

  lemma ListedLink(link: Network.Link, s: seq<Network.Interface>)
    requires Network.IsObserved(link, s)
    ensures IsListed(link, InterfacesOf(s))
  {
    var f :| f in s && Network.Observes(f, link);
    ObservedIsLink(f, link);
    var m :| 0 <= m < |s| && s[m] == f;
    assert InterfacesOf(s)[m] == InterfaceOf(f) && InterfacesOf(s)[m] in InterfacesOf(s);
  }

  lemma AllAreLinks(links: seq<Network.Link>, s: seq<Network.Interface>)
    requires forall f :: f in s ==> Network.ObservesSome(f, links)
    ensures forall n :: n in InterfacesOf(s) ==> IsSomeLink(n, links)
  {
    forall n | n in InterfacesOf(s) ensures IsSomeLink(n, links) {
      var m :| 0 <= m < |s| && InterfacesOf(s)[m] == n;
      SomeLink(s[m], links);
    }
  }

  lemma NamesAreSorted(s: seq<Network.Interface>)
    requires Sorting.Sorted(s, Network.ByName)
    ensures forall i, j :: 0 <= i < j < |s| ==> Less(InterfacesOf(s)[i].name, InterfacesOf(s)[j].name)
  {
    forall i, j | 0 <= i < j < |s| ensures Less(InterfacesOf(s)[i].name, InterfacesOf(s)[j].name) {
      assert Network.ByName(s[i], s[j]);
    }
  }

  lemma InterfacesAreListed(links: seq<Network.Link>, s: seq<Network.Interface>)
    requires Sorting.Sorted(s, Network.ByName) && Network.ObservesCapable(links, s)
    ensures ListsCapable(links, InterfacesOf(s))
  {
    AllAreLinks(links, s);
    NamesAreSorted(s);
    forall k | 0 <= k < |links| && Network.Capable(links, links[k].index) ensures IsListed(links[k], InterfacesOf(s)) {
      ListedLink(links[k], s);
    }
  }

  ghost predicate NetworkField(p: Platform, t: Timing, network: Option<seq<NetworkInterface>>) {
    && (network.Some? <==>
          && InTime(t, NETWORK_DOMAIN) && p.ctxErr(NETWORK_DOMAIN).None?
          && p.links.LinksOk? && Network.Collectable(p.links.links))
    && (network.Some? ==> ListsCapable(p.links.links, network.value))
  }

  /** Every field of the document is what the platform states, if its domain was in time, and null otherwise; and
      the network lists exactly the capable links. */
  ghost predicate DocumentStated(p: Platform, t: Timing, d: Document) {
    HostFields(p, t, d) && CpuFields(p, t, d) && BytesFields(p, t, d) && PiFields(p, t, d)
        && NetworkField(p, t, d.network)
  }

  /** What `DocumentOf` makes of the fields. */
  ghost predicate HasFields(d: Document, o: Observations) {
    && d.hostname == (if o.host.hostname.Present? then o.host.hostname.value else "")
    && d.uptime == ValueOf(o.host.uptime)
    && d.logicalCpuCount == ValueOf(o.cpuLoad.logicalCpuCount) && d.load == LoadOf(o.cpuLoad.load)
    && d.memory == BytesOf(o.memory) && d.root == BytesOf(o.root)
    && d.pi == FirmwareOf(ValueOf(o.pi.temperature), o.pi.firmware)
    && d.network == (if o.network.Present? then Some(InterfacesOf(o.network.value)) else None)
  }

  lemma HostIsStated(p: Platform, d: Domains, t: Timing, doc: Document)
    requires GenericStated(p, d) && HasFields(doc, Observed(d, t)) && Observed(d, t).host.hostname.Present?
    ensures HostFields(p, t, doc)
  {
  }

  lemma CpuIsStated(p: Platform, d: Domains, t: Timing, doc: Document)
    requires GenericStated(p, d) && HasFields(doc, Observed(d, t))
    ensures CpuFields(p, t, doc)
  {
    forall n | IsCount(p, n) ensures Readable(p, CPU_LOAD, p.online) ==> d.cpuLoad.logicalCpuCount.Present? {
      var signature :| Generic.IsTopology(TextOf(p.online), CpuList.Topology(n, signature));
    }
  }

  lemma BytesAreStated(p: Platform, d: Domains, t: Timing, doc: Document)
    requires GenericStated(p, d) && HasFields(doc, Observed(d, t))
    ensures BytesFields(p, t, doc)
  {
  }

  lemma PiIsStated(p: Platform, d: Domains, t: Timing, doc: Document)
    requires Stated(p, d) && HasFields(doc, Observed(d, t))
    ensures PiFields(p, t, doc)
  {
  }

  lemma NetworkIsStated(p: Platform, d: Domains, t: Timing, doc: Document)
    requires Stated(p, d) && HasFields(doc, Observed(d, t))
    ensures NetworkField(p, t, doc.network)
  {
    if InTime(t, NETWORK_DOMAIN) && d.network.Present? {
      Network.ExactObservesCapable(p.links.links, d.network.value);
      InterfacesAreListed(p.links.links, d.network.value);
    }
  }

  lemma DocumentIsStated(p: Platform, d: Domains, t: Timing, o: Observations, observedAt: nat)
    requires Stated(p, d) && ValidObservations(o) && o.host.hostname.Present?
    requires o.(utilization := Temporary()) == Observed(d, t)
    ensures DocumentStated(p, t, DocumentOf(o, observedAt))
  {
    var doc := DocumentOf(o, observedAt);
    assert HasFields(doc, Observed(d, t));
    HostIsStated(p, d, t, doc);
    CpuIsStated(p, d, t, doc);
    BytesAreStated(p, d, t, doc);
    PiIsStated(p, d, t, doc);
    NetworkIsStated(p, d, t, doc);
  }

  /** The utilisation is that of the last publication, exactly if that is present and at most 1.25 s old and the
      CPU list the cycle read in time has its topology. */
  ghost predicate UtilizationStated(
    p: Platform, t: Timing, last: Outcome<CpuObserver.Publication>, now: int, field: Option<Float>)
  {
    && (field.Some? <==>
          && last.Present? && now - last.value.sampledAt <= 1_250_000_000
          && InTime(t, CPU_LOAD) && Readable(p, CPU_LOAD, p.online)
          && Generic.IsTopology(TextOf(p.online), last.value.topology))
    && (field.Some? ==> field.value == last.value.utilization)
  }

  /** The cycle saw a topology exactly if the CPU list it read has it. */
  lemma TopologySeen(p: Platform, c: CpuLoadObservation, t: CpuList.Topology)
    requires TopologyStated(p, c)
    ensures c.logicalCpuCount.Present? && c.logicalCpuCount.value == t.count && c.signature == t.signature <==>
              Readable(p, CPU_LOAD, p.online) && Generic.IsTopology(TextOf(p.online), t)
  {
    if c.logicalCpuCount.Present? {
      var seen := CpuList.Topology(c.logicalCpuCount.value, c.signature);
      assert Generic.IsTopology(TextOf(p.online), seen);
      assert seen.count == t.count && seen.signature == t.signature ==> seen == t;
    }
  }

  lemma UtilizationIsStated(
    p: Platform, d: Domains, t: Timing, publication: Outcome<CpuObserver.Publication>, now: int)
    requires CpuStated(p, d.cpuLoad) && CpuObserver.Sound(publication, now)
    ensures UtilizationStated(p, t, publication, now, ValueOf(Complete(d, t, publication, now).utilization))
  {
    CpuObserver.CopyNeverDefect(publication, now, Observed(d, t).cpuLoad);
    if publication.Present? {
      TopologySeen(p, d.cpuLoad, publication.value.topology);
    }
  }
}
