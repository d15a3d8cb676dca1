/** What the platform answers in one cycle, and what the production collectors make of it. */
module PlatformAnswers {
  import opened Text
  import opened Outcomes
  import opened Snapshot
  import opened SnapshotBuilding
  import opened Cycle
  import Network
  import CpuList
  import Generic
  import Pi = RaspberryPi

  /** Everything the platform answers in one cycle, and whether each domain's context was done when its collector
      looked. `parseFloat` stands for the library's. */
  datatype Platform = Platform(
    ctxErr: nat -> Option<Failure>,
    hostname: Read<string>,
    uptime: Read<string>,
    online: Read<string>,
    loadAverage: Read<string>,
    parseFloat: string -> Option<Float>,
    memoryInfo: Read<string>,
    filesystem: Read<Generic.Filesystem>,
    zones: Read<seq<Pi.Zone>>,
    temperature: string -> Read<string>,
    links: Network.LinksResponse,
    firmware: Outcome<FirmwareHealth>)

  /** The interfaces a link table yields pass the network validator. */
  lemma ExactInterfacesAreValid(links: seq<Network.Link>, interfaces: seq<Network.Interface>)
    requires Network.Collectable(links) && Network.ExactInterfaces(links, interfaces)
    ensures ValidNetwork(Good(interfaces))
  {
    forall i | 0 <= i < |interfaces| ensures ValidObserved(interfaces[i]) {
      assert interfaces[i] in interfaces;
      var k :| 0 <= k < |links| && Network.Capable(links, links[k].index) && interfaces[i] == Network.Observe(links[k]);
      assert Network.WellIdentified(links[k]);
    }
    forall i | 0 < i < |interfaces| ensures AfterPreviousName(interfaces, i) {
      assert Network.ByName(interfaces[i - 1], interfaces[i]);
    }
  }

  method CollectNetworkDomain(ctxErr: Option<Failure>, response: Network.LinksResponse)
      returns (o: Outcome<seq<Network.Interface>>)
    ensures ValidNetwork(o)
    ensures o.Present? <==> ctxErr.None? && response.LinksOk? && Network.Collectable(response.links)
    ensures o.Present? ==> Network.ExactInterfaces(response.links, o.value)
    ensures Reasoned(o, NetworkError(ctxErr, response))
  {
    o := Network.CollectNetwork(ctxErr, response);
    if o.Present? {
      ExactInterfacesAreValid(response.links, o.value);
    }
  }

  /** The text of a source that could be read. */
  function TextOf(read: Read<string>): string {
    if read.Got? then read.value else ""
  }

  /** The domain's collector looked in time, and could read the source. */
  predicate Readable<T>(p: Platform, i: nat, read: Read<T>) {
    p.ctxErr(i).None? && read.Got?
  }

  /** Why the domain's collector could not read the source, if it looked in time. */
  function ReadFailure<T>(p: Platform, i: nat, read: Read<T>): Option<Failure> {
    if p.ctxErr(i).None? && read.ReadError? then Some(read.err) else None
  }

  /** Too many links are no failure to read them. */
  function NetworkError(ctxErr: Option<Failure>, response: Network.LinksResponse): Option<Failure> {
    if ctxErr.None? && response.LinksErr? && !response.err.tooManyLinks then Some(response.err) else None
  }

  predicate Denied(err: Option<Failure>) {
    err.Some? && err.value.permission
  }

  predicate Unsupported(err: Option<Failure>) {
    err.Some? && err.value.missing && !err.value.permission
  }

  /** An absent outcome is denied or unsupported exactly if the failure to read says so. */
  predicate Reasoned<T>(o: Outcome<T>, err: Option<Failure>) {
    !o.Present? ==> (o.reason == PERMISSION_DENIED <==> Denied(err)) && (o.reason == UNSUPPORTED <==> Unsupported(err))
  }

  ghost predicate TemperatureDenied(p: Platform) {
    if p.zones.ReadError? then p.zones.err.permission else Pi.AccessRefused(p.zones.value, p.temperature)
  }

  ghost predicate TemperatureUnsupported(p: Platform) {
    if p.zones.ReadError? then p.zones.err.missing && !p.zones.err.permission
    else Pi.AllReadable(p.zones.value) && Pi.NoNamedZone(p.zones.value)
  }

  /** The outcome is exactly what the source states: present with a value it states if there is one and the
      source was available, and absent otherwise. */
  ghost predicate Exact<T(!new)>(o: Outcome<T>, available: bool, states: T -> bool) {
    if o.Present? then available && states(o.value) else available ==> forall v :: !states(v)
  }

  predicate IsSizes(read: Read<Generic.Filesystem>, b: BytesObservation) {
    && read.Got? && Generic.Consistent(read.value)
    && b.total == read.value.totalBlocks * read.value.blockSize
    && b.available == read.value.availableBlocks * read.value.blockSize
    && b.used == (read.value.totalBlocks - read.value.availableBlocks) * read.value.blockSize
  }

  /** All zones are readable, one alone matches, and its temperature file holds the temperature. */
  ghost predicate IsTemperature(p: Platform, value: Float) {
    && p.zones.Got? && (forall i :: 0 <= i < |p.zones.value| ==> Pi.Readable(p.zones.value[i]))
    && exists k, m ::
         && Pi.TheZone(p.zones.value, k) && p.temperature(p.zones.value[k].name).Got?
         && Pi.IsTemperature(p.temperature(p.zones.value[k].name).value, m)
         && value == Finite(m as real / 1000.0)
  }

  ghost predicate IsInterfaces(p: Platform, interfaces: seq<Network.Interface>) {
    p.links.LinksOk? && Network.Collectable(p.links.links) && Network.ExactInterfaces(p.links.links, interfaces)
  }

  ghost predicate IsCount(p: Platform, count: uint64) {
    exists signature :: Generic.IsTopology(TextOf(p.online), CpuList.Topology(count, signature))
  }

  ghost predicate HostStated(p: Platform, h: HostObservation) {
    && Exact(h.hostname, Readable(p, HOST, p.hostname), n => n == TextOf(p.hostname) && n != "" && ValidUtf8(n))
    && Exact(h.uptime, Readable(p, HOST, p.uptime), n => Generic.IsUptime(TextOf(p.uptime), n))
    && Reasoned(h.hostname, ReadFailure(p, HOST, p.hostname)) && Reasoned(h.uptime, ReadFailure(p, HOST, p.uptime))
  }

  ghost predicate TopologyStated(p: Platform, c: CpuLoadObservation) {
    if c.logicalCpuCount.Present? then
      && Readable(p, CPU_LOAD, p.online)
      && Generic.IsTopology(TextOf(p.online), CpuList.Topology(c.logicalCpuCount.value, c.signature))
    else Readable(p, CPU_LOAD, p.online) ==> forall t :: !Generic.IsTopology(TextOf(p.online), t)
  }

  ghost predicate CpuStated(p: Platform, c: CpuLoadObservation) {
    && TopologyStated(p, c)
    && Exact(c.load, Readable(p, CPU_LOAD, p.loadAverage), l => Generic.IsLoad(p.parseFloat, TextOf(p.loadAverage), l))
    && Reasoned(c.logicalCpuCount, ReadFailure(p, CPU_LOAD, p.online))
    && Reasoned(c.load, ReadFailure(p, CPU_LOAD, p.loadAverage))
  }

  ghost predicate MemoryStated(p: Platform, o: Outcome<BytesObservation>) {
    && Exact(o, Readable(p, MEMORY_DOMAIN, p.memoryInfo), m => Generic.IsMemory(TextOf(p.memoryInfo), m))
    && Reasoned(o, ReadFailure(p, MEMORY_DOMAIN, p.memoryInfo))
  }

  ghost predicate RootStated(p: Platform, o: Outcome<BytesObservation>) {
    && Exact(o, Readable(p, ROOT_DOMAIN, p.filesystem), b => IsSizes(p.filesystem, b))
    && Reasoned(o, ReadFailure(p, ROOT_DOMAIN, p.filesystem))
  }

  ghost predicate GenericStated(p: Platform, d: Domains) {
    HostStated(p, d.host) && CpuStated(p, d.cpuLoad) && MemoryStated(p, d.memory) && RootStated(p, d.root)
  }

  ghost predicate TemperatureStated(p: Platform, o: Outcome<Float>) {
    && Exact(o, p.zones.Got?, v => IsTemperature(p, v))
    && (!o.Present? ==>
          && (o.reason == PERMISSION_DENIED <==> TemperatureDenied(p))
          && (o.reason == UNSUPPORTED <==> TemperatureUnsupported(p)))
  }

  ghost predicate NetworkStated(p: Platform, o: Outcome<seq<Network.Interface>>) {
    && (o.Present? <==> p.ctxErr(NETWORK_DOMAIN).None? && p.links.LinksOk? && Network.Collectable(p.links.links))
    && (o.Present? ==> IsInterfaces(p, o.value))
    && Reasoned(o, NetworkError(p.ctxErr(NETWORK_DOMAIN), p.links))
  }

  /** Every domain's value is exactly what the platform states about it, and absent for the reason it gives. */
  ghost predicate Stated(p: Platform, d: Domains) {
    && GenericStated(p, d) && TemperatureStated(p, d.pi.temperature) && d.pi.firmware == p.firmware
    && NetworkStated(p, d.network)
  }

  method CollectHostDomain(p: Platform) returns (h: HostObservation)
    ensures ValidHost(h) && HostStated(p, h)
  {
    h := Generic.CollectHost(p.ctxErr(HOST), p.hostname, p.uptime);
  }

  method CollectCpuDomain(p: Platform) returns (c: CpuLoadObservation)
    ensures ValidCpuLoad(c) && CpuStated(p, c)
  {
    c := Generic.CollectCpuLoad(p.ctxErr(CPU_LOAD), p.online, p.loadAverage, p.parseFloat);
  }

  method CollectBytesDomains(p: Platform) returns (memory: Outcome<BytesObservation>, root: Outcome<BytesObservation>)
    ensures ValidBytes(memory) && MemoryStated(p, memory) && ValidBytes(root) && RootStated(p, root)
  {
    memory := Generic.CollectMemory(p.ctxErr(MEMORY_DOMAIN), p.memoryInfo);
    root := Generic.CollectRootFilesystem(p.ctxErr(ROOT_DOMAIN), p.filesystem);
  }

  method CollectPiDomain(p: Platform) returns (pi: PiObservation)
    requires ValidOutcome(p.firmware)
    ensures ValidPi(pi) && pi.firmware == p.firmware
    ensures TemperatureStated(p, pi.temperature)
  {
    var temperature := Pi.CollectSocTemperature(p.zones, p.temperature);
    pi := PiObservation(temperature, p.firmware);
  }

  /** Whatever the platform answers, every domain's value passes its validator and is what the platform states. */
  method CollectDomains(p: Platform) returns (d: Domains)
    requires ValidOutcome(p.firmware)
    ensures forall i: nat :: i < COPY ==> ValidDomain(d, i)
    ensures Stated(p, d)
  {
    var host := CollectHostDomain(p);
    var cpuLoad := CollectCpuDomain(p);
    var memory, root := CollectBytesDomains(p);
    var pi := CollectPiDomain(p);
    var network := CollectNetworkDomain(p.ctxErr(NETWORK_DOMAIN), p.links);
    d := Domains(host, cpuLoad, memory, root, pi, network);
  }
}
