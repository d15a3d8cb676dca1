/** The generic collectors: each turns whatever the platform answers into outcomes that pass validation. */
module Generic {
  import opened Text
  import opened Outcomes
  import opened Snapshot
  import opened SnapshotBuilding
  import CpuList

  const MAXIMUM_UPTIME_INPUT: nat := 128
  const MAXIMUM_LOAD_INPUT: nat := 256
  const MAXIMUM_MEMORY_INPUT: nat := 65536
  const KILOBYTE: nat := 1024

  datatype Filesystem = Filesystem(blockSize: uint64, totalBlocks: uint64, availableBlocks: uint64)

  // ----- Uptime -----

  predicate Decimal(s: string) {
    s != "" && Digits(s, 10)
  }

  /** `field` is a non-negative decimal whose whole part is `whole`. */
  ghost predicate WholePart(field: string, whole: string) {
    && Decimal(whole)
    && (field == whole || exists fraction :: Decimal(fraction) && field == whole + ['.'] + fraction)
  }

  ghost predicate IsUptime(data: string, uptime: nat) {
    && 0 < |data| <= MAXIMUM_UPTIME_INPUT && Fields(data) != [] && uptime <= MAX_UINT64
    && exists whole :: WholePart(Fields(data)[0], whole) && Value(whole, 10) == uptime
  }

  /** Reads the whole seconds of the first field, and accepts exactly the non-negative decimals. */
  method ParseUptime(data: string) returns (result: Option<uint64>)
    ensures result.Some? ==> IsUptime(data, result.value)
    ensures result.None? ==> forall uptime: nat :: !IsUptime(data, uptime)
  {
    if |data| == 0 || |data| > MAXIMUM_UPTIME_INPUT {
      return None;
    }
    var fields := Fields(data);
    if |fields| < 1 {
      return None;
    }
    var parts := Split(fields[0], '.');
    WholePartIsFirst(fields[0]);
    if |parts| > 2 || parts[0] == "" || (|parts| == 2 && (parts[1] == "" || !Digits(parts[1], 10)))
        || !Digits(parts[0], 10)
    {
      return None;
    }
    assert WholePart(fields[0], parts[0]);
    return ParseUint(parts[0], 10, MAX_UINT64);
  }

  lemma DecimalHasNoDot(s: string)
    requires Digits(s, 10)
    ensures '.' !in s
  {
    assert DigitValue('.') == 36;
  }

  lemma WholePartIsFirst(field: string)
    ensures forall whole :: WholePart(field, whole) <==>
              && whole == Split(field, '.')[0] && Decimal(whole)
              && (|Split(field, '.')| == 1 || (|Split(field, '.')| == 2 && Decimal(Split(field, '.')[1])))
  {
    var parts := Split(field, '.');
    JoinSplit(field, '.');
    forall whole | WholePart(field, whole)
      ensures whole == parts[0] && (|parts| == 1 || (|parts| == 2 && Decimal(parts[1])))
    {
      DecimalHasNoDot(whole);
      if field == whole {
        SplitPiece(whole, "", '.');
      } else {
        var fraction :| Decimal(fraction) && field == whole + ['.'] + fraction;
        DecimalHasNoDot(fraction);
        SplitTwo(whole, fraction, '.');
      }
    }
    if |parts| == 2 {
      assert Join(parts[1..], '.') == parts[1];
      assert field == parts[0] + ['.'] + parts[1];
    }
  }

  // ----- Load -----

  /** The three loads, with `strconv.ParseFloat` as a parameter. */
  ghost predicate IsLoad(parseFloat: string -> Option<Float>, data: string, load: LoadObservation) {
    && 0 < |data| <= MAXIMUM_LOAD_INPUT && |Fields(data)| >= 3
    && parseFloat(Fields(data)[0]) == Some(load.oneMinute) && NonNegative(load.oneMinute)
    && parseFloat(Fields(data)[1]) == Some(load.fiveMinutes) && NonNegative(load.fiveMinutes)
    && parseFloat(Fields(data)[2]) == Some(load.fifteenMinutes) && NonNegative(load.fifteenMinutes)
  }

  method ParseLoad(parseFloat: string -> Option<Float>, data: string) returns (result: Option<LoadObservation>)
    ensures result.Some? ==> IsLoad(parseFloat, data, result.value)
    ensures result.None? ==> forall load :: !IsLoad(parseFloat, data, load)
  {
    if |data| == 0 || |data| > MAXIMUM_LOAD_INPUT {
      return None;
    }
    var fields := Fields(data);
    if |fields| < 3 {
      return None;
    }
    var values: seq<Float> := [];
    for index := 0 to 3
      invariant |values| == index
      invariant forall i :: 0 <= i < index ==> parseFloat(fields[i]) == Some(values[i]) && NonNegative(values[i])
    {
      var value := parseFloat(fields[index]);
      if value.None? || !NonNegative(value.value) {
        return None;
      }
      values := values + [value.value];
    }
    return Some(LoadObservation(values[0], values[1], values[2]));
  }

  // ----- Memory -----

  function DropCarriageReturn(line: string): string {
    if line != "" && line[|line| - 1] == '\r' then line[..|line| - 1] else line
  }

  function TrimColon(s: string): string {
    if s != "" && s[|s| - 1] == ':' then s[..|s| - 1] else s
  }

  function LineFields(line: string): seq<string> {
    Fields(DropCarriageReturn(line))
  }

  /** The line is an entry called `name`, well formed or not. */
  predicate Names(line: string, name: string) {
    LineFields(line) != [] && TrimColon(LineFields(line)[0]) == name
  }

  /** The bytes a well-formed entry stands for. */
  function Entry(line: string): Option<uint64> {
    var fields := LineFields(line);
    if |fields| != 3 || fields[2] != "kB" then None
    else
      var kilobytes := ParseUint(fields[1], 10, MAX_UINT64);
      if kilobytes.None? || kilobytes.value > MAX_UINT64 / KILOBYTE then None else Some(kilobytes.value * KILOBYTE)
  }

  /** Line `k` is the only entry called `name`, and it stands for `bytes`. */
  ghost predicate TheEntry(lines: seq<string>, name: string, k: int, bytes: uint64) {
    && 0 <= k < |lines| && Names(lines[k], name) && Entry(lines[k]) == Some(bytes)
    && forall j :: 0 <= j < |lines| && j != k ==> !Names(lines[j], name)
  }

  ghost predicate HasEntry(lines: seq<string>, name: string, bytes: uint64) {
    exists k :: TheEntry(lines, name, k, bytes)
  }

  ghost predicate NoEntry(lines: seq<string>, name: string) {
    forall j :: 0 <= j < |lines| ==> !Names(lines[j], name)
  }

  /** What the scanning loop knows about `name` after some lines. */
  ghost predicate Known(lines: seq<string>, name: string, values: map<string, uint64>) {
    if name in values then HasEntry(lines, name, values[name]) else NoEntry(lines, name)
  }

  const TOTAL := "MemTotal"
  const AVAILABLE := "MemAvailable"

  lemma KnownStep(lines: seq<string>, line: string, name: string, values: map<string, uint64>)
    requires Known(lines, name, values)
    ensures !Names(line, name) ==> Known(lines + [line], name, values)
    ensures Names(line, name) && name !in values && Entry(line).Some? ==>
              Known(lines + [line], name, values[name := Entry(line).value])
    ensures Names(line, name) && (name in values || Entry(line).None?) ==>
              !exists bytes :: HasEntry(lines + [line], name, bytes)
  {
    var more := lines + [line];
    if name in values {
      var k :| TheEntry(lines, name, k, values[name]);
      assert more[k] == lines[k] && more[|lines|] == line;
      if !Names(line, name) {
        assert TheEntry(more, name, k, values[name]);
      }
    } else if Names(line, name) && Entry(line).Some? {
      assert TheEntry(more, name, |lines|, Entry(line).value);
    }
    forall bytes | Names(line, name) && (name in values || Entry(line).None?) ensures !HasEntry(more, name, bytes) {
      if j :| TheEntry(more, name, j, bytes) {
        assert Names(more[|lines|], name);
      }
    }
  }

  lemma MoreLinesDoNotHelp(lines: seq<string>, n: nat, name: string)
    requires n <= |lines| && !exists bytes :: HasEntry(lines[..n], name, bytes)
    requires exists j :: 0 <= j < n && Names(lines[j], name)
    ensures !exists bytes :: HasEntry(lines, name, bytes)
  {
    forall bytes | HasEntry(lines, name, bytes) ensures HasEntry(lines[..n], name, bytes) {
      var k :| TheEntry(lines, name, k, bytes);
      var j :| 0 <= j < n && Names(lines[j], name);
      assert k == j;
      assert TheEntry(lines[..n], name, k, bytes);
    }
  }

  /** The memory a meminfo text states: each of the two entries occurs exactly once and is well formed. */
  ghost predicate IsMemory(data: string, m: BytesObservation) {
    && 0 < |data| <= MAXIMUM_MEMORY_INPUT
    && HasEntry(Split(data, '\n'), TOTAL, m.total)
    && HasEntry(Split(data, '\n'), AVAILABLE, m.available)
    && m.available <= m.total && m.used == m.total - m.available
  }

  lemma EntryIsUnique(lines: seq<string>, name: string, a: uint64, b: uint64)
    requires HasEntry(lines, name, a) && HasEntry(lines, name, b)
    ensures a == b
  {
    var j, k :| TheEntry(lines, name, j, a) && TheEntry(lines, name, k, b);
    assert j == k;
  }

  /** The scanning loop: the two entries' values, unless a line refuses the whole text. */
  method ScanMemory(lines: seq<string>) returns (ok: bool, values: map<string, uint64>)
    ensures ok ==> Known(lines, TOTAL, values) && Known(lines, AVAILABLE, values)
    ensures !ok ==>
              || (!exists bytes :: HasEntry(lines, TOTAL, bytes))
              || (!exists bytes :: HasEntry(lines, AVAILABLE, bytes))
  {
    values := map[];
    for i := 0 to |lines|
      invariant Known(lines[..i], TOTAL, values) && Known(lines[..i], AVAILABLE, values)
    {
      var line := lines[i];
      assert lines[..i + 1] == lines[..i] + [line];
      KnownStep(lines[..i], line, TOTAL, values);
      KnownStep(lines[..i], line, AVAILABLE, values);
      var fields := LineFields(line);
      if fields == [] {
        continue;
      }
      var name := TrimColon(fields[0]);
      if name != TOTAL && name != AVAILABLE {
        continue;
      }
      if name in values || Entry(line).None? {
        assert Names(lines[i], name);
        MoreLinesDoNotHelp(lines, i + 1, name);
        return false, values;
      }
      values := values[name := Entry(line).value];
    }
    assert lines[..|lines|] == lines;
    return true, values;
  }

  method ParseMemory(data: string) returns (result: Option<BytesObservation>)
    ensures result.Some? ==> IsMemory(data, result.value)
    ensures result.None? ==> forall m :: !IsMemory(data, m)
  {
    if |data| == 0 || |data| > MAXIMUM_MEMORY_INPUT {
      return None;
    }
    var lines := Split(data, '\n');
    var ok, values := ScanMemory(lines);
    if !ok || TOTAL !in values || AVAILABLE !in values {
      return None;
    }
    var total, available := values[TOTAL], values[AVAILABLE];
    if available > total {
      forall m ensures !IsMemory(data, m) {
        if IsMemory(data, m) {
          EntryIsUnique(lines, TOTAL, total, m.total);
          EntryIsUnique(lines, AVAILABLE, available, m.available);
        }
      }
      return None;
    }
    return Some(BytesObservation(total, available, total - available));
  }

  // ----- The collectors -----

  /** What a collector makes of a source it could not read, or whose content it could not parse. */
  ghost predicate FollowsRead<T, U>(o: Outcome<U>, ctxErr: Option<Failure>, read: Read<T>) {
    && (ctxErr.Some? ==> o == Unavailable(TEMPORARILY_UNAVAILABLE, ctxErr))
    && (ctxErr.None? && read.ReadError? ==> o == AcquisitionFailure(Some(read.err), UNSUPPORTED))
    && (ctxErr.None? && read.Got? ==> o == Temporary() || (o.Present? && o == Good(o.value)))
  }

  method CollectHost(ctxErr: Option<Failure>, hostname: Read<string>, uptime: Read<string>) returns (h: HostObservation)
    ensures ValidHost(h)
    ensures FollowsRead(h.hostname, ctxErr, hostname) && FollowsRead(h.uptime, ctxErr, uptime)
    ensures ctxErr.None? && hostname.Got? ==>
              (h.hostname.Present? <==> hostname.value != "" && ValidUtf8(hostname.value))
              && (h.hostname.Present? ==> h.hostname.value == hostname.value)
    ensures h.uptime.Present? ==> IsUptime(uptime.value, h.uptime.value)
    ensures ctxErr.None? && uptime.Got? && !h.uptime.Present? ==> forall n: nat :: !IsUptime(uptime.value, n)
  {
    if ctxErr.Some? {
      return HostObservation(Unavailable(TEMPORARILY_UNAVAILABLE, ctxErr),
          Unavailable(TEMPORARILY_UNAVAILABLE, ctxErr));
    }
    var name: Outcome<string>;
    if hostname.ReadError? {
      name := AcquisitionFailure(Some(hostname.err), UNSUPPORTED);
    } else if hostname.value == "" || !ValidUtf8(hostname.value) {
      name := Unavailable(TEMPORARILY_UNAVAILABLE, Some(OTHER_FAILURE));
    } else {
      name := Good(hostname.value);
    }
    if uptime.ReadError? {
      return HostObservation(name, AcquisitionFailure(Some(uptime.err), UNSUPPORTED));
    }
    var seconds := ParseUptime(uptime.value);
    if seconds.None? {
      return HostObservation(name, Unavailable(TEMPORARILY_UNAVAILABLE, Some(OTHER_FAILURE)));
    }
    return HostObservation(name, Good(seconds.value));
  }

  method CollectCpuLoad(ctxErr: Option<Failure>, online: Read<string>, loadAverage: Read<string>,
      parseFloat: string -> Option<Float>)
    returns (c: CpuLoadObservation)
    ensures ValidCpuLoad(c)
    ensures FollowsRead(c.logicalCpuCount, ctxErr, online) && FollowsRead(c.load, ctxErr, loadAverage)
    ensures c.logicalCpuCount.Present? ==>
              IsTopology(online.value, CpuList.Topology(c.logicalCpuCount.value, c.signature))
    ensures c.load.Present? ==> IsLoad(parseFloat, loadAverage.value, c.load.value)
    ensures ctxErr.None? && online.Got? && !c.logicalCpuCount.Present? ==> forall t :: !IsTopology(online.value, t)
    ensures ctxErr.None? && loadAverage.Got? && !c.load.Present? ==>
              forall load :: !IsLoad(parseFloat, loadAverage.value, load)
  {
    if ctxErr.Some? {
      return CpuLoadObservation(Unavailable(TEMPORARILY_UNAVAILABLE, ctxErr), "",
          Unavailable(TEMPORARILY_UNAVAILABLE, ctxErr));
    }
    var count: Outcome<uint64>;
    var signature := "";
    if online.ReadError? {
      count := AcquisitionFailure(Some(online.err), UNSUPPORTED);
    } else {
      var topology := ParseTopology(online.value);
      if topology.None? {
        count := Unavailable(TEMPORARILY_UNAVAILABLE, Some(OTHER_FAILURE));
      } else {
        count := Good(topology.value.count);
        signature := topology.value.signature;
      }
    }
    if loadAverage.ReadError? {
      return CpuLoadObservation(count, signature, AcquisitionFailure(Some(loadAverage.err), UNSUPPORTED));
    }
    var load := ParseLoad(parseFloat, loadAverage.value);
    if load.None? {
      return CpuLoadObservation(count, signature, Unavailable(TEMPORARILY_UNAVAILABLE, Some(OTHER_FAILURE)));
    }
    return CpuLoadObservation(count, signature, Good(load.value));
  }

  /** An accepted CPU list: how many ids it denotes, and its canonical form. */
  ghost predicate IsTopology(data: string, t: CpuList.Topology) {
    && 0 < |data| <= CpuList.MAXIMUM_INPUT && CpuList.Ranges(data).Some?
    && t.count == |CpuList.Ids(CpuList.Ranges(data).value)| && t.count > 0
    && t.signature == CpuList.Signature(CpuList.Ranges(data).value) && t.signature != ""
  }

  method ParseTopology(data: string) returns (result: Option<CpuList.Topology>)
    ensures result.Some? ==> IsTopology(data, result.value)
    ensures result.None? ==> forall t :: !IsTopology(data, t)
  {
    result := CpuList.ParseCpuTopology(data);
    if CpuList.Ranges(data).Some? {
      CpuList.CountIsCardinality(data);
      CpuList.SignatureRoundTrip(data);
    }
  }

  method CollectMemory(ctxErr: Option<Failure>, info: Read<string>) returns (o: Outcome<BytesObservation>)
    ensures ValidBytes(o) && FollowsRead(o, ctxErr, info)
    ensures o.Present? ==> IsMemory(info.value, o.value)
    ensures ctxErr.None? && info.Got? && !o.Present? ==> forall m :: !IsMemory(info.value, m)
  {
    if ctxErr.Some? {
      return Unavailable(TEMPORARILY_UNAVAILABLE, ctxErr);
    }
    if info.ReadError? {
      return AcquisitionFailure(Some(info.err), UNSUPPORTED);
    }
    var memory := ParseMemory(info.value);
    if memory.None? {
      return Unavailable(TEMPORARILY_UNAVAILABLE, Some(OTHER_FAILURE));
    }
    return Good(memory.value);
  }

  /** A product that does not fit is exactly what the division check refuses. */
  lemma DivisionGuards(count: nat, size: nat, limit: nat)
    requires size > 0
    ensures count > limit / size <==> count * size > limit
  {
    var q := limit / size;
    assert limit == q * size + limit % size;
    if count > q {
      ProductIsMonotone(q + 1, count, size);
    } else {
      ProductIsMonotone(count, q, size);
    }
  }

  lemma ProductIsMonotone(a: nat, b: nat, c: nat)
    requires a <= b
    ensures a * c <= b * c
  {
  }

  /** The sizes of a file system fit 64 bits and are consistent. */
  predicate Consistent(f: Filesystem) {
    f.blockSize > 0 && f.availableBlocks * f.blockSize <= f.totalBlocks * f.blockSize <= MAX_UINT64
  }

  method CollectRootFilesystem(ctxErr: Option<Failure>, read: Read<Filesystem>) returns (o: Outcome<BytesObservation>)
    ensures ValidBytes(o) && FollowsRead(o, ctxErr, read)
    ensures ctxErr.None? && read.Got? ==> (o.Present? <==> Consistent(read.value))
    ensures o.Present? ==>
              var f := read.value;
              o.value == BytesObservation(f.totalBlocks * f.blockSize, f.availableBlocks * f.blockSize,
                                          (f.totalBlocks - f.availableBlocks) * f.blockSize)
  {
    if ctxErr.Some? {
      return Unavailable(TEMPORARILY_UNAVAILABLE, ctxErr);
    }
    if read.ReadError? {
      return AcquisitionFailure(Some(read.err), UNSUPPORTED);
    }
    var f := read.value;
    if f.blockSize == 0 {
      return Unavailable(TEMPORARILY_UNAVAILABLE, Some(OTHER_FAILURE));
    }
    DivisionGuards(f.totalBlocks, f.blockSize, MAX_UINT64);
    DivisionGuards(f.availableBlocks, f.blockSize, MAX_UINT64);
    if f.totalBlocks > MAX_UINT64 / f.blockSize || f.availableBlocks > MAX_UINT64 / f.blockSize {
      return Unavailable(TEMPORARILY_UNAVAILABLE, Some(OTHER_FAILURE));
    }
    var total, available := f.totalBlocks * f.blockSize, f.availableBlocks * f.blockSize;
    if available > total {
      return Unavailable(TEMPORARILY_UNAVAILABLE, Some(OTHER_FAILURE));
    }
    assert total - available == (f.totalBlocks - f.availableBlocks) * f.blockSize;
    return Good(BytesObservation(total, available, total - available));
  }
}
