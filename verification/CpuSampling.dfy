/** Taking one CPU sample: counters, topology, boot identity and uptime, read one after the other. */
module CpuSampling {
  import opened Text
  import opened Outcomes
  import opened CpuObserver
  import Generic
  import CpuList

  const MAXIMUM_STAT_INPUT: nat := 512
  const MAXIMUM_BOOT_ID_INPUT: nat := 128

  /** The text before the first newline, or all of it. */
  function FirstLine(data: string): string {
    Split(data, '\n')[0]
  }

  ghost predicate AreCounters(data: string, counters: Counters) {
    && 0 < |data| <= MAXIMUM_STAT_INPUT
    && var fields := Fields(FirstLine(data));
       && |fields| >= 9 && fields[0] == "cpu"
       && forall i :: 0 <= i < 8 ==> ParseUint(fields[i + 1], 10, MAX_UINT64) == Some(counters[i])
  }

  method ParseCpuCounters(data: string) returns (result: Option<Counters>)
    ensures result.Some? ==> AreCounters(data, result.value)
    ensures result.None? ==> forall counters: Counters :: !AreCounters(data, counters)
  {
    if |data| == 0 || |data| > MAXIMUM_STAT_INPUT {
      return None;
    }
    var fields := Fields(FirstLine(data));
    if |fields| < 9 || fields[0] != "cpu" {
      return None;
    }
    var counters: seq<uint64> := [];
    for i := 0 to 8
      invariant |counters| == i
      invariant forall j :: 0 <= j < i ==> ParseUint(fields[j + 1], 10, MAX_UINT64) == Some(counters[j])
    {
      var value := ParseUint(fields[i + 1], 10, MAX_UINT64);
      if value.None? {
        forall c: Counters ensures !AreCounters(data, c) {
          var counter := c[i];
        }
        return None;
      }
      counters := counters + [value.value];
    }
    return Some(counters);
  }

  // ----- Boot identity -----

  predicate IsDash(index: int) {
    index == 8 || index == 13 || index == 18 || index == 23
  }

  predicate Hexadecimal(c: char) {
    '0' <= c <= '9' || 'a' <= c <= 'f' || 'A' <= c <= 'F'
  }

  predicate IsUuid(s: string) {
    |s| == 36 && forall i :: 0 <= i < 36 ==> if IsDash(i) then s[i] == '-' else Hexadecimal(s[i])
  }

  function Lower(c: char): char {
    if 'A' <= c <= 'Z' then c + ('a' as int - 'A' as int) as char else c
  }

  /** `b` spells the same identity as `a`, in lower case. */
  predicate Canonical(a: string, b: string) {
    |a| == |b| && forall i :: 0 <= i < |a| ==> b[i] == Lower(a[i])
  }

  method ParseBootId(data: string) returns (result: Option<string>)
    ensures result.Some? <==> 0 < |data| <= MAXIMUM_BOOT_ID_INPUT && IsUuid(TrimSpace(data))
    ensures result.Some? ==> IsUuid(result.value) && Canonical(TrimSpace(data), result.value)
    ensures result.Some? ==>
              forall i :: 0 <= i < 36 ==>
                var c := TrimSpace(data)[i];
                result.value[i] as int == if 'A' <= c <= 'F' then c as int + 32 else c as int
  {
    if |data| == 0 || |data| > MAXIMUM_BOOT_ID_INPUT {
      return None;
    }
    var value := TrimSpace(data);
    if |value| != 36 {
      return None;
    }
    for index := 0 to 36
      invariant forall i :: 0 <= i < index ==> if IsDash(i) then value[i] == '-' else Hexadecimal(value[i])
    {
      if IsDash(index) {
        if value[index] != '-' {
          return None;
        }
        continue;
      }
      if !Hexadecimal(value[index]) {
        return None;
      }
    }
    return Some(seq(36, i requires 0 <= i < 36 => Lower(value[i])));
  }

  // ----- The sample -----

  ghost predicate IsIdentified(boot: string, uptime: string, s: Sample) {
    && 0 < |boot| <= MAXIMUM_BOOT_ID_INPUT && IsUuid(TrimSpace(boot)) && Canonical(TrimSpace(boot), s.bootId)
    && Generic.IsUptime(uptime, s.uptime)
  }

  ghost predicate IsSample(stat: string, online: string, boot: string, uptime: string, s: Sample) {
    && AreCounters(stat, s.counters)
    && Generic.IsTopology(online, s.topology)
    && IsIdentified(boot, uptime, s)
  }

  predicate AllGot(stat: Read<string>, online: Read<string>, boot: Read<string>, uptime: Read<string>) {
    stat.Got? && online.Got? && boot.Got? && uptime.Got?
  }

  ghost predicate FailureOf(o: Outcome<Sample>, read: Read<string>) {
    read.ReadError? && o == AcquisitionFailure(Some(read.err), UNSUPPORTED)
  }

  /** Whatever the four sources answer, the outcome passes validation; it is present exactly if they make a sample. */
  method CollectCpuSample(stat: Read<string>, online: Read<string>, boot: Read<string>, uptime: Read<string>)
    returns (o: Outcome<Sample>)
    ensures ValidOutcome(o)
    ensures o.Present? ==>
              && AllGot(stat, online, boot, uptime)
              && IsSample(stat.value, online.value, boot.value, uptime.value, o.value)
    ensures o.Present? ==> ValidTopology(o.value.topology)
    ensures !o.Present? && AllGot(stat, online, boot, uptime) ==>
              o == Temporary() && forall s :: !IsSample(stat.value, online.value, boot.value, uptime.value, s)
    ensures !o.Present? ==>
              || o == Temporary() || FailureOf(o, stat) || FailureOf(o, online)
              || FailureOf(o, boot) || FailureOf(o, uptime)
    ensures stat.ReadError? ==> FailureOf(o, stat)
  {
    if stat.ReadError? {
      return AcquisitionFailure(Some(stat.err), UNSUPPORTED);
    }
    var counters := ParseCpuCounters(stat.value);
    if counters.None? {
      return Unavailable(TEMPORARILY_UNAVAILABLE, Some(OTHER_FAILURE));
    }
    if online.ReadError? {
      return AcquisitionFailure(Some(online.err), UNSUPPORTED);
    }
    var topology := Generic.ParseTopology(online.value);
    if topology.None? {
      return Unavailable(TEMPORARILY_UNAVAILABLE, Some(OTHER_FAILURE));
    }
    o := CompleteSample(counters.value, topology.value, boot, uptime);
  }

  /** The rest of the collector: the boot identity and the uptime. */
  method CompleteSample(counters: Counters, topology: CpuList.Topology, boot: Read<string>, uptime: Read<string>)
    returns (o: Outcome<Sample>)
    ensures ValidOutcome(o)
    ensures o.Present? ==>
              && boot.Got? && uptime.Got? && o.value.counters == counters && o.value.topology == topology
              && IsIdentified(boot.value, uptime.value, o.value)
    ensures !o.Present? && boot.Got? && uptime.Got? ==>
              o == Temporary() && forall s :: !IsIdentified(boot.value, uptime.value, s)
    ensures !o.Present? ==> o == Temporary() || FailureOf(o, boot) || FailureOf(o, uptime)
  {
    if boot.ReadError? {
      return AcquisitionFailure(Some(boot.err), UNSUPPORTED);
    }
    var bootId := ParseBootId(boot.value);
    if bootId.None? {
      return Unavailable(TEMPORARILY_UNAVAILABLE, Some(OTHER_FAILURE));
    }
    if uptime.ReadError? {
      return AcquisitionFailure(Some(uptime.err), UNSUPPORTED);
    }
    var seconds := Generic.ParseUptime(uptime.value);
    if seconds.None? {
      return Unavailable(TEMPORARILY_UNAVAILABLE, Some(OTHER_FAILURE));
    }
    return Good(Sample(counters, topology, bootId.value, seconds.value));
  }
}
