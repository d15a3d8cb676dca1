/** Raspberry Pi metrics: the SoC temperature and the firmware health mask. */
module RaspberryPi {
  import opened Text
  import opened Outcomes
  import opened Snapshot
  import opened SnapshotBuilding

  // ----- The firmware health mask -----

  /** Whether a mask has bit `k`, counted from the least significant one. */
  predicate HasBit(mask: nat, k: nat)
    decreases k
  {
    if k == 0 then mask % 2 == 1 else HasBit(mask / 2, k - 1)
  }

  function HealthFromMask(mask: uint32): FirmwareHealth {
    FirmwareHealth(
      throttlingActive := HasBit(mask, 2),
      throttlingOccurred := HasBit(mask, 18),
      undervoltageActive := HasBit(mask, 0),
      undervoltageOccurred := HasBit(mask, 16))
  }

  /** The number with the given bits, least significant first. */
  function FromBits(bits: seq<bool>): nat {
    if bits == [] then 0 else (if bits[0] then 1 else 0) + 2 * FromBits(bits[1..])
  }

  lemma {:induction false} BitsOf(bits: seq<bool>, k: nat)
    requires k < |bits|
    ensures HasBit(FromBits(bits), k) == bits[k]
    decreases k
  {
    assert FromBits(bits) / 2 == FromBits(bits[1..]);
    if k > 0 {
      BitsOf(bits[1..], k - 1);
    }
  }

  function Power2(n: nat): nat {
    if n == 0 then 1 else 2 * Power2(n - 1)
  }

  lemma {:induction false} BitsBound(bits: seq<bool>)
    ensures FromBits(bits) < Power2(|bits|)
  {
    if bits != [] {
      BitsBound(bits[1..]);
    }
  }

  lemma MaskFits(bits: seq<bool>)
    requires |bits| == 32
    ensures FromBits(bits) <= MAX_UINT32
  {
    BitsBound(bits);
    Power2Of32();
  }

  lemma Power2Of32()
    ensures Power2(32) == 0x1_0000_0000
  {
    assert Power2(8) == 256 && Power2(16) == 256 * Power2(8) && Power2(24) == 256 * Power2(16)
        && Power2(32) == 256 * Power2(24);
  }

  /** The health is bits 0, 2, 16 and 18 of the mask; the other 28 bits have no influence. */
  lemma HealthOfMask(bits: seq<bool>)
    requires |bits| == 32
    ensures FromBits(bits) <= MAX_UINT32
    ensures HealthFromMask(FromBits(bits)) == FirmwareHealth(bits[2], bits[18], bits[0], bits[16])
  {
    MaskFits(bits);
    BitsOf(bits, 0);
    BitsOf(bits, 2);
    BitsOf(bits, 16);
    BitsOf(bits, 18);
  }

  lemma {:induction false} BitsOfNumber(n: nat, width: nat) returns (bits: seq<bool>)
    requires n < Power2(width)
    ensures |bits| == width && FromBits(bits) == n
    decreases width
  {
    if width == 0 {
      bits := [];
    } else {
      var rest := BitsOfNumber(n / 2, width - 1);
      bits := [n % 2 == 1] + rest;
      assert bits[1..] == rest;
    }
  }

  /** The health has the flags that bits 2, 18, 0 and 16 of the mask say. */
  ghost predicate FlagsOf(mask: uint32, health: FirmwareHealth) {
    exists bits :: |bits| == 32 && FromBits(bits) == mask
        && health == FirmwareHealth(bits[2], bits[18], bits[0], bits[16])
  }

  lemma MaskHasFlags(mask: uint32)
    ensures FlagsOf(mask, HealthFromMask(mask))
  {
    Power2Of32();
    var bits := BitsOfNumber(mask, 32);
    HealthOfMask(bits);
  }

  // ----- The SoC temperature -----

  const THERMAL_ZONE_TYPE := "cpu-thermal"
  const ABSOLUTE_ZERO: int := -273150

  /** A thermal zone as the search meets it: whether the context is done by then, and what its type file holds. */
  datatype Zone = Zone(name: string, ctxErr: Option<Failure>, kind: Read<string>)

  predicate Readable(z: Zone) {
    z.ctxErr.None? && z.kind.Got?
  }

  predicate Matches(z: Zone) {
    z.kind.Got? && TrimSpace(z.kind.value) == THERMAL_ZONE_TYPE
  }

  /** Zone `k` is the only match. (A match without a name is overlooked if a named one follows.) */
  ghost predicate TheZone(zones: seq<Zone>, k: int) {
    && 0 <= k < |zones| && Matches(zones[k]) && zones[k].name != ""
    && forall j :: 0 <= j < |zones| && j != k && Matches(zones[j]) ==> j < k && zones[j].name == ""
  }

  ghost predicate NoNamedZone(zones: seq<Zone>) {
    forall j :: 0 <= j < |zones| && Matches(zones[j]) ==> zones[j].name == ""
  }

  datatype Search = Matched(zone: string) | Stopped(outcome: Outcome<Float>)

  /** The search has passed `n` readable zones, and holds the name of the one that matched, if any. */
  ghost predicate Sought(zones: seq<Zone>, n: nat, name: string, at: int)
    requires n <= |zones|
  {
    && (forall j :: 0 <= j < n ==> Readable(zones[j]))
    && (forall j :: 0 <= j < n && Matches(zones[j]) ==> j == at || (zones[j].name == "" && (name != "" ==> j < at)))
    && (if name == "" then at == -1 else 0 <= at < n && Matches(zones[at]) && zones[at].name == name)
  }

  lemma SoughtStep(zones: seq<Zone>, n: nat, name: string, at: int)
    requires n < |zones| && Sought(zones, n, name, at) && Readable(zones[n])
    ensures !Matches(zones[n]) ==> Sought(zones, n + 1, name, at)
    ensures Matches(zones[n]) && name == "" ==>
              Sought(zones, n + 1, zones[n].name, if zones[n].name == "" then -1 else n)
    ensures Matches(zones[n]) && name != "" ==> !NoNamedZone(zones) && forall k :: !TheZone(zones, k)
  {
    if Matches(zones[n]) && name != "" {
      forall k ensures !TheZone(zones, k) {
        assert TheZone(zones, k) ==> k == at;
      }
    }
  }

  /** The search stops at a zone that cannot be read, or at a match after a named one. */
  ghost predicate Obstacle(zones: seq<Zone>, i: nat)
    requires i < |zones|
  {
    !Readable(zones[i]) || (Matches(zones[i]) && exists j :: 0 <= j < i && Matches(zones[j]) && zones[j].name != "")
  }

  ghost predicate FirstObstacle(zones: seq<Zone>, i: int) {
    0 <= i < |zones| && Obstacle(zones, i) && forall j: nat :: j < i ==> !Obstacle(zones, j)
  }

  function AtObstacle(z: Zone): Outcome<Float> {
    if z.ctxErr.Some? then AcquisitionFailure(z.ctxErr, TEMPORARILY_UNAVAILABLE)
    else if z.kind.ReadError? then AcquisitionFailure(Some(z.kind.err), TEMPORARILY_UNAVAILABLE)
    else Temporary()
  }

  lemma SoughtObstacle(zones: seq<Zone>, n: nat, name: string, at: int)
    requires n < |zones| && Sought(zones, n, name, at)
    ensures Obstacle(zones, n) <==> !Readable(zones[n]) || (Matches(zones[n]) && name != "")
  {
  }

  /** Looks for the zone. Without one the metric is unsupported; several, or a failure on the way, make it
      temporarily unavailable, except that a refused access is reported as such. */
  method FindZone(zones: seq<Zone>) returns (search: Search)
    ensures search.Matched? <==> (forall i :: 0 <= i < |zones| ==> Readable(zones[i])) && exists k :: TheZone(zones, k)
    ensures search.Matched? ==> exists k :: TheZone(zones, k) && search.zone == zones[k].name
    ensures search.Stopped? ==> !search.outcome.Present? && ValidOutcome(search.outcome)
    ensures search.Stopped? && search.outcome.reason == UNSUPPORTED <==>
              (forall i :: 0 <= i < |zones| ==> Readable(zones[i])) && NoNamedZone(zones)
    ensures search.Stopped? && search.outcome.reason != UNSUPPORTED ==>
              exists i :: FirstObstacle(zones, i) && search.outcome == AtObstacle(zones[i])
  {
    var name := "";
    ghost var at := -1;
    for i := 0 to |zones|
      invariant Sought(zones, i, name, at)
      invariant forall j: nat :: j < i ==> !Obstacle(zones, j)
    {
      SoughtObstacle(zones, i, name, at);
      if zones[i].ctxErr.Some? {
        assert FirstObstacle(zones, i);
        return Stopped(AcquisitionFailure(zones[i].ctxErr, TEMPORARILY_UNAVAILABLE));
      }
      if zones[i].kind.ReadError? {
        assert FirstObstacle(zones, i);
        return Stopped(AcquisitionFailure(Some(zones[i].kind.err), TEMPORARILY_UNAVAILABLE));
      }
      SoughtStep(zones, i, name, at);
      if TrimSpace(zones[i].kind.value) != THERMAL_ZONE_TYPE {
        continue;
      }
      if name != "" {
        assert FirstObstacle(zones, i);
        return Stopped(Unavailable(TEMPORARILY_UNAVAILABLE, Some(OTHER_FAILURE)));
      }
      name := zones[i].name;
      at := if name == "" then -1 else i;
    }
    if name == "" {
      return Stopped(Unavailable(UNSUPPORTED, Some(OTHER_FAILURE)));
    }
    assert TheZone(zones, at);
    return Matched(name);
  }

  /** `strconv.ParseInt` in base 10 for 64 bits. */
  function ParseInt64(s: string): Option<int> {
    if s == "" then None
    else
      var magnitude := ParseUint(if s[0] == '+' || s[0] == '-' then s[1..] else s, 10, MAX_UINT64);
      if magnitude.None? then None
      else if s[0] == '-'
          then (if magnitude.value > 0x8000_0000_0000_0000 then None else Some(-(magnitude.value as int)))
      else if magnitude.value >= 0x8000_0000_0000_0000 then None
      else Some(magnitude.value)
  }

  /** The text is a plausible temperature of `millidegrees`. */
  predicate IsTemperature(data: string, millidegrees: int) {
    ParseInt64(TrimSpace(data)) == Some(millidegrees) && millidegrees >= ABSOLUTE_ZERO
  }

  ghost predicate AllReadable(zones: seq<Zone>) {
    forall i :: 0 <= i < |zones| ==> Readable(zones[i])
  }

  function ZoneError(z: Zone): Option<Failure> {
    if z.ctxErr.Some? then z.ctxErr else if z.kind.ReadError? then Some(z.kind.err) else None
  }

  predicate IsPermission(err: Option<Failure>) {
    err.Some? && err.value.permission
  }

  /** Access was refused where the search stopped, or to the temperature of the one zone. */
  ghost predicate AccessRefused(zones: seq<Zone>, temperature: string -> Read<string>) {
    || (exists i :: FirstObstacle(zones, i) && IsPermission(ZoneError(zones[i])))
    || (AllReadable(zones)
        && exists k ::
             && TheZone(zones, k) && temperature(zones[k].name).ReadError?
             && temperature(zones[k].name).err.permission)
  }

  lemma OneObstacle(zones: seq<Zone>, i: int, j: int)
    requires FirstObstacle(zones, i) && FirstObstacle(zones, j)
    ensures i == j
  {
  }

  lemma MatchedHasNoObstacle(zones: seq<Zone>, k: int)
    requires AllReadable(zones) && TheZone(zones, k)
    ensures forall i :: !FirstObstacle(zones, i)
  {
  }

  lemma StoppedReason(zones: seq<Zone>, outcome: Outcome<Float>, temperature: string -> Read<string>)
    requires !(AllReadable(zones) && exists k :: TheZone(zones, k))
    requires outcome.reason == UNSUPPORTED ==> AllReadable(zones) && NoNamedZone(zones)
    requires outcome.reason != UNSUPPORTED ==> exists i :: FirstObstacle(zones, i) && outcome == AtObstacle(zones[i])
    ensures outcome.reason == PERMISSION_DENIED <==> AccessRefused(zones, temperature)
  {
    if i :| FirstObstacle(zones, i) && outcome == AtObstacle(zones[i]) {
      forall j | FirstObstacle(zones, j) ensures j == i {
        OneObstacle(zones, i, j);
      }
    }
  }

  /** `temperature` is the source's answer for a zone's temperature file. */
  method CollectSocTemperature(zones: Read<seq<Zone>>, temperature: string -> Read<string>) returns (o: Outcome<Float>)
    ensures ValidOutcome(o)
    ensures zones.ReadError? ==> o == AcquisitionFailure(Some(zones.err), UNSUPPORTED)
    ensures o.Present? <==>
              && zones.Got? && (forall i :: 0 <= i < |zones.value| ==> Readable(zones.value[i]))
              && exists k, m :: TheZone(zones.value, k) && temperature(zones.value[k].name).Got?
                                && IsTemperature(temperature(zones.value[k].name).value, m)
    ensures o.Present? ==>
              exists k, m :: TheZone(zones.value, k) && temperature(zones.value[k].name).Got?
                             && IsTemperature(temperature(zones.value[k].name).value, m)
                             && o.value == Finite(m as real / 1000.0)
    ensures o.Present? ==> o.value.Finite? && o.value.value >= -273.15
    ensures zones.Got? && !o.Present? ==>
              && (o.reason == UNSUPPORTED <==> AllReadable(zones.value) && NoNamedZone(zones.value))
              && (o.reason == PERMISSION_DENIED <==> AccessRefused(zones.value, temperature))
  {
    if zones.ReadError? {
      return AcquisitionFailure(Some(zones.err), UNSUPPORTED);
    }
    var search := FindZone(zones.value);
    if search.Stopped? {
      StoppedReason(zones.value, search.outcome, temperature);
      return search.outcome;
    }
    ghost var k :| TheZone(zones.value, k) && search.zone == zones.value[k].name;
    forall j | TheZone(zones.value, j) ensures j == k {}
    MatchedHasNoObstacle(zones.value, k);
    var data := temperature(search.zone);
    if data.ReadError? {
      return AcquisitionFailure(Some(data.err), TEMPORARILY_UNAVAILABLE);
    }
    var millidegrees := ParseInt64(TrimSpace(data.value));
    if millidegrees.None? || millidegrees.value < ABSOLUTE_ZERO {
      return Unavailable(TEMPORARILY_UNAVAILABLE, Some(OTHER_FAILURE));
    }
    assert IsTemperature(data.value, millidegrees.value);
    return Good(Finite(millidegrees.value as real / 1000.0));
  }
}
