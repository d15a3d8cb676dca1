/** Decoding of netlink interface messages: the attribute list (section 2.3.3.1 of RFC 3549) and the link it
    describes. */
module Netlink {
  import opened Text
  import opened Words
  import opened Network

  const INFO_MESSAGE_SIZE: nat := 16
  const IFNAME: nat := 3
  const LINK: nat := 5
  const MASTER: nat := 10
  const OPER_STATE: nat := 16
  const LINK_INFO: nat := 18
  const STATS64: nat := 23
  const INFO_KIND: nat := 1

  // ----- Attributes -----

  datatype Attribute = Attribute(kind: nat, data: seq<byte>)

  function Aligned(n: nat): nat {
    (n + 3) / 4 * 4
  }

  function Prepend(front: seq<Attribute>, rest: Option<seq<Attribute>>): Option<seq<Attribute>> {
    if rest.None? then None else Some(front + rest.value)
  }

  lemma PrependOne(front: seq<Attribute>, a: Attribute, rest: Option<seq<Attribute>>)
    ensures Prepend([], rest) == rest
    ensures Prepend(front, Prepend([a], rest)) == Prepend(front + [a], rest)
    ensures Prepend(front, Some([])) == Some(front)
  {
    assert front + [] == front;
    if rest.Some? {
      assert [] + rest.value == rest.value;
      assert front + ([a] + rest.value) == front + [a] + rest.value;
    }
  }

  /** The length field and 14-bit kind at the start of an attribute. */
  function HeaderLength(e: Endian, data: seq<byte>): nat
    requires |data| >= 4
  {
    Word(e, data[..2])
  }

  function HeaderKind(e: Endian, data: seq<byte>): nat
    requires |data| >= 4
  {
    Word(e, data[2..4]) % 0x4000
  }

  predicate StartsAttribute(e: Endian, data: seq<byte>) {
    |data| >= 4 && 4 <= HeaderLength(e, data) && Aligned(HeaderLength(e, data)) <= |data|
  }

  /** What the attribute parser computes. */
  function Parse(e: Endian, data: seq<byte>): Option<seq<Attribute>>
    decreases |data|
  {
    if data == [] then Some([])
    else if !StartsAttribute(e, data) then None
    else
      var length := HeaderLength(e, data);
      Prepend([Attribute(HeaderKind(e, data), data[4..length])], Parse(e, data[Aligned(length)..]))
  }

  method ParseAttributes(e: Endian, input: seq<byte>) returns (result: Option<seq<Attribute>>)
    ensures result == Parse(e, input)
  {
    var attributes: seq<Attribute> := [];
    var data := input;
    PrependOne([], Attribute(0, []), Parse(e, data));
    while |data| != 0
      invariant Parse(e, input) == Prepend(attributes, Parse(e, data))
      decreases |data|
    {
      if |data| < 4 {
        return None;
      }
      var length := Word(e, data[..2]);
      if length < 4 || length > |data| {
        return None;
      }
      var kind := Word(e, data[2..4]) % 0x4000;
      attributes := attributes + [Attribute(kind, data[4..length])];
      var aligned := Aligned(length);
      if aligned > |data| {
        return None;
      }
      PrependOne(attributes[..|attributes| - 1], attributes[|attributes| - 1], Parse(e, data[aligned..]));
      data := data[aligned..];
    }
    PrependOne(attributes, Attribute(0, []), None);
    return Some(attributes);
  }

  /** An attribute as it is laid out: its two flag bits, and the bytes that pad it to a multiple of four. */
  datatype Raw = Raw(flags: nat, attribute: Attribute, padding: seq<byte>)

  predicate ValidRaw(r: Raw) {
    && r.flags < 4 && r.attribute.kind < 0x4000
    && 4 + |r.attribute.data| < 0x1_0000
    && 4 + |r.attribute.data| + |r.padding| == Aligned(4 + |r.attribute.data|)
  }

  function Encode(e: Endian, r: Raw): seq<byte> {
    Bytes(e, 4 + |r.attribute.data|, 2) + Bytes(e, r.flags * 0x4000 + r.attribute.kind, 2) + r.attribute.data
        + r.padding
  }

  function EncodeAll(e: Endian, raws: seq<Raw>): seq<byte> {
    if raws == [] then [] else Encode(e, raws[0]) + EncodeAll(e, raws[1..])
  }

  function Attributes(raws: seq<Raw>): seq<Attribute> {
    if raws == [] then [] else [raws[0].attribute] + Attributes(raws[1..])
  }

  lemma EncodedSlices(e: Endian, r: Raw, rest: seq<byte>)
    requires ValidRaw(r)
    ensures var data, length := Encode(e, r) + rest, 4 + |r.attribute.data|;
      && |data| == Aligned(length) + |rest|
      && data[..2] == Bytes(e, length, 2)
      && data[2..4] == Bytes(e, r.flags * 0x4000 + r.attribute.kind, 2)
      && data[4..length] == r.attribute.data
      && data[Aligned(length)..] == rest
  {
    BytesLength(e, 4 + |r.attribute.data|, 2);
    BytesLength(e, r.flags * 0x4000 + r.attribute.kind, 2);
  }

  lemma EncodedHeader(e: Endian, r: Raw, rest: seq<byte>)
    requires ValidRaw(r)
    ensures var data := Encode(e, r) + rest;
      && StartsAttribute(e, data)
      && HeaderLength(e, data) == 4 + |r.attribute.data|
      && HeaderKind(e, data) == r.attribute.kind
  {
    Powers();
    EncodedSlices(e, r, rest);
    WordOfBytes(e, 4 + |r.attribute.data|, 2);
    WordOfBytes(e, r.flags * 0x4000 + r.attribute.kind, 2);
    assert (r.flags * 0x4000 + r.attribute.kind) % 0x4000 == r.attribute.kind;
  }

  /** Parsing the aligned encoding of an attribute list returns the list, whatever its flags and padding are. */
  lemma {:induction false} ParseEncoded(e: Endian, raws: seq<Raw>)
    requires forall r :: r in raws ==> ValidRaw(r)
    ensures Parse(e, EncodeAll(e, raws)) == Some(Attributes(raws))
  {
    if raws != [] {
      EncodedHeader(e, raws[0], EncodeAll(e, raws[1..]));
      EncodedSlices(e, raws[0], EncodeAll(e, raws[1..]));
      ParseEncoded(e, raws[1..]);
    }
  }

  lemma SplitHeader(e: Endian, data: seq<byte>) returns (r: Raw)
    requires StartsAttribute(e, data)
    ensures ValidRaw(r) && r.attribute == Attribute(HeaderKind(e, data), data[4..HeaderLength(e, data)])
    ensures data == Encode(e, r) + data[Aligned(HeaderLength(e, data))..]
  {
    Powers();
    var length, word := HeaderLength(e, data), Word(e, data[2..4]);
    BytesOfWord(e, data[..2]);
    BytesOfWord(e, data[2..4]);
    r := Raw(word / 0x4000, Attribute(word % 0x4000, data[4..length]), data[length..Aligned(length)]);
    assert word == r.flags * 0x4000 + r.attribute.kind;
    assert data == data[..2] + data[2..4] + data[4..length] + data[length..Aligned(length)] + data[Aligned(length)..];
  }

  /** Accepted input is exactly partitioned into aligned attributes, none of its bytes being skipped. */
  lemma {:induction false} ParsedIsPartition(e: Endian, data: seq<byte>) returns (raws: seq<Raw>)
    requires Parse(e, data).Some?
    ensures forall r :: r in raws ==> ValidRaw(r)
    ensures EncodeAll(e, raws) == data && Attributes(raws) == Parse(e, data).value
    decreases |data|
  {
    if data == [] {
      raws := [];
    } else {
      var first := SplitHeader(e, data);
      var rest := ParsedIsPartition(e, data[Aligned(HeaderLength(e, data))..]);
      raws := [first] + rest;
      assert raws[1..] == rest;
    }
  }

  // ----- Links -----

  /** Strings may carry one terminating NUL. */
  function NetlinkString(data: seq<byte>): string {
    if data != [] && data[|data| - 1] == 0 then ToString(data[..|data| - 1]) else ToString(data)
  }

  function ToInt32(v: nat): int {
    if v >= 0x8000_0000 then v - 0x1_0000_0000 else v
  }

  predicate IsInt32(v: int) {
    -0x8000_0000 <= v < 0x8000_0000
  }

  function FromInt32(v: int): nat
    requires IsInt32(v)
  {
    if v < 0 then v + 0x1_0000_0000 else v
  }

  /** The last attribute of a kind. */
  function LastOf(attributes: seq<Attribute>, kind: nat): (last: Option<Attribute>)
    ensures last.Some? ==> last.value in attributes && last.value.kind == kind
    ensures last.None? ==> forall a :: a in attributes ==> a.kind != kind
  {
    if attributes == [] then None
    else if attributes[|attributes| - 1].kind == kind then Some(attributes[|attributes| - 1])
    else LastOf(attributes[..|attributes| - 1], kind)
  }

  /** The position of the first attribute of a kind, or the length of the list. */
  function FirstOf(attributes: seq<Attribute>, kind: nat): nat {
    if attributes == [] || attributes[0].kind == kind then 0 else 1 + FirstOf(attributes[1..], kind)
  }

  lemma {:induction false} FirstOfIs(attributes: seq<Attribute>, kind: nat, n: nat)
    requires n <= |attributes| && forall i :: 0 <= i < n ==> attributes[i].kind != kind
    ensures FirstOf(attributes, kind) <= |attributes|
    ensures n < |attributes| && attributes[n].kind == kind ==> FirstOf(attributes, kind) == n
    ensures n == |attributes| ==> FirstOf(attributes, kind) == n
  {
    if attributes != [] {
      if n > 0 {
        FirstOfIs(attributes[1..], kind, n - 1);
      } else if attributes[0].kind != kind {
        FirstOfIs(attributes[1..], kind, 0);
      }
    }
  }

  /** The kind named by nested link information, empty if it names none. */
  function LinkKind(e: Endian, data: seq<byte>): Option<string> {
    var nested := Parse(e, data);
    if nested.None? then None
    else
      var k := FirstOf(nested.value, INFO_KIND);
      Some(if k < |nested.value| then NetlinkString(nested.value[k].data) else "")
  }

  method DecodeLinkKind(e: Endian, data: seq<byte>) returns (kind: Option<string>)
    ensures kind == LinkKind(e, data)
  {
    var attributes := ParseAttributes(e, data);
    if attributes.None? {
      return None;
    }
    for i := 0 to |attributes.value|
      invariant forall j :: 0 <= j < i ==> attributes.value[j].kind != INFO_KIND
    {
      if attributes.value[i].kind == INFO_KIND {
        FirstOfIs(attributes.value, INFO_KIND, i);
        return Some(NetlinkString(attributes.value[i].data));
      }
    }
    FirstOfIs(attributes.value, INFO_KIND, |attributes.value|);
    return Some("");
  }

  predicate WellFormed(e: Endian, a: Attribute) {
    if a.kind == LINK || a.kind == MASTER then |a.data| == 4
    else if a.kind == OPER_STATE then |a.data| == 1
    else if a.kind == LINK_INFO then Parse(e, a.data).Some?
    else if a.kind == STATS64 then |a.data| >= 32
    else true
  }

  function Index(e: Endian, data: seq<byte>): int {
    ToInt32(Word(e, data))
  }

  /** The link record is filled in attribute by attribute. */
  function Fill(e: Endian, link: Link, a: Attribute): Link
    requires WellFormed(e, a)
  {
    if a.kind == IFNAME then link.(name := NetlinkString(a.data))
    else if a.kind == LINK then link.(linkIndex := Some(Index(e, a.data)))
    else if a.kind == MASTER then link.(masterIndex := Some(Index(e, a.data)))
    else if a.kind == OPER_STATE then link.(operState := Some(a.data[0]))
    else if a.kind == LINK_INFO then link.(kind := LinkKind(e, a.data).value)
    else if a.kind == STATS64
        then link.(rxBytes := Some(Word64(e, a.data[16..24])), txBytes := Some(Word64(e, a.data[24..32])))
    else link
  }

  function Word64(e: Endian, b: seq<byte>): uint64
    requires |b| == 8
  {
    BytesOfWord(e, b);
    Powers();
    Word(e, b)
  }

  method DecodeAttribute(e: Endian, link: Link, a: Attribute) returns (result: Option<Link>)
    ensures result == if WellFormed(e, a) then Some(Fill(e, link, a)) else None
  {
    if a.kind == IFNAME {
      return Some(link.(name := NetlinkString(a.data)));
    } else if a.kind == LINK {
      return if |a.data| != 4 then None else Some(link.(linkIndex := Some(Index(e, a.data))));
    } else if a.kind == MASTER {
      return if |a.data| != 4 then None else Some(link.(masterIndex := Some(Index(e, a.data))));
    } else if a.kind == OPER_STATE {
      return if |a.data| != 1 then None else Some(link.(operState := Some(a.data[0])));
    } else if a.kind == LINK_INFO {
      var kind := DecodeLinkKind(e, a.data);
      return if kind.None? then None else Some(link.(kind := kind.value));
    } else if a.kind == STATS64 {
      if |a.data| < 32 {
        return None;
      }
      return Some(link.(rxBytes := Some(Word64(e, a.data[16..24])), txBytes := Some(Word64(e, a.data[24..32]))));
    }
    return Some(link);
  }

  /** The link an attribute list describes: each field comes from the last attribute of its kind. */
  function Described(e: Endian, base: Link, attributes: seq<Attribute>): Link
    requires forall a :: a in attributes ==> WellFormed(e, a)
  {
    if attributes == [] then base
    else Fill(e, Described(e, base, attributes[..|attributes| - 1]), attributes[|attributes| - 1])
  }

  function Header(e: Endian, data: seq<byte>): Link
    requires |data| >= INFO_MESSAGE_SIZE
  {
    BytesOfWord(e, data[2..4]);
    BytesOfWord(e, data[8..12]);
    Powers();
    Link(Index(e, data[4..8]), "", Word(e, data[2..4]), Word(e, data[8..12]), "", None, None, None, None, None, "")
  }

  ghost predicate Decodable(e: Endian, data: seq<byte>) {
    && |data| >= INFO_MESSAGE_SIZE
    && var attributes := Parse(e, data[INFO_MESSAGE_SIZE..]);
       && attributes.Some?
       && (forall a :: a in attributes.value ==> WellFormed(e, a))
       && var link := Described(e, Header(e, data), attributes.value);
          link.index > 0 && link.name != ""
  }

  method DecodeLink(e: Endian, data: seq<byte>) returns (result: Option<Link>)
    ensures result.Some? <==> Decodable(e, data)
    ensures result.Some? ==> result.value == Described(e, Header(e, data), Parse(e, data[INFO_MESSAGE_SIZE..]).value)
  {
    if |data| < INFO_MESSAGE_SIZE {
      return None;
    }
    var link := Header(e, data);
    var parsed := ParseAttributes(e, data[INFO_MESSAGE_SIZE..]);
    if parsed.None? {
      return None;
    }
    var filled := FillAll(e, link, parsed.value);
    return if filled.None? || filled.value.index <= 0 || filled.value.name == "" then None else filled;
  }

  method FillAll(e: Endian, base: Link, attributes: seq<Attribute>) returns (result: Option<Link>)
    ensures result.Some? <==> forall a :: a in attributes ==> WellFormed(e, a)
    ensures result.Some? ==> result.value == Described(e, base, attributes)
  {
    var link := base;
    for i := 0 to |attributes|
      invariant forall a :: a in attributes[..i] ==> WellFormed(e, a)
      invariant link == Described(e, base, attributes[..i])
    {
      var next := DecodeAttribute(e, link, attributes[i]);
      if next.None? {
        assert attributes[i] in attributes;
        return None;
      }
      link := next.value;
      assert attributes[..i + 1][..i] == attributes[..i];
    }
    assert attributes[..|attributes|] == attributes;
    return Some(link);
  }

  // ----- What a decoded link means -----

  /** The link read off the last attribute of each kind. */
  function ByLast(e: Endian, base: Link, attributes: seq<Attribute>): Link
    requires forall a :: a in attributes ==> WellFormed(e, a)
  {
    var name, lower, master := LastOf(attributes, IFNAME), LastOf(attributes, LINK), LastOf(attributes, MASTER);
    var state, info, stats := LastOf(attributes, OPER_STATE), LastOf(attributes, LINK_INFO),
        LastOf(attributes, STATS64);
    assert state.Some? ==> WellFormed(e, state.value);
    assert info.Some? ==> WellFormed(e, info.value);
    assert stats.Some? ==> WellFormed(e, stats.value);
    base.(name := if name.None? then base.name else NetlinkString(name.value.data),
          linkIndex := if lower.None? then base.linkIndex else Some(Index(e, lower.value.data)),
          masterIndex := if master.None? then base.masterIndex else Some(Index(e, master.value.data)),
          operState := if state.None? then base.operState else Some(state.value.data[0]),
          kind := if info.None? then base.kind else LinkKind(e, info.value.data).value,
          rxBytes := if stats.None? then base.rxBytes else Some(Word64(e, stats.value.data[16..24])),
          txBytes := if stats.None? then base.txBytes else Some(Word64(e, stats.value.data[24..32])))
  }

  /** Of repeated attributes the last one counts, and attributes of other kinds do not matter. */
  lemma {:induction false} LastAttributeCounts(e: Endian, base: Link, attributes: seq<Attribute>)
    requires forall a :: a in attributes ==> WellFormed(e, a)
    ensures Described(e, base, attributes) == ByLast(e, base, attributes)
  {
    if attributes != [] {
      LastAttributeCounts(e, base, attributes[..|attributes| - 1]);
      ByLastStep(e, base, attributes);
    }
  }

  lemma ByLastStep(e: Endian, base: Link, attributes: seq<Attribute>)
    requires attributes != [] && forall a :: a in attributes ==> WellFormed(e, a)
    ensures ByLast(e, base, attributes)
         == Fill(e, ByLast(e, base, attributes[..|attributes| - 1]), attributes[|attributes| - 1])
  {
    var last := attributes[|attributes| - 1];
    assert WellFormed(e, last);
    var l, m := ByLast(e, base, attributes), ByLast(e, base, attributes[..|attributes| - 1]);
    assert l.name == Fill(e, m, last).name;
    assert l.linkIndex == Fill(e, m, last).linkIndex && l.masterIndex == Fill(e, m, last).masterIndex;
    assert l.operState == Fill(e, m, last).operState && l.kind == Fill(e, m, last).kind;
  }

  // ----- Round trip -----

  function NulTerminated(s: string): seq<byte>
    requires IsByteString(s)
  {
    FromString(s) + [0]
  }

  lemma StringRoundTrip(s: string)
    requires IsByteString(s)
    ensures NetlinkString(NulTerminated(s)) == s
  {
    var data := NulTerminated(s);
    assert data[..|data| - 1] == FromString(s);
    ByteStringRoundTrip(s);
  }

  lemma IndexRoundTrip(e: Endian, v: int)
    requires IsInt32(v)
    ensures |Bytes(e, FromInt32(v), 4)| == 4 && Index(e, Bytes(e, FromInt32(v), 4)) == v
  {
    Powers();
    WordOfBytes(e, FromInt32(v), 4);
  }

  /** The links a message can carry: a name, indices of 32 bits, both counters or none, and no device path. */
  predicate Encodable(link: Link) {
    && 0 < link.index < 0x8000_0000
    && link.name != "" && IsByteString(link.name) && |link.name| < 0x4000
    && IsByteString(link.kind) && |link.kind| < 0x4000
    && (link.linkIndex.Some? ==> IsInt32(link.linkIndex.value))
    && (link.masterIndex.Some? ==> IsInt32(link.masterIndex.value))
    && link.rxBytes.Some? == link.txBytes.Some?
    && link.devicePath == ""
  }

  function Statistics(e: Endian, link: Link, packets: seq<byte>, rest: seq<byte>): seq<byte>
    requires link.rxBytes.Some? == link.txBytes.Some?
  {
    if link.rxBytes.None? then []
        else packets + Bytes(e, link.rxBytes.value, 8) + Bytes(e, link.txBytes.value, 8) + rest
  }

  /** The attributes of a link, in the kernel's order: the kind is nested, if anything is, and the byte counters
      follow the packet counters `packets` and precede further counters `rest`. */
  function LinkAttributes(
    e: Endian, link: Link, nested: seq<Raw>, packets: seq<byte>, rest: seq<byte>): seq<Attribute>
    requires Encodable(link)
  {
    IdentityAttributes(e, link)
    + Optional(nested != [], Attribute(LINK_INFO, EncodeAll(e, nested)))
    + Optional(link.rxBytes.Some?, Attribute(STATS64, Statistics(e, link, packets, rest)))
  }

  function Optional(present: bool, a: Attribute): seq<Attribute> {
    if present then [a] else []
  }

  function IndexAttribute(e: Endian, kind: nat, index: Option<int>): Attribute
    requires index.Some? ==> IsInt32(index.value)
  {
    Attribute(kind, if index.Some? then Bytes(e, FromInt32(index.value), 4) else [])
  }

  function HeaderBytes(e: Endian, link: Link, family: seq<byte>, change: seq<byte>): seq<byte>
    requires Encodable(link)
  {
    family + Bytes(e, link.hardwareType, 2) + Bytes(e, FromInt32(link.index), 4) + Bytes(e, link.flags, 4) + change
  }

  lemma HeaderRoundTrip(e: Endian, link: Link, family: seq<byte>, change: seq<byte>, rest: seq<byte>)
    requires Encodable(link) && |family| == 2 && |change| == 4
    ensures var data := HeaderBytes(e, link, family, change) + rest;
      && |data| == INFO_MESSAGE_SIZE + |rest| && data[INFO_MESSAGE_SIZE..] == rest
      && Header(e, data) == Link(link.index, "", link.hardwareType, link.flags, "", None, None, None, None, None, "")
  {
    Powers();
    WordOfBytes(e, link.hardwareType, 2);
    WordOfBytes(e, link.flags, 4);
    IndexRoundTrip(e, link.index);
    BytesLength(e, link.flags, 4);
    HeaderSlices(family, Bytes(e, link.hardwareType, 2), Bytes(e, FromInt32(link.index), 4), Bytes(e, link.flags, 4),
        change, rest);
  }

  lemma HeaderSlices(family: seq<byte>, hardware: seq<byte>, index: seq<byte>, flags: seq<byte>, change: seq<byte>,
      rest: seq<byte>)
    requires |family| == |hardware| == 2 && |index| == |flags| == |change| == 4
    ensures var data := family + hardware + index + flags + change + rest;
      && |data| == INFO_MESSAGE_SIZE + |rest| && data[INFO_MESSAGE_SIZE..] == rest
      && data[2..4] == hardware && data[4..8] == index && data[8..12] == flags
  {
  }

  /** Nested attributes of which the first one of the kind's type carries `kind`, whatever else is nested before
      or behind it; without one of that type the kind is empty. */
  ghost predicate NestsKind(nested: seq<Raw>, kind: string) {
    && IsByteString(kind)
    && (forall r :: r in nested ==> ValidRaw(r))
    && (|| (kind == "" && forall r :: r in nested ==> r.attribute.kind != INFO_KIND)
        || exists k :: IsFirstKind(nested, k) && nested[k].attribute.data == NulTerminated(kind))
  }

  predicate IsFirstKind(nested: seq<Raw>, k: int) {
    && 0 <= k < |nested| && nested[k].attribute.kind == INFO_KIND
    && forall j :: 0 <= j < k ==> nested[j].attribute.kind != INFO_KIND
  }

  lemma KindRoundTrip(e: Endian, nested: seq<Raw>, kind: string)
    requires NestsKind(nested, kind)
    ensures LinkKind(e, EncodeAll(e, nested)) == Some(kind)
  {
    ParseEncoded(e, nested);
    AttributesAt(nested);
    if k :| IsFirstKind(nested, k) && nested[k].attribute.data == NulTerminated(kind) {
      FirstOfIs(Attributes(nested), INFO_KIND, k);
      StringRoundTrip(kind);
    } else {
      FirstOfIs(Attributes(nested), INFO_KIND, |nested|);
    }
  }

  lemma AttributesAt(raws: seq<Raw>)
    ensures |Attributes(raws)| == |raws|
    ensures forall i :: 0 <= i < |raws| ==> Attributes(raws)[i] == raws[i].attribute
  {
  }

  lemma StatisticsSlices(packets: seq<byte>, rx: seq<byte>, tx: seq<byte>, rest: seq<byte>)
    requires |packets| == 16 && |rx| == 8 && |tx| == 8
    ensures var data := packets + rx + tx + rest; |data| == 32 + |rest| && data[16..24] == rx && data[24..32] == tx
  {
  }

  lemma StatisticsRoundTrip(e: Endian, link: Link, packets: seq<byte>, rest: seq<byte>)
    requires link.rxBytes.Some? && link.txBytes.Some? && |packets| == 16
    ensures var data := Statistics(e, link, packets, rest);
      |data| == 32 + |rest| && Word64(e, data[16..24]) == link.rxBytes.value
          && Word64(e, data[24..32]) == link.txBytes.value
  {
    var rx, tx := link.rxBytes.value, link.txBytes.value;
    assert rx < Power256(8) && tx < Power256(8) by { Powers(); }
    WordOfBytes(e, rx, 8);
    WordOfBytes(e, tx, 8);
    StatisticsSlices(packets, Bytes(e, rx, 8), Bytes(e, tx, 8), rest);
  }

  ghost predicate AllWellFormed(e: Endian, attributes: seq<Attribute>) {
    forall a :: a in attributes ==> WellFormed(e, a)
  }

  lemma DescribedStep(e: Endian, base: Link, front: seq<Attribute>, present: bool, a: Attribute)
    requires AllWellFormed(e, front) && (present ==> WellFormed(e, a))
    ensures AllWellFormed(e, front + Optional(present, a))
    ensures Described(e, base, front + Optional(present, a))
         == if present then Fill(e, Described(e, base, front), a) else Described(e, base, front)
  {
    if present {
      assert (front + [a])[..|front|] == front;
    } else {
      assert front + [] == front;
    }
  }

  function Bare(link: Link): Link {
    Link(link.index, "", link.hardwareType, link.flags, "", None, None, None, None, None, "")
  }

  /** The first four attributes. */
  function IdentityAttributes(e: Endian, link: Link): seq<Attribute>
    requires Encodable(link)
  {
    Optional(true, Attribute(IFNAME, NulTerminated(link.name)))
    + Optional(link.linkIndex.Some?, IndexAttribute(e, LINK, link.linkIndex))
    + Optional(link.masterIndex.Some?, IndexAttribute(e, MASTER, link.masterIndex))
    + Optional(link.operState.Some?, Attribute(OPER_STATE, if link.operState.Some? then [link.operState.value] else []))
  }

  function Identity(link: Link): Link {
    Bare(link).(name := link.name, linkIndex := link.linkIndex, masterIndex := link.masterIndex,
        operState := link.operState)
  }

  lemma IdentityIsDescribed(e: Endian, link: Link)
    requires Encodable(link)
    ensures AllWellFormed(e, IdentityAttributes(e, link))
    ensures Described(e, Bare(link), IdentityAttributes(e, link)) == Identity(link)
  {
    var bare := Bare(link);
    var name := Attribute(IFNAME, NulTerminated(link.name));
    var lower, master := IndexAttribute(e, LINK, link.linkIndex), IndexAttribute(e, MASTER, link.masterIndex);
    var state := Attribute(OPER_STATE, if link.operState.Some? then [link.operState.value] else []);
    var s1 := Optional(true, name);
    var s2 := s1 + Optional(link.linkIndex.Some?, lower);
    var s3 := s2 + Optional(link.masterIndex.Some?, master);
    StringRoundTrip(link.name);
    DescribedStep(e, bare, [], true, name);
    assert [] + s1 == s1;
    IndexIsRead(e, LINK, link.linkIndex);
    DescribedStep(e, bare, s1, link.linkIndex.Some?, lower);
    IndexIsRead(e, MASTER, link.masterIndex);
    DescribedStep(e, bare, s2, link.masterIndex.Some?, master);
    DescribedStep(e, bare, s3, link.operState.Some?, state);
  }

  lemma LinkIsDescribed(e: Endian, link: Link, nested: seq<Raw>, packets: seq<byte>, rest: seq<byte>)
    requires Encodable(link) && NestsKind(nested, link.kind) && |packets| == 16
    ensures AllWellFormed(e, LinkAttributes(e, link, nested, packets, rest))
    ensures Described(e, Bare(link), LinkAttributes(e, link, nested, packets, rest)) == link
  {
    var bare := Bare(link);
    var kind := Attribute(LINK_INFO, EncodeAll(e, nested));
    var statistics := Attribute(STATS64, Statistics(e, link, packets, rest));
    var front := IdentityAttributes(e, link);
    IdentityIsDescribed(e, link);
    KindRoundTrip(e, nested, link.kind);
    DescribedStep(e, bare, front, nested != [], kind);
    if link.rxBytes.Some? {
      StatisticsRoundTrip(e, link, packets, rest);
    }
    DescribedStep(e, bare, front + Optional(nested != [], kind), link.rxBytes.Some?, statistics);
  }

  lemma IndexIsRead(e: Endian, kind: nat, index: Option<int>)
    requires kind == LINK || kind == MASTER
    requires index.Some? ==> IsInt32(index.value)
    ensures var a := IndexAttribute(e, kind, index); index.Some? ==> WellFormed(e, a) && Index(e, a.data) == index.value
  {
    if index.Some? {
      IndexRoundTrip(e, index.value);
    }
  }

  predicate IsKnown(kind: nat) {
    kind == IFNAME || kind == LINK || kind == MASTER || kind == OPER_STATE || kind == LINK_INFO || kind == STATS64
  }

  /** The attributes the decoder looks at. */
  function Known(attributes: seq<Attribute>): seq<Attribute> {
    if attributes == [] then []
    else
      var last := attributes[|attributes| - 1];
      Known(attributes[..|attributes| - 1]) + Optional(IsKnown(last.kind), last)
  }

  lemma {:induction false} ForeignAttributesDoNotMatter(e: Endian, base: Link, attributes: seq<Attribute>)
    requires AllWellFormed(e, Known(attributes))
    ensures AllWellFormed(e, attributes)
    ensures Described(e, base, attributes) == Described(e, base, Known(attributes))
  {
    if attributes != [] {
      var n := |attributes| - 1;
      var front, last := attributes[..n], attributes[n];
      assert forall a :: a in Known(front) ==> a in Known(attributes);
      ForeignAttributesDoNotMatter(e, base, front);
      assert attributes == front + [last];
      if IsKnown(last.kind) {
        assert last in Known(attributes);
      }
      DescribedStep(e, base, Known(front), IsKnown(last.kind), last);
    }
  }

  /** Encoding a link and decoding the message returns the link: whatever the byte order, the unused header
      fields, the attribute flags and padding, what is nested besides the kind, and the attributes of other kinds
      in between. */
  lemma LinkRoundTrip(
    e: Endian, link: Link, family: seq<byte>, change: seq<byte>, nested: seq<Raw>, packets: seq<byte>, rest: seq<byte>,
    raws: seq<Raw>)
    requires Encodable(link) && NestsKind(nested, link.kind) && |family| == 2 && |change| == 4 && |packets| == 16
    requires forall r :: r in raws ==> ValidRaw(r)
    requires Known(Attributes(raws)) == LinkAttributes(e, link, nested, packets, rest)
    ensures var data := HeaderBytes(e, link, family, change) + EncodeAll(e, raws);
      && Decodable(e, data)
      && Described(e, Header(e, data), Parse(e, data[INFO_MESSAGE_SIZE..]).value) == link
  {
    HeaderRoundTrip(e, link, family, change, EncodeAll(e, raws));
    ParseEncoded(e, raws);
    LinkIsDescribed(e, link, nested, packets, rest);
    ForeignAttributesDoNotMatter(e, Bare(link), Attributes(raws));
  }
}
