/** The Raspberry Pi firmware mailbox: building the two throttling requests and decoding their replies. */
module FirmwareProtocol {
  import opened Text
  import opened Words

  const REQUEST_CODE: uint32 := 0
  const RESPONSE_OK: uint32 := 0x8000_0000
  const TAG_RESPONSE: uint32 := 0x8000_0000
  const GET_THROTTLED: uint32 := 0x0003_0046
  const GET_COMMAND: uint32 := 0x0003_0080
  const PROPERTY_ANSWERED: uint32 := 0x8000_0004
  const END_TAG: uint32 := 0
  const COMMAND_BYTES: nat := 4096
  const PROPERTY_SIZE: nat := 28
  const COMMAND_SIZE: nat := 4124
  const COMMAND_END: nat := 1030
  const PREFIX := "throttled=0x"

  // ----- Words of a buffer -----

  function WordAt(b: seq<byte>, index: nat): uint32
    requires index * 4 + 4 <= |b|
  {
    BytesOfWord(Little, b[index * 4..index * 4 + 4]);
    Powers();
    Word(Little, b[index * 4..index * 4 + 4])
  }

  /** `b` with `data` written over it from `at` on. */
  function Overlay(b: seq<byte>, at: nat, data: seq<byte>): seq<byte>
    requires at + |data| <= |b|
  {
    b[..at] + data + b[at + |data|..]
  }

  function WordBytes(value: uint32): (bytes: seq<byte>)
    ensures |bytes| == 4
  {
    BytesLength(Little, value, 4);
    Bytes(Little, value, 4)
  }

  function SetWord(b: seq<byte>, index: nat, value: uint32): (b': seq<byte>)
    requires index * 4 + 4 <= |b|
  {
    Overlay(b, index * 4, WordBytes(value))
  }

  method PutWord(buffer: array<byte>, index: nat, value: uint32)
    requires index * 4 + 4 <= buffer.Length
    modifies buffer
    ensures buffer[..] == SetWord(old(buffer[..]), index, value)
  {
    var bytes := WordBytes(value);
    buffer[index * 4] := bytes[0];
    buffer[index * 4 + 1] := bytes[1];
    buffer[index * 4 + 2] := bytes[2];
    buffer[index * 4 + 3] := bytes[3];
    assert bytes == [bytes[0], bytes[1], bytes[2], bytes[3]];
  }

  lemma WordOfSet(b: seq<byte>, index: nat, value: uint32, other: nat)
    requires index * 4 + 4 <= |b| && other * 4 + 4 <= |b|
    ensures |SetWord(b, index, value)| == |b|
    ensures WordAt(SetWord(b, index, value), other) == if other == index then value else WordAt(b, other)
  {
    var b' := SetWord(b, index, value);
    if other == index {
      Powers();
      WordOfBytes(Little, value, 4);
      assert b'[index * 4..index * 4 + 4] == WordBytes(value);
    } else {
      assert b'[other * 4..other * 4 + 4] == b[other * 4..other * 4 + 4];
    }
  }

  /** The buffer starts with these words. */
  ghost predicate HasWords(b: seq<byte>, words: seq<uint32>) {
    4 * |words| <= |b| && forall k :: 0 <= k < |words| ==> WordAt(b, k) == words[k]
  }

  /** A request under construction: the words written so far, and zeros. */
  ghost predicate Building(b: seq<byte>, words: seq<uint32>) {
    HasWords(b, words) && forall i :: 4 * |words| <= i < |b| ==> b[i] == 0
  }

  lemma PutNext(b: seq<byte>, words: seq<uint32>, value: uint32)
    requires Building(b, words) && 4 * |words| + 4 <= |b|
    ensures Building(SetWord(b, |words|, value), words + [value])
  {
    forall k | 0 <= k <= |words| ensures WordAt(SetWord(b, |words|, value), k) == (words + [value])[k] {
      WordOfSet(b, |words|, value, k);
    }
  }

  // ----- The property tag -----

  method BuildPropertyRequest() returns (buffer: array<byte>)
    ensures fresh(buffer) && IsPropertyBuffer(buffer[..], REQUEST_CODE, 0, 0)
  {
    buffer := new byte[PROPERTY_SIZE](_ => 0);
    PutHeader(buffer, GET_THROTTLED, 4);
    ghost var header := [PROPERTY_SIZE, REQUEST_CODE, GET_THROTTLED, 4, 0];
    PutNext(buffer[..], header, 0);
    PutWord(buffer, 5, 0);
    PutNext(buffer[..], header + [0], END_TAG);
    PutWord(buffer, 6, END_TAG);
    assert header + [0] + [END_TAG] == PropertyWords(REQUEST_CODE, 0, 0);
  }

  /** The five words both requests start with: size, code, tag, value size and status. */
  method PutHeader(buffer: array<byte>, tag: uint32, valueSize: uint32)
    requires 20 <= buffer.Length <= MAX_UINT32 && forall i :: 0 <= i < buffer.Length ==> buffer[i] == 0
    modifies buffer
    ensures Building(buffer[..], [buffer.Length, REQUEST_CODE, tag, valueSize, 0])
  {
    ghost var w1 := [buffer.Length];
    PutNext(buffer[..], [], buffer.Length);
    PutWord(buffer, 0, buffer.Length);
    PutNext(buffer[..], w1, REQUEST_CODE);
    PutWord(buffer, 1, REQUEST_CODE);
    ghost var w2 := w1 + [REQUEST_CODE];
    PutNext(buffer[..], w2, tag);
    PutWord(buffer, 2, tag);
    ghost var w3 := w2 + [tag];
    PutNext(buffer[..], w3, valueSize);
    PutWord(buffer, 3, valueSize);
    ghost var w4 := w3 + [valueSize];
    PutNext(buffer[..], w4, 0);
    PutWord(buffer, 4, 0);
    assert w4 + [0] == [buffer.Length, REQUEST_CODE, tag, valueSize, 0];
  }

  function PropertyWords(code: uint32, status: uint32, value: uint32): seq<uint32> {
    [PROPERTY_SIZE, code, GET_THROTTLED, 4, status, value, END_TAG]
  }

  ghost predicate IsPropertyBuffer(b: seq<byte>, code: uint32, status: uint32, value: uint32) {
    |b| == PROPERTY_SIZE && HasWords(b, PropertyWords(code, status, value))
  }

  function ParsePropertyResponse(b: seq<byte>): Option<uint32> {
    if |b| != PROPERTY_SIZE || WordAt(b, 0) != |b| || WordAt(b, 1) != RESPONSE_OK || WordAt(b, 2) != GET_THROTTLED
       || WordAt(b, 3) != 4 || WordAt(b, 6) != END_TAG then None
    else
      var responseLength := WordAt(b, 4);
      if responseLength < TAG_RESPONSE || responseLength - TAG_RESPONSE != 4 then None
      else Some(WordAt(b, 5))
  }

  /** The firmware answers in place: only the code, the status and the value word change. */
  function AnswerProperty(request: seq<byte>, mask: uint32): seq<byte>
    requires |request| == PROPERTY_SIZE
  {
    SetWord(SetWord(SetWord(request, 1, RESPONSE_OK), 4, PROPERTY_ANSWERED), 5, mask)
  }

  lemma PropertyRoundTrip(request: seq<byte>, mask: uint32)
    requires IsPropertyBuffer(request, REQUEST_CODE, 0, 0)
    ensures ParsePropertyResponse(AnswerProperty(request, mask)) == Some(mask)
    ensures ParsePropertyResponse(request) == None
  {
    var b1 := SetWord(request, 1, RESPONSE_OK);
    var b2 := SetWord(b1, 4, PROPERTY_ANSWERED);
    forall k | 0 <= k < 7 ensures
      WordAt(AnswerProperty(request, mask), k) == PropertyWords(RESPONSE_OK, PROPERTY_ANSWERED, mask)[k]
    {
      WordOfSet(request, 1, RESPONSE_OK, k);
      WordOfSet(b1, 4, PROPERTY_ANSWERED, k);
      WordOfSet(b2, 5, mask, k);
    }
  }

  /** The decoder accepts a property reply exactly if its seven words are those of an answer, and returns its value
      word. */
  lemma PropertyAccepted(b: seq<byte>)
    ensures forall mask: uint32 ::
              ParsePropertyResponse(b) == Some(mask) <==> IsPropertyBuffer(b, RESPONSE_OK, PROPERTY_ANSWERED, mask)
  {
    forall mask: uint32
      ensures ParsePropertyResponse(b) == Some(mask) <==> IsPropertyBuffer(b, RESPONSE_OK, PROPERTY_ANSWERED, mask)
    {
      if IsPropertyBuffer(b, RESPONSE_OK, PROPERTY_ANSWERED, mask) {
        assert WordAt(b, 5) == PropertyWords(RESPONSE_OK, PROPERTY_ANSWERED, mask)[5];
      }
      if ParsePropertyResponse(b) == Some(mask) {
        assert IsPropertyBuffer(b, RESPONSE_OK, PROPERTY_ANSWERED, WordAt(b, 5));
      }
    }
  }

  // ----- The command interface -----

  method BuildCommandRequest() returns (buffer: array<byte>)
    ensures fresh(buffer) && IsCommandBuffer(buffer[..], REQUEST_CODE, 0)
    ensures ToString(buffer[24..37]) == "get_throttled"
    ensures forall i :: 37 <= i < buffer.Length ==> buffer[i] == 0
  {
    buffer := new byte[COMMAND_SIZE](_ => 0);
    PutHeader(buffer, GET_COMMAND, COMMAND_BYTES);
    ghost var headed := buffer[..];
    CopyText(buffer, 24, "get_throttled");
    ghost var filled := buffer[..];
    CommandBuilt(headed, FromString("get_throttled"));
    PutWord(buffer, COMMAND_END, END_TAG);
    ByteStringRoundTrip("get_throttled");
    assert buffer[24..37] == filled[24..37] == FromString("get_throttled");
    forall i | 37 <= i < buffer.Length ensures buffer[..][i] == 0 {
      CommandTail(headed, FromString("get_throttled"), i);
    }
    assert forall i :: 37 <= i < buffer.Length ==> buffer[i] == buffer[..][i];
  }

  /** The end tag is zero, so everything after the text stays zero: the text is terminated. */
  lemma CommandTail(headed: seq<byte>, text: seq<byte>, i: nat)
    requires |headed| == COMMAND_SIZE && 24 + |text| <= i < COMMAND_SIZE && headed[i] == 0
    ensures SetWord(Overlay(headed, 24, text), COMMAND_END, END_TAG)[i] == 0
  {
    assert WordBytes(END_TAG) == [0, 0, 0, 0];
    assert Overlay(headed, 24, text)[i] == headed[i];
  }

  lemma CommandBuilt(headed: seq<byte>, text: seq<byte>)
    requires |headed| == COMMAND_SIZE && |text| <= COMMAND_BYTES
    requires Building(headed, [COMMAND_SIZE, REQUEST_CODE, GET_COMMAND, COMMAND_BYTES, 0])
    ensures IsCommandBuffer(SetWord(Overlay(headed, 24, text), COMMAND_END, END_TAG), REQUEST_CODE, 0)
  {
    var filled := Overlay(headed, 24, text);
    ZeroWord(headed, 5);
    forall k | 0 <= k < 6 ensures WordAt(SetWord(filled, COMMAND_END, END_TAG), k) == CommandWords(REQUEST_CODE, 0)[k] {
      assert filled[k * 4..k * 4 + 4] == headed[k * 4..k * 4 + 4];
      WordOfSet(filled, COMMAND_END, END_TAG, k);
    }
    WordOfSet(filled, COMMAND_END, END_TAG, COMMAND_END);
  }

  method CopyText(buffer: array<byte>, at: nat, text: string)
    requires IsByteString(text) && at + |text| <= buffer.Length
    modifies buffer
    ensures buffer[..] == Overlay(old(buffer[..]), at, FromString(text))
  {
    for k := 0 to |text|
      invariant buffer[..] == Overlay(old(buffer[..]), at, FromString(text)[..k])
    {
      buffer[at + k] := text[k] as int;
    }
    assert FromString(text)[..|text|] == FromString(text);
  }

  function CommandWords(code: uint32, status: uint32): seq<uint32> {
    [COMMAND_SIZE, code, GET_COMMAND, COMMAND_BYTES, status, 0]
  }

  /** The fixed words of a command buffer: five header words, the command's return word, and the end tag. */
  ghost predicate IsCommandBuffer(b: seq<byte>, code: uint32, status: uint32) {
    |b| == COMMAND_SIZE && HasWords(b, CommandWords(code, status)) && WordAt(b, COMMAND_END) == END_TAG
  }

  lemma ZeroWord(b: seq<byte>, k: nat)
    requires k * 4 + 4 <= |b| && forall i :: k * 4 <= i < k * 4 + 4 ==> b[i] == 0
    ensures WordAt(b, k) == 0
  {
    var w := b[k * 4..k * 4 + 4];
    assert Word(Little, w[1..][1..][1..]) == 0;
    assert Word(Little, w[1..][1..]) == 0;
    assert Word(Little, w[1..]) == 0;
  }

  function CutAtNul(data: seq<byte>): seq<byte> {
    if data == [] || data[0] == 0 then [] else [data[0]] + CutAtNul(data[1..])
  }

  lemma {:induction false} CutIs(data: seq<byte>, n: nat)
    requires n <= |data| && forall i :: 0 <= i < n ==> data[i] != 0
    requires n == |data| || data[n] == 0
    ensures CutAtNul(data) == data[..n]
  {
    if n > 0 {
      CutIs(data[1..], n - 1);
      assert data[..n] == [data[0]] + data[1..][..n - 1];
    }
  }

  method IndexByte(buffer: seq<byte>, value: byte) returns (index: int)
    ensures -1 <= index < |buffer|
    ensures index >= 0 ==> buffer[index] == value
    ensures forall i :: 0 <= i < (if index < 0 then |buffer| else index) ==> buffer[i] != value
  {
    for i := 0 to |buffer|
      invariant forall j :: 0 <= j < i ==> buffer[j] != value
    {
      if buffer[i] == value {
        return i;
      }
    }
    return -1;
  }

  predicate IsCommandReply(b: seq<byte>) {
    && |b| == COMMAND_SIZE && WordAt(b, 0) == |b| && WordAt(b, 1) == RESPONSE_OK && WordAt(b, 2) == GET_COMMAND
    && WordAt(b, 3) == COMMAND_BYTES && WordAt(b, COMMAND_END) == END_TAG
    && WordAt(b, 4) >= TAG_RESPONSE
    && 4 <= WordAt(b, 4) - TAG_RESPONSE <= COMMAND_BYTES
    && WordAt(b, 5) == 0
  }

  /** The bytes the firmware wrote: the length counts the return word before them. */
  function Payload(b: seq<byte>): seq<byte>
    requires IsCommandReply(b)
  {
    b[24..20 + (WordAt(b, 4) - TAG_RESPONSE)]
  }

  /** The mask in the text of a reply: the prefix and one to eight hexadecimal digits. */
  function ParseText(text: string): Option<uint32> {
    if !(PREFIX <= text) || |text| == |PREFIX| || |text| > |PREFIX| + 8 then None
    else ParseUint(text[|PREFIX|..], 16, MAX_UINT32)
  }

  method ParseCommandResponse(b: seq<byte>) returns (mask: Option<uint32>)
    ensures mask == if IsCommandReply(b) then ParseText(TrimSpace(ToString(CutAtNul(Payload(b))))) else None
  {
    if !IsCommandReply(b) {
      return None;
    }
    var data := Payload(b);
    var index := IndexByte(data, 0);
    if index >= 0 {
      CutIs(data, index);
      data := data[..index];
    } else {
      CutIs(data, |data|);
      assert data[..|data|] == data;
    }
    return ParseText(TrimSpace(ToString(data)));
  }

  // ----- Replies for a mask -----

  predicate AsciiSpace(s: string) {
    forall i :: 0 <= i < |s| ==> '\t' <= s[i] <= '\r' || s[i] == ' '
  }

  /** The payload of a reply: the text, possibly surrounded by white space and followed by NUL and anything. */
  ghost predicate RepliesWith(payload: seq<byte>, left: string, text: string, right: string) {
    exists n :: 0 <= n <= |payload| && ToString(payload[..n]) == left + text + right
             && (n == |payload| || payload[n] == 0)
  }

  lemma HexText(digits: string)
    requires 0 < |digits| <= 8 && Digits(digits, 16)
    ensures ParseText(PREFIX + digits) == Some(Value(digits, 16))
  {
    ValueBound(digits);
    PowerMonotone(|digits|);
    assert |PREFIX| == 12;
    assert (PREFIX + digits)[|PREFIX|..] == digits;
  }

  lemma PowerMonotone(k: nat)
    requires k <= 8
    ensures Power16(k) <= 0x1_0000_0000
  {
    assert Power16(1) == 16 && Power16(2) == 256;
    assert Power16(3) == 16 * Power16(2);
    assert Power16(4) == 16 * Power16(3);
    assert Power16(5) == 16 * Power16(4);
    assert Power16(6) == 16 * Power16(5);
    assert Power16(7) == 16 * Power16(6);
    assert Power16(8) == 16 * Power16(7);
    assert k == 0 || k == 1 || k == 2 || k == 3 || k == 4 || k == 5 || k == 6 || k == 7 || k == 8;
  }

  /** A command reply with hexadecimal digits yields their value, whatever white space surrounds the text and
      whatever follows its NUL. */
  lemma CommandRoundTrip(b: seq<byte>, left: string, digits: string, right: string)
    requires IsCommandReply(b) && AsciiSpace(left) && AsciiSpace(right)
    requires 0 < |digits| <= 8 && Digits(digits, 16)
    requires RepliesWith(Payload(b), left, PREFIX + digits, right)
    ensures ParseText(TrimSpace(ToString(CutAtNul(Payload(b))))) == Some(Value(digits, 16))
  {
    HexCore(digits);
    ReplyText(Payload(b), left, PREFIX + digits, right);
    HexText(digits);
  }

  lemma ReplyText(payload: seq<byte>, left: string, text: string, right: string)
    requires AsciiSpace(left) && AsciiSpace(right) && RepliesWith(payload, left, text, right)
    requires text != "" && ' ' < text[0] < '\U{80}' && ' ' < text[|text| - 1] < '\U{80}' && '\0' !in text
    ensures TrimSpace(ToString(CutAtNul(payload))) == text
  {
    var n :| 0 <= n <= |payload| && ToString(payload[..n]) == left + text + right
        && (n == |payload| || payload[n] == 0);
    assert '\0' !in left && '\0' !in right;
    CutText(payload, n);
    TrimSurrounded(left, text, right);
  }

  lemma CutText(payload: seq<byte>, n: nat)
    requires n <= |payload| && '\0' !in ToString(payload[..n]) && (n == |payload| || payload[n] == 0)
    ensures CutAtNul(payload) == payload[..n]
  {
    var text := ToString(payload[..n]);
    forall i | 0 <= i < n ensures payload[i] != 0 {
      assert text[i] == payload[i] as char && text[i] in text;
    }
    CutIs(payload, n);
  }

  lemma HexCore(digits: string)
    requires digits != "" && Digits(digits, 16)
    ensures var text := PREFIX + digits; text[0] == 't' && ' ' < text[|text| - 1] < '\U{80}' && '\0' !in text
  {
    assert '\0' !in PREFIX by {
      forall k | 0 <= k < |PREFIX| ensures PREFIX[k] != '\0' {}
    }
    assert '\0' !in digits;
  }

  /** For every mask, a command reply that spells it in hexadecimal and the property reply that carries it
      decode to the same mask. */
  lemma RepliesAgree(request: seq<byte>, b: seq<byte>, left: string, right: string, mask: uint32)
    requires IsPropertyBuffer(request, REQUEST_CODE, 0, 0)
    requires IsCommandReply(b) && AsciiSpace(left) && AsciiSpace(right)
    requires RepliesWith(Payload(b), left, PREFIX + Format(mask, 16), right)
    ensures ParseText(TrimSpace(ToString(CutAtNul(Payload(b))))) == ParsePropertyResponse(AnswerProperty(request, mask))
              == Some(mask)
  {
    FormatValue(mask, 16);
    PowerMonotone(8);
    assert Power16(8) == 0x1_0000_0000;
    FormatLength(mask, 8);
    CommandRoundTrip(b, left, Format(mask, 16), right);
    PropertyRoundTrip(request, mask);
  }
}
