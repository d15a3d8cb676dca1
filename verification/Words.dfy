/** Machine words and byte strings in buffers. */
module Words {
  import opened Text

  // ----- Words in the byte order of the machine -----

  datatype Endian = Little | Big

  function Bytes(e: Endian, v: nat, n: nat): seq<byte> {
    if n == 0 then []
    else if e.Little? then [v % 256] + Bytes(e, v / 256, n - 1)
    else Bytes(e, v / 256, n - 1) + [v % 256]
  }

  function Word(e: Endian, b: seq<byte>): nat {
    if b == [] then 0
    else if e.Little? then b[0] + 256 * Word(e, b[1..])
    else 256 * Word(e, b[..|b| - 1]) + b[|b| - 1]
  }

  function Power256(n: nat): nat {
    if n == 0 then 1 else 256 * Power256(n - 1)
  }

  lemma {:induction false} BytesLength(e: Endian, v: nat, n: nat)
    ensures |Bytes(e, v, n)| == n
  {
    if n > 0 {
      BytesLength(e, v / 256, n - 1);
    }
  }

  lemma {:induction false} WordOfBytes(e: Endian, v: nat, n: nat)
    requires v < Power256(n)
    ensures |Bytes(e, v, n)| == n && Word(e, Bytes(e, v, n)) == v
  {
    BytesLength(e, v, n);
    if n > 0 {
      WordOfBytes(e, v / 256, n - 1);
      BytesLength(e, v / 256, n - 1);
      var b := Bytes(e, v, n);
      if e.Little? {
        assert b[1..] == Bytes(e, v / 256, n - 1);
      } else {
        assert b[..n - 1] == Bytes(e, v / 256, n - 1);
      }
    }
  }

  lemma LowByte(low: byte, rest: nat)
    ensures (low + 256 * rest) % 256 == low && (low + 256 * rest) / 256 == rest
  {
  }

  lemma {:induction false} BytesOfWord(e: Endian, b: seq<byte>)
    ensures Word(e, b) < Power256(|b|) && Bytes(e, Word(e, b), |b|) == b
  {
    if b != [] {
      if e.Little? {
        LowByte(b[0], Word(e, b[1..]));
        BytesOfWord(e, b[1..]);
      } else {
        LowByte(b[|b| - 1], Word(e, b[..|b| - 1]));
        BytesOfWord(e, b[..|b| - 1]);
      }
    }
  }

  lemma Powers()
    ensures Power256(2) == 0x1_0000 && Power256(4) == 0x1_0000_0000 && Power256(8) == 0x1_0000_0000_0000_0000
  {
    assert Power256(3) == 0x100_0000;
    assert Power256(5) == 256 * Power256(4);
    assert Power256(6) == 256 * Power256(5);
    assert Power256(7) == 256 * Power256(6);
  }

  // ----- Byte strings -----

  function ToString(data: seq<byte>): string {
    seq(|data|, i requires 0 <= i < |data| => data[i] as char)
  }

  function FromString(s: string): seq<byte>
    requires IsByteString(s)
  {
    seq(|s|, i requires 0 <= i < |s| => s[i] as int)
  }

  predicate IsByteString(s: string) {
    forall i :: 0 <= i < |s| ==> s[i] < '\U{100}'
  }

  lemma ByteStringRoundTrip(s: string)
    requires IsByteString(s)
    ensures ToString(FromString(s)) == s
  {
    forall i | 0 <= i < |s| ensures ToString(FromString(s))[i] == s[i] {}
  }
}
