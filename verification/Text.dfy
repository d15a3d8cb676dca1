/** Byte strings, numbers and lists as the service's parsers and formatters see them.

    A Go string is a sequence of bytes. Here it is a Dafny `string` with one `char` per byte,
    so that literals read as they do in the source; a `char` above 255 never forms valid UTF-8.
 */
module Text {

  datatype Option<+T> = None | Some(value: T)

  const MAX_UINT64: nat := 0xFFFF_FFFF_FFFF_FFFF
  const MAX_UINT32: nat := 0xFFFF_FFFF

  type byte = x: int | 0 <= x < 0x100
  type uint16 = x: int | 0 <= x < 0x1_0000
  type uint32 = x: int | 0 <= x < 0x1_0000_0000
  type uint64 = x: int | 0 <= x < 0x1_0000_0000_0000_0000

  // ----- Order -----

  /** The byte-wise order of Go's `<` on strings. */
  predicate Less(a: string, b: string) {
    if b == "" then false
    else if a == "" then true
    else if a[0] != b[0] then a[0] < b[0]
    else Less(a[1..], b[1..])
  }

  lemma {:induction false} LessIrreflexive(a: string)
    ensures !Less(a, a)
  {
    if a != "" {
      LessIrreflexive(a[1..]);
    }
  }

  lemma {:induction false} LessTransitive(a: string, b: string, c: string)
    requires Less(a, b) && Less(b, c)
    ensures Less(a, c)
  {
    if a != "" && a[0] == b[0] && b[0] == c[0] {
      LessTransitive(a[1..], b[1..], c[1..]);
    }
  }

  lemma {:induction false} LessTotal(a: string, b: string)
    ensures Less(a, b) || a == b || Less(b, a)
  {
    if a != "" && b != "" && a[0] == b[0] {
      LessTotal(a[1..], b[1..]);
      assert a == [a[0]] + a[1..] && b == [b[0]] + b[1..];
    }
  }

  // ----- UTF-8 -----

  predicate Continuation(c: char) {
    '\U{80}' <= c <= '\U{BF}'
  }

  /** The length of the UTF-8 encoded rune `s` starts with, or 0 if it starts with none. */
  function RuneLength(s: string): (n: nat)
    ensures n <= |s|
  {
    if s == "" then 0
    else if s[0] < '\U{80}' then 1
    else if |s| >= 2 && '\U{C2}' <= s[0] <= '\U{DF}' && Continuation(s[1]) then 2
    else if |s| >= 3 && '\U{E0}' <= s[0] <= '\U{EF}' && Continuation(s[1]) && Continuation(s[2])
            && (s[0] == '\U{E0}' ==> '\U{A0}' <= s[1]) && (s[0] == '\U{ED}' ==> s[1] <= '\U{9F}') then 3
    else if |s| >= 4 && '\U{F0}' <= s[0] <= '\U{F4}' && Continuation(s[1]) && Continuation(s[2]) && Continuation(s[3])
            && (s[0] == '\U{F0}' ==> '\U{90}' <= s[1]) && (s[0] == '\U{F4}' ==> s[1] <= '\U{8F}') then 4
    else 0
  }

  predicate ValidUtf8(s: string) {
    s == "" || (RuneLength(s) > 0 && ValidUtf8(s[RuneLength(s)..]))
  }

  lemma {:induction false} AsciiIsValidUtf8(s: string)
    requires forall i :: 0 <= i < |s| ==> s[i] < '\U{80}'
    ensures ValidUtf8(s)
  {
    if s != "" {
      AsciiIsValidUtf8(s[1..]);
    }
  }

  // ----- White space -----

  /** The length of the Unicode white space character `s` starts with, or 0. */
  function SpaceAtStart(s: string): (n: nat)
    ensures n <= |s|
  {
    if |s| >= 1 && ('\t' <= s[0] <= '\r' || s[0] == ' ') then 1
    else if |s| >= 2 && s[0] == '\U{C2}' && (s[1] == '\U{85}' || s[1] == '\U{A0}') then 2
    else if |s| >= 3 && WideSpace(s[0], s[1], s[2]) then 3
    else 0
  }

  /** The length of the Unicode white space character `s` ends with, or 0. */
  function SpaceAtEnd(s: string): (n: nat)
    ensures n <= |s|
  {
    var k := |s|;
    if k >= 1 && ('\t' <= s[k - 1] <= '\r' || s[k - 1] == ' ') then 1
    else if k >= 2 && s[k - 2] == '\U{C2}' && (s[k - 1] == '\U{85}' || s[k - 1] == '\U{A0}') then 2
    else if k >= 3 && WideSpace(s[k - 3], s[k - 2], s[k - 1]) then 3
    else 0
  }

  predicate WideSpace(a: char, b: char, c: char) {
    || (a == '\U{E1}' && b == '\U{9A}' && c == '\U{80}')
    || (a == '\U{E2}' && b == '\U{80}'
        && ('\U{80}' <= c <= '\U{8A}' || c == '\U{A8}' || c == '\U{A9}' || c == '\U{AF}'))
    || (a == '\U{E2}' && b == '\U{81}' && c == '\U{9F}')
    || (a == '\U{E3}' && b == '\U{80}' && c == '\U{80}')
  }

  function TrimLeft(s: string): string {
    if SpaceAtStart(s) == 0 then s else TrimLeft(s[SpaceAtStart(s)..])
  }

  function TrimRight(s: string): string {
    if SpaceAtEnd(s) == 0 then s else TrimRight(s[..|s| - SpaceAtEnd(s)])
  }

  function TrimSpace(s: string): (r: string) {
    TrimRight(TrimLeft(s))
  }

  lemma {:induction false} TrimNoLonger(s: string)
    ensures |TrimLeft(s)| <= |s| && |TrimRight(s)| <= |s|
    decreases |s|
  {
    if SpaceAtStart(s) != 0 {
      TrimNoLonger(s[SpaceAtStart(s)..]);
    }
    if SpaceAtEnd(s) != 0 {
      TrimNoLonger(s[..|s| - SpaceAtEnd(s)]);
    }
  }

  /** ASCII white space around a core that neither starts nor ends with white space is what trimming removes. */
  lemma {:induction false} TrimSurrounded(left: string, core: string, right: string)
    requires forall i :: 0 <= i < |left| ==> '\t' <= left[i] <= '\r' || left[i] == ' '
    requires forall i :: 0 <= i < |right| ==> '\t' <= right[i] <= '\r' || right[i] == ' '
    requires core != "" && ' ' < core[0] < '\U{80}' && ' ' < core[|core| - 1] < '\U{80}'
    ensures TrimSpace(left + core + right) == core
    decreases |left| + |right|
  {
    var s := left + core + right;
    if left != "" {
      assert s[0] == left[0] && s[1..] == left[1..] + core + right;
      TrimSurrounded(left[1..], core, right);
    } else {
      assert s[0] == core[0];
      assert TrimLeft(s) == s;
      if right != "" {
        var shorter := left + core + right[..|right| - 1];
        assert s[|s| - 1] == right[|right| - 1] && s[..|s| - 1] == shorter;
        TrimSurrounded(left, core, right[..|right| - 1]);
        assert shorter[0] == core[0];
        assert TrimLeft(shorter) == shorter;
      } else {
        assert s == core;
      }
    }
  }

  /** Go's `Fields`: the maximal runs of bytes between white space characters. */
  function Fields(s: string): seq<string> {
    FieldsFrom(s, "")
  }

  function FieldsFrom(s: string, current: string): seq<string>
    decreases |s|
  {
    var done := if current == "" then [] else [current];
    if s == "" then done
    else if SpaceAtStart(s) > 0 then done + FieldsFrom(s[SpaceAtStart(s)..], "")
    else FieldsFrom(s[1..], current + [s[0]])
  }

  // ----- Splitting and joining -----

  function Split(s: string, sep: char): (parts: seq<string>)
    ensures parts != []
  {
    if s == "" then [""]
    else
      var rest := Split(s[1..], sep);
      if s[0] == sep then [""] + rest else [[s[0]] + rest[0]] + rest[1..]
  }

  function Join(parts: seq<string>, sep: char): string {
    if parts == [] then ""
    else if |parts| == 1 then parts[0]
    else parts[0] + [sep] + Join(parts[1..], sep)
  }

  lemma {:induction false} SplitPiece(piece: string, rest: string, sep: char)
    requires sep !in piece
    ensures Split(piece, sep) == [piece]
    ensures Split(piece + [sep] + rest, sep) == [piece] + Split(rest, sep)
    decreases |piece|
  {
    var s := piece + [sep] + rest;
    if piece == "" {
      assert s[1..] == rest;
    } else {
      assert s[1..] == piece[1..] + [sep] + rest;
      SplitPiece(piece[1..], rest, sep);
      assert [piece[0]] + piece[1..] == piece;
    }
  }

  lemma SplitTwo(a: string, b: string, sep: char)
    requires sep !in a && sep !in b
    ensures Split(a + [sep] + b, sep) == [a, b]
  {
    SplitPiece(a, b, sep);
    SplitPiece(b, "", sep);
  }

  lemma {:induction false} SplitJoin(parts: seq<string>, sep: char)
    requires parts != [] && forall p :: p in parts ==> sep !in p
    ensures Split(Join(parts, sep), sep) == parts
  {
    if |parts| == 1 {
      SplitPiece(parts[0], "", sep);
    } else {
      SplitJoin(parts[1..], sep);
      SplitPiece(parts[0], Join(parts[1..], sep), sep);
    }
  }

  lemma {:induction false} JoinSplit(s: string, sep: char)
    ensures Join(Split(s, sep), sep) == s
    ensures forall p :: p in Split(s, sep) ==> sep !in p
  {
    if s != "" {
      JoinSplit(s[1..], sep);
      var rest := Split(s[1..], sep);
      assert s == [s[0]] + s[1..];
      if s[0] != sep && |rest| > 1 {
        assert ([[s[0]] + rest[0]] + rest[1..])[1..] == rest[1..];
      }
    }
  }

  // ----- Numbers -----

  predicate IsBase(base: nat) {
    base == 10 || base == 16
  }

  /** The value of a digit of any base up to 36, as `strconv` reads it. */
  function DigitValue(c: char): nat {
    if '0' <= c <= '9' then c as int - '0' as int
    else if 'a' <= c <= 'z' then c as int - 'a' as int + 10
    else if 'A' <= c <= 'Z' then c as int - 'A' as int + 10
    else 36
  }

  predicate Digits(s: string, base: nat) {
    forall i :: 0 <= i < |s| ==> DigitValue(s[i]) < base
  }

  function Value(s: string, base: nat): nat {
    if s == "" then 0 else base * Value(s[..|s| - 1], base) + DigitValue(s[|s| - 1])
  }

  function DigitChar(d: nat): char
    requires d < 16
  {
    if d < 10 then '0' + d as char else 'a' + (d - 10) as char
  }

  /** `strconv.FormatUint`. */
  function Format(n: nat, base: nat): string
    requires IsBase(base)
  {
    if n < base then [DigitChar(n)] else Format(n / base, base) + [DigitChar(n % base)]
  }

  /** `strconv.ParseUint` for an explicit base: digits only, at least one, and in range. */
  function ParseUint(s: string, base: nat, max: nat): Option<nat> {
    if s != "" && Digits(s, base) && Value(s, base) <= max then Some(Value(s, base)) else None
  }

  lemma FormatStep(n: nat, base: nat)
    requires IsBase(base) && n >= base
    requires Digits(Format(n / base, base), base) && Value(Format(n / base, base), base) == n / base
    ensures Digits(Format(n, base), base) && Value(Format(n, base), base) == n
  {
    var s := Format(n, base);
    assert s[..|s| - 1] == Format(n / base, base);
    if base == 10 {
      assert n == 10 * (n / 10) + n % 10;
    } else {
      assert n == 16 * (n / 16) + n % 16;
    }
  }

  lemma {:induction false} FormatValue(n: nat, base: nat)
    requires IsBase(base)
    ensures Format(n, base) != "" && Digits(Format(n, base), base) && Value(Format(n, base), base) == n
  {
    if n >= base {
      FormatValue(n / base, base);
      FormatStep(n, base);
    } else {
      assert Format(n, base)[..0] == "";
    }
  }

  /** Formatting a parsed number never makes it longer: it only drops leading zeros. */
  lemma {:induction false} FormatShortest(s: string, base: nat)
    requires IsBase(base) && s != "" && Digits(s, base)
    ensures |Format(Value(s, base), base)| <= |s|
  {
    var n := Value(s, base);
    var front := s[..|s| - 1];
    if front != "" && n >= base {
      FormatShortest(front, base);
      assert n / base == Value(front, base);
    }
  }

  lemma FormatInjective(m: nat, n: nat, base: nat)
    requires IsBase(base) && Format(m, base) == Format(n, base)
    ensures m == n
  {
    FormatValue(m, base);
    FormatValue(n, base);
  }

  lemma FormatParses(n: nat, base: nat, max: nat)
    requires IsBase(base) && n <= max
    ensures ParseUint(Format(n, base), base, max) == Some(n)
  {
    FormatValue(n, base);
  }

  function Power16(k: nat): nat {
    if k == 0 then 1 else 16 * Power16(k - 1)
  }

  lemma {:induction false} ValueBound(s: string)
    requires Digits(s, 16)
    ensures Value(s, 16) < Power16(|s|)
  {
    if s != "" {
      ValueBound(s[..|s| - 1]);
    }
  }

  lemma {:induction false} FormatLength(n: nat, k: nat)
    requires n < Power16(k) && k > 0
    ensures |Format(n, 16)| <= k
  {
    if n >= 16 {
      FormatLength(n / 16, k - 1);
    }
  }
}
