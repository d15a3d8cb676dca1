/** Texts as the kernel writes them, and what the parsers read back from them. */
module Renderings {
  import opened Text
  import opened SnapshotBuilding
  import opened Snapshot
  import Generic
  import CpuObserver
  import CpuSampling
  import RaspberryPi

  // ----- Words and white space -----

  predicate Word(w: string) {
    w != "" && forall i :: 0 <= i < |w| ==> ' ' < w[i] < '\U{7F}'
  }

  predicate Gap(g: string) {
    forall i :: 0 <= i < |g| ==> '\t' <= g[i] <= '\r' || g[i] == ' '
  }

  /** Words, each followed by its gap; only the last gap may be empty. */
  predicate Line(words: seq<string>, gaps: seq<string>) {
    && |words| == |gaps|
    && (forall i :: 0 <= i < |words| ==> Word(words[i]) && Gap(gaps[i]))
    && (forall i :: 0 <= i < |gaps| - 1 ==> gaps[i] != "")
  }

  function Spaced(words: seq<string>, gaps: seq<string>): string
    requires |words| == |gaps|
  {
    if words == [] then "" else words[0] + gaps[0] + Spaced(words[1..], gaps[1..])
  }

  lemma {:induction false} FieldsWord(w: string, current: string, rest: string)
    requires forall i :: 0 <= i < |w| ==> ' ' < w[i] < '\U{7F}'
    ensures FieldsFrom(w + rest, current) == FieldsFrom(rest, current + w)
    decreases |w|
  {
    if w == "" {
      assert w + rest == rest && current + w == current;
    } else {
      assert (w + rest)[0] == w[0] && (w + rest)[1..] == w[1..] + rest;
      FieldsWord(w[1..], current + [w[0]], rest);
      assert current + [w[0]] + w[1..] == current + w;
    }
  }

  lemma {:induction false} FieldsGap(g: string, rest: string)
    requires Gap(g)
    ensures FieldsFrom(g + rest, "") == FieldsFrom(rest, "")
    decreases |g|
  {
    if g == "" {
      assert g + rest == rest;
    } else {
      assert (g + rest)[0] == g[0] && (g + rest)[1..] == g[1..] + rest;
      FieldsGap(g[1..], rest);
    }
  }

  lemma FieldsWordGap(w: string, g: string, rest: string)
    requires Word(w) && Gap(g) && (g != "" || rest == "")
    ensures FieldsFrom(w + g + rest, "") == [w] + FieldsFrom(rest, "")
  {
    FieldsWord(w, "", g + rest);
    assert w + g + rest == w + (g + rest) && "" + w == w;
    FieldsGapAfter(w, g, rest);
  }

  lemma FieldsGapAfter(current: string, g: string, rest: string)
    requires current != "" && Gap(g) && (g != "" || rest == "")
    ensures FieldsFrom(g + rest, current) == [current] + FieldsFrom(rest, "")
  {
    if g == "" {
      assert g + rest == "";
    } else {
      assert (g + rest)[0] == g[0] && (g + rest)[1..] == g[1..] + rest;
      FieldsGap(g[1..], rest);
    }
  }

  lemma {:induction false} FieldsOfWords(words: seq<string>, gaps: seq<string>)
    requires Line(words, gaps)
    ensures FieldsFrom(Spaced(words, gaps), "") == words
    decreases |words|
  {
    if words != [] {
      FieldsWordGap(words[0], gaps[0], Spaced(words[1..], gaps[1..]));
      FieldsOfWords(words[1..], gaps[1..]);
      assert words == [words[0]] + words[1..];
    }
  }

  /** White space around and between words is exactly what separates the fields. */
  lemma FieldsOfLine(lead: string, words: seq<string>, gaps: seq<string>)
    requires Gap(lead) && Line(words, gaps)
    ensures Fields(lead + Spaced(words, gaps)) == words
  {
    FieldsGap(lead, Spaced(words, gaps));
    FieldsOfWords(words, gaps);
  }

  lemma FormatIsWord(n: nat)
    ensures Word(Format(n, 10))
  {
    FormatValue(n, 10);
    DigitsAreGraphic(Format(n, 10));
  }

  lemma DigitsAreGraphic(s: string)
    requires Digits(s, 10)
    ensures forall i :: 0 <= i < |s| ==> ' ' < s[i] < '\U{7F}'
  {
  }

  // ----- Uptime -----

  /** The first field of an uptime text, with any decimal places, is read as its whole seconds. */
  lemma UptimeRoundTrip(lead: string, seconds: uint64, places: string, words: seq<string>, gaps: seq<string>)
    requires Gap(lead) && Generic.Decimal(places)
    requires Line([Format(seconds, 10) + ['.'] + places] + words, gaps)
    requires |lead + Spaced([Format(seconds, 10) + ['.'] + places] + words, gaps)| <= 128
    ensures Generic.IsUptime(lead + Spaced([Format(seconds, 10) + ['.'] + places] + words, gaps), seconds)
  {
    var all := [Format(seconds, 10) + ['.'] + places] + words;
    FieldsOfLine(lead, all, gaps);
    FormatValue(seconds, 10);
    assert Generic.WholePart(all[0], Format(seconds, 10));
  }

  // ----- Memory -----

  /** A carriage return at the end of a line is white space like any other. */
  lemma {:induction false} TrailingReturn(s: string, current: string)
    ensures FieldsFrom(s + "\r", current) == FieldsFrom(s, current)
    decreases |s|
  {
    var t := s + "\r";
    if s == "" {
      assert t == "\r" && t[1..] == "";
    } else {
      assert t[0] == s[0] && (|s| > 1 ==> t[1] == s[1]) && (|s| > 2 ==> t[2] == s[2]);
      var n := SpaceAtStart(s);
      assert SpaceAtStart(t) == n;
      if n > 0 {
        assert t[n..] == s[n..] + "\r";
        TrailingReturn(s[n..], "");
      } else {
        assert t[1..] == s[1..] + "\r";
        TrailingReturn(s[1..], current + [s[0]]);
      }
    }
  }

  lemma LineFieldsAreFields(line: string)
    ensures Generic.LineFields(line) == Fields(line)
  {
    if line != "" && line[|line| - 1] == '\r' {
      var front := line[..|line| - 1];
      assert line == front + "\r";
      TrailingReturn(front, "");
    }
  }

  /** The line with a name, a colon, a number of kilobytes and the unit is the entry of that name, and stands for
      1024 times as many bytes; with a unit missing or another one it stands for nothing. */
  lemma MemoryLine(lead: string, name: string, kilobytes: nat, unit: string, gaps: seq<string>)
    requires Gap(lead) && Word(name) && Word(unit) && 1024 * kilobytes <= MAX_UINT64
    requires Line([name + ":", Format(kilobytes, 10), unit], gaps)
    ensures var line := lead + Spaced([name + ":", Format(kilobytes, 10), unit], gaps);
      Generic.Names(line, name) && Generic.Entry(line) == if unit == "kB" then Some(1024 * kilobytes) else None
  {
    var words := [name + ":", Format(kilobytes, 10), unit];
    var line := lead + Spaced(words, gaps);
    FieldsOfLine(lead, words, gaps);
    LineFieldsAreFields(line);
    EntryOf(line, name, kilobytes, unit);
  }

  lemma EntryOf(line: string, name: string, kilobytes: nat, unit: string)
    requires 1024 * kilobytes <= MAX_UINT64 && Generic.LineFields(line) == [name + ":", Format(kilobytes, 10), unit]
    ensures Generic.Names(line, name) && Generic.Entry(line) == if unit == "kB" then Some(1024 * kilobytes) else None
  {
    FormatParses(kilobytes, 10, MAX_UINT64);
    assert (name + ":")[..|name + ":"| - 1] == name;
  }

  lemma MemoryLineWithoutUnit(lead: string, name: string, kilobytes: nat, gaps: seq<string>)
    requires Gap(lead) && Word(name) && Line([name + ":", Format(kilobytes, 10)], gaps)
    ensures var line := lead + Spaced([name + ":", Format(kilobytes, 10)], gaps);
      Generic.Names(line, name) && Generic.Entry(line) == None
  {
    var words := [name + ":", Format(kilobytes, 10)];
    FieldsOfLine(lead, words, gaps);
    LineFieldsAreFields(lead + Spaced(words, gaps));
    assert (name + ":")[..|name + ":"| - 1] == name;
  }

  // ----- CPU counters -----

  function Formatted(counters: CpuObserver.Counters): seq<string> {
    seq(8, i requires 0 <= i < 8 => Format(counters[i], 10))
  }

  /** The aggregate line, whatever columns and lines follow, is read as its first eight numbers. */
  lemma CountersRoundTrip(counters: CpuObserver.Counters, more: seq<string>, gaps: seq<string>, rest: string)
    requires Line(["cpu"] + Formatted(counters) + more, gaps)
    requires '\n' !in Spaced(["cpu"] + Formatted(counters) + more, gaps)
    requires |Spaced(["cpu"] + Formatted(counters) + more, gaps) + ['\n'] + rest| <= 512
    ensures CpuSampling.AreCounters(Spaced(["cpu"] + Formatted(counters) + more, gaps) + ['\n'] + rest, counters)
  {
    var words := ["cpu"] + Formatted(counters) + more;
    var line := Spaced(words, gaps);
    SplitPiece(line, rest, '\n');
    FieldsOfLine("", words, gaps);
    assert "" + line == line;
    forall i | 0 <= i < 8 ensures ParseUint(words[i + 1], 10, MAX_UINT64) == Some(counters[i]) {
      FormatParses(counters[i], 10, MAX_UINT64);
    }
  }

  // ----- Load -----

  /** The three loads are those of the first three words. */
  lemma LoadText(parseFloat: string -> Option<Float>, lead: string, words: seq<string>, gaps: seq<string>,
      load: LoadObservation)
    requires Gap(lead) && Line(words, gaps) && |words| >= 3 && |lead + Spaced(words, gaps)| <= 256
    ensures Generic.IsLoad(parseFloat, lead + Spaced(words, gaps), load) <==>
              && parseFloat(words[0]) == Some(load.oneMinute) && NonNegative(load.oneMinute)
              && parseFloat(words[1]) == Some(load.fiveMinutes) && NonNegative(load.fiveMinutes)
              && parseFloat(words[2]) == Some(load.fifteenMinutes) && NonNegative(load.fifteenMinutes)
  {
    FieldsOfLine(lead, words, gaps);
  }

  // ----- Signed numbers -----

  /** Signed decimals of 64 bits read back, with or without a sign, and nothing outside that range does. */
  lemma IntRoundTrip(n: nat)
    ensures RaspberryPi.ParseInt64(Format(n, 10)) == (if n < 0x8000_0000_0000_0000 then Some(n) else None)
    ensures RaspberryPi.ParseInt64("+" + Format(n, 10)) == (if n < 0x8000_0000_0000_0000 then Some(n) else None)
    ensures RaspberryPi.ParseInt64("-" + Format(n, 10))
              == (if n <= 0x8000_0000_0000_0000 then Some(-(n as int)) else None)
  {
    FormatValue(n, 10);
    SignedDigits(Format(n, 10));
  }

  /** What a sign before digits means. */
  lemma SignedDigits(s: string)
    requires s != "" && Digits(s, 10)
    ensures var v, limit := Value(s, 10), 0x8000_0000_0000_0000;
      && RaspberryPi.ParseInt64(s) == (if v < limit then Some(v) else None)
      && RaspberryPi.ParseInt64("+" + s) == (if v < limit then Some(v) else None)
      && RaspberryPi.ParseInt64("-" + s) == (if v <= limit then Some(-(v as int)) else None)
  {
    assert DigitValue('+') == 36 && DigitValue('-') == 36;
    assert DigitValue(s[0]) < 10;
    assert ("+" + s)[1..] == s && ("-" + s)[1..] == s;
  }
}
