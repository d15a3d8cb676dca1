/** The kernel's CPU list, such as "0-3,5": its processor count and canonical signature. */
module CpuList {
  import opened Text

  const MAXIMUM_INPUT: nat := 4096
  const ALL_IDS: nat := 0x1_0000_0000_0000_0000

  datatype Topology = Topology(count: uint64, signature: string)

  datatype Range = Range(start: uint64, end: uint64)

  // ----- What a list denotes -----

  /** One list item: a number, or two numbers in order. */
  function ParseItem(item: string): Option<Range> {
    var bounds := Split(item, '-');
    if |bounds| > 2 then None
    else
      var start := ParseUint(bounds[0], 10, MAX_UINT64);
      if start.None? then None
      else if |bounds| == 1 then Some(Range(start.value, start.value))
      else
        var end := ParseUint(bounds[1], 10, MAX_UINT64);
        if end.None? || end.value < start.value then None else Some(Range(start.value, end.value))
  }

  function ParseItems(items: seq<string>): Option<seq<Range>> {
    if items == [] then Some([])
    else
      var front := ParseItems(items[..|items| - 1]);
      var last := ParseItem(items[|items| - 1]);
      if front.None? || last.None? then None else Some(front.value + [last.value])
  }

  ghost predicate Proper(ranges: seq<Range>) {
    forall i :: 0 <= i < |ranges| ==> ranges[i].start <= ranges[i].end
  }

  /** Strictly increasing, disjoint ranges. */
  ghost predicate Ordered(ranges: seq<Range>) {
    && Proper(ranges)
    && (forall i, j :: 0 <= i < j < |ranges| ==> ranges[i].end < ranges[j].start)
  }

  ghost predicate Covers(ranges: seq<Range>, id: int) {
    exists i :: 0 <= i < |ranges| && ranges[i].start <= id <= ranges[i].end
  }

  /** The processor ids a list of ranges denotes. */
  ghost function Ids(ranges: seq<Range>): set<int> {
    set id | 0 <= id < ALL_IDS && Covers(ranges, id)
  }

  function Size(ranges: seq<Range>): nat
  {
    if ranges == [] then 0 else Size(ranges[..|ranges| - 1]) + Length(ranges[|ranges| - 1])
  }

  /** The number of ids in a proper range. */
  function Length(r: Range): nat {
    if r.start <= r.end then r.end - r.start + 1 else 0
  }

  function FormatRange(r: Range): string {
    if r.start == r.end then Format(r.start, 10) else Format(r.start, 10) + "-" + Format(r.end, 10)
  }

  function FormatRanges(ranges: seq<Range>): seq<string> {
    seq(|ranges|, i requires 0 <= i < |ranges| => FormatRange(ranges[i]))
  }

  function Signature(ranges: seq<Range>): string {
    Join(FormatRanges(ranges), ',')
  }

  /** The ranges of a well-formed, ordered list, however long its input. */
  ghost function Ranges(data: string): Option<seq<Range>> {
    var text := TrimSpace(data);
    if text == "" then None
    else
      var ranges := ParseItems(Split(text, ','));
      if ranges.None? || !Ordered(ranges.value) then None else ranges
  }

  // ----- Sizes and sets -----

  lemma {:induction false} IntervalSize(lo: int, hi: int) returns (s: set<int>)
    requires 0 <= lo <= hi + 1
    ensures forall id :: id in s <==> lo <= id <= hi
    ensures |s| == hi - lo + 1
    decreases hi - lo + 1
  {
    if lo == hi + 1 {
      s := {};
    } else {
      var t := IntervalSize(lo, hi - 1);
      s := t + {hi};
    }
  }

  lemma CoversStep(ranges: seq<Range>, id: int)
    requires ranges != []
    ensures var n := |ranges| - 1; Covers(ranges, id) <==>
              Covers(ranges[..n], id) || ranges[n].start <= id <= ranges[n].end
  {
    var n := |ranges| - 1;
    var front := ranges[..n];
    if i :| 0 <= i < |ranges| && ranges[i].start <= id <= ranges[i].end {
      assert i < n ==> front[i] == ranges[i];
    }
    if i :| 0 <= i < |front| && front[i].start <= id <= front[i].end {
      assert front[i] == ranges[i];
    }
  }

  lemma {:induction false} SizeIsCardinality(ranges: seq<Range>)
    requires Ordered(ranges)
    ensures |Ids(ranges)| == Size(ranges)
  {
    if ranges == [] {
      assert Ids(ranges) == {};
    } else {
      var n := |ranges| - 1;
      SizeIsCardinality(ranges[..n]);
      var s := IntervalSize(ranges[n].start, ranges[n].end);
      IdsStep(ranges, s);
    }
  }

  lemma IdsStep(ranges: seq<Range>, s: set<int>)
    requires Ordered(ranges) && ranges != []
    requires var last := ranges[|ranges| - 1]; forall id :: id in s <==> last.start <= id <= last.end
    ensures Ids(ranges) == Ids(ranges[..|ranges| - 1]) + s && Ids(ranges[..|ranges| - 1]) !! s
  {
    var front := ranges[..|ranges| - 1];
    forall id ensures id in Ids(ranges) <==> id in Ids(front) || id in s {
      CoversStep(ranges, id);
    }
  }

  /** Ordered ranges never hold more than all 2^64 ids, and they hold that many only if they cover every id. */
  lemma {:induction false} SizeBound(ranges: seq<Range>)
    requires Ordered(ranges)
    ensures ranges != [] ==> Size(ranges) <= ranges[|ranges| - 1].end + 1
    ensures Size(ranges) == ALL_IDS <==> forall id :: 0 <= id < ALL_IDS ==> Covers(ranges, id)
  {
    SizeAtMostEnd(ranges);
    SizeIsCardinality(ranges);
    var all := IntervalSize(0, MAX_UINT64);
    assert Ids(ranges) <= all;
    if Size(ranges) == ALL_IDS {
      SubsetOfSameSize(Ids(ranges), all);
      forall id | 0 <= id < ALL_IDS ensures Covers(ranges, id) {
        assert id in all;
      }
    }
    if forall id :: 0 <= id < ALL_IDS ==> Covers(ranges, id) {
      forall id ensures id in Ids(ranges) <==> id in all {}
      assert Ids(ranges) == all;
    }
  }

  lemma {:induction false} SizeAtMostEnd(ranges: seq<Range>)
    requires Ordered(ranges)
    ensures ranges != [] ==> Size(ranges) <= ranges[|ranges| - 1].end + 1
  {
    if |ranges| > 1 {
      var n := |ranges| - 1;
      SizeAtMostEnd(ranges[..n]);
      assert ranges[n - 1].end < ranges[n].start;
    } else if |ranges| == 1 {
      assert ranges[..0] == [];
    }
  }

  lemma SubsetOfSameSize(a: set<int>, b: set<int>)
    requires a <= b && |a| == |b|
    ensures a == b
  {
    assert b == a + (b - a);
  }

  // ----- Prefixes of a list -----

  lemma {:induction false} ParsedLength(items: seq<string>)
    requires ParseItems(items).Some?
    ensures |ParseItems(items).value| == |items|
  {
    if items != [] {
      ParsedLength(items[..|items| - 1]);
    }
  }

  lemma {:induction false} PrefixParses(items: seq<string>, k: nat)
    requires k <= |items|
    ensures var all := ParseItems(items); all.Some? ==>
              |all.value| == |items| && ParseItems(items[..k]) == Some(all.value[..k])
    decreases |items|
  {
    if ParseItems(items).Some? {
      ParsedLength(items);
      var ranges := ParseItems(items).value;
      if k < |items| {
        var n := |items| - 1;
        PrefixParses(items[..n], k);
        assert items[..n][..k] == items[..k];
        assert ranges[..n] == ParseItems(items[..n]).value;
        assert ranges[..n][..k] == ranges[..k];
      } else {
        assert items[..k] == items && ranges[..k] == ranges;
      }
    }
  }

  lemma ItemParses(items: seq<string>, k: nat)
    requires k < |items|
    ensures var all := ParseItems(items); all.Some? ==>
              |all.value| == |items| && ParseItem(items[k]) == Some(all.value[k])
  {
    PrefixParses(items, k);
    PrefixParses(items, k + 1);
    assert items[..k + 1][..k] == items[..k];
  }

  lemma {:induction false} PrefixSize(ranges: seq<Range>, k: nat)
    requires k <= |ranges|
    ensures Size(ranges[..k]) <= Size(ranges)
    decreases |ranges|
  {
    if k < |ranges| {
      var n := |ranges| - 1;
      PrefixSize(ranges[..n], k);
      assert ranges[..n][..k] == ranges[..k];
    } else {
      assert ranges[..k] == ranges;
    }
  }

  /** The items denote an ordered list of fewer than 2^64 ids. */
  ghost predicate Countable(items: seq<string>) {
    var p := ParseItems(items);
    p.Some? && Ordered(p.value) && Size(p.value) < ALL_IDS
  }

  lemma OrderedPrefix(ranges: seq<Range>, k: nat)
    requires k <= |ranges| && Ordered(ranges)
    ensures Ordered(ranges[..k])
  {
  }

  /** A list whose first items do not parse, are not ordered or are too many stays so when it goes on. */
  lemma CountablePrefix(items: seq<string>, k: nat)
    requires k <= |items| && Countable(items)
    ensures Countable(items[..k])
  {
    PrefixParses(items, k);
    OrderedPrefix(ParseItems(items).value, k);
    PrefixSize(ParseItems(items).value, k);
  }

  // ----- The parser -----

  /** What the loop has established after some items. */
  ghost predicate Scanned(items: seq<string>, ranges: seq<Range>, count: nat, previous: nat, canonical: seq<string>) {
    && ParseItems(items) == Some(ranges) && |ranges| == |items| && Ordered(ranges)
    && count == Size(ranges) < ALL_IDS
    && (ranges != [] ==> previous == ranges[|ranges| - 1].end)
    && canonical == FormatRanges(ranges)
  }

  lemma AppendParses(items: seq<string>, item: string)
    ensures ParseItems(items + [item])
         == if ParseItems(items).None? || ParseItem(item).None? then None
             else Some(ParseItems(items).value + [ParseItem(item).value])
    ensures ParseItem(item).Some? ==> ParseItem(item).value.start <= ParseItem(item).value.end
  {
    assert (items + [item])[..|items|] == items;
  }

  lemma AppendSize(ranges: seq<Range>, r: Range)
    ensures Size(ranges + [r]) == Size(ranges) + Length(r)
    ensures FormatRanges(ranges + [r]) == FormatRanges(ranges) + [FormatRange(r)]
  {
    assert (ranges + [r])[..|ranges|] == ranges;
  }

  /** What the next item must be for the list to stay countable. */
  predicate Continues(item: string, first: bool, previous: nat, count: nat) {
    var r := ParseItem(item);
    r.Some? && (first || previous < r.value.start) && count + Length(r.value) < ALL_IDS
  }

  lemma CountableStep(items: seq<string>, item: string, ranges: seq<Range>, count: nat, previous: nat,
      canonical: seq<string>)
    requires Scanned(items, ranges, count, previous, canonical)
    ensures Countable(items + [item]) <==> Continues(item, items == [], previous, count)
  {
    AppendParses(items, item);
    if ParseItem(item).Some? {
      OrderedStep(ranges, ParseItem(item).value);
      AppendSize(ranges, ParseItem(item).value);
    }
  }

  lemma ScannedStep(items: seq<string>, item: string, ranges: seq<Range>, count: nat, previous: nat,
      canonical: seq<string>)
    requires Scanned(items, ranges, count, previous, canonical) && Continues(item, items == [], previous, count)
    ensures var r := ParseItem(item).value;
      Scanned(items + [item], ranges + [r], count + Length(r), r.end, canonical + [FormatRange(r)])
  {
    var r := ParseItem(item).value;
    AppendParses(items, item);
    OrderedStep(ranges, r);
    AppendSize(ranges, r);
    assert (ranges + [r])[|ranges|] == r;
  }

  lemma OrderedStep(ranges: seq<Range>, r: Range)
    requires Ordered(ranges) && r.start <= r.end
    ensures Ordered(ranges + [r]) <==> ranges == [] || ranges[|ranges| - 1].end < r.start
  {
    var longer := ranges + [r];
    if ranges != [] {
      var n := |ranges|;
      assert longer[n - 1] == ranges[n - 1] && longer[n] == r;
      if ranges[n - 1].end < r.start {
        forall i, j | 0 <= i < j < |longer| ensures longer[i].end < longer[j].start {
          if j == n && i < n - 1 {
            assert ranges[i].end < ranges[n - 1].start <= ranges[n - 1].end;
          }
        }
      }
    }
  }

  /** Accepts a list exactly if it is of a permitted size, well formed, ordered, and does not hold all 2^64 ids. */
  method ParseCpuTopology(data: string) returns (result: Option<Topology>)
    ensures result.Some? <==> 0 < |data| <= MAXIMUM_INPUT && Ranges(data).Some? && Size(Ranges(data).value) < ALL_IDS
    ensures result.Some? ==> result.value == Topology(Size(Ranges(data).value), Signature(Ranges(data).value))
  {
    if |data| == 0 || |data| > MAXIMUM_INPUT {
      return None;
    }
    var text := TrimSpace(data);
    if text == "" {
      return None;
    }
    var items := Split(text, ',');
    var accepted, count, canonical := ScanItems(items);
    if !accepted {
      return None;
    }
    return Some(Topology(count, Join(canonical, ',')));
  }

  lemma RefusedPrefix(items: seq<string>, k: nat)
    requires k <= |items|
    ensures !Countable(items[..k]) ==> !Countable(items)
  {
    if Countable(items) {
      CountablePrefix(items, k);
    }
  }

  /** The guards on the wrapping 64-bit length and count refuse exactly what would reach 2^64. */
  lemma WrapsOnlyWhenFull(r: Range, count: nat)
    requires r.start <= r.end && count < ALL_IDS
    ensures var length := (r.end - r.start + 1) % ALL_IDS;
      length == 0 || count > MAX_UINT64 - length <==> count + Length(r) >= ALL_IDS
  {
    assert 1 <= Length(r) <= ALL_IDS;
    if Length(r) < ALL_IDS {
      assert Length(r) % ALL_IDS == Length(r);
    }
  }

  /** The checks on one item. */
  method ScanItem(item: string, first: bool, previous: nat, count: nat) returns (range: Option<Range>)
    requires count < ALL_IDS
    ensures range == if Continues(item, first, previous, count) then ParseItem(item) else None
  {
    range := ParseItem(item);
    if range.None? {
      return;
    }
    var start, end := range.value.start, range.value.end;
    if !first && start <= previous {
      return None;
    }
    WrapsOnlyWhenFull(range.value, count);
    var length := (end - start + 1) % ALL_IDS;
    if length == 0 || count > MAX_UINT64 - length {
      return None;
    }
  }

  /** The loop over the items. */
  method ScanItems(items: seq<string>) returns (accepted: bool, count: nat, canonical: seq<string>)
    requires items != []
    ensures accepted <==> Countable(items)
    ensures accepted ==> count == Size(ParseItems(items).value) && canonical == FormatRanges(ParseItems(items).value)
  {
    count, canonical := 0, [];
    var previous: nat := 0;
    ghost var ranges: seq<Range> := [];
    for index := 0 to |items|
      invariant Scanned(items[..index], ranges, count, previous, canonical)
      invariant index > 0 ==> count > 0
    {
      assert items[..index + 1] == items[..index] + [items[index]];
      CountableStep(items[..index], items[index], ranges, count, previous, canonical);
      RefusedPrefix(items, index + 1);
      var range := ScanItem(items[index], index == 0, previous, count);
      if range.None? {
        return false, count, canonical;
      }
      AppendParses([], items[index]);
      ScannedStep(items[..index], items[index], ranges, count, previous, canonical);
      count := count + Length(range.value);
      previous := range.value.end;
      canonical := canonical + [FormatRange(range.value)];
      ranges := ranges + [range.value];
    }
    assert items[..|items|] == items;
    accepted := count != 0;
  }

  // ----- Meaning of the result -----

  /** The count is the number of ids the list denotes; a well-formed, ordered list of permitted size is refused
      only if it denotes all 2^64 ids. */
  lemma CountIsCardinality(data: string)
    requires Ranges(data).Some?
    ensures Size(Ranges(data).value) == |Ids(Ranges(data).value)| > 0
    ensures Size(Ranges(data).value) < ALL_IDS <==> exists id :: 0 <= id < ALL_IDS && !Covers(Ranges(data).value, id)
  {
    var ranges := Ranges(data).value;
    SizeIsCardinality(ranges);
    SizeBound(ranges);
    SizeAtMostEnd(ranges);
    var items := Split(TrimSpace(data), ',');
    ParsedLength(items);
    assert ranges != [];
    assert 0 <= ranges[0].start < ALL_IDS && Covers(ranges, ranges[0].start);
    assert ranges[0].start in Ids(ranges);
  }

  // ----- Round trip -----

  lemma DigitsHave(s: string, c: char)
    requires Digits(s, 10) && (c == '-' || c == ',')
    ensures c !in s
  {
  }

  lemma FormatRangeParses(r: Range)
    requires r.start <= r.end
    ensures ParseItem(FormatRange(r)) == Some(r)
    ensures ',' !in FormatRange(r)
    ensures var f := FormatRange(r); f != "" && DigitValue(f[0]) < 10 && DigitValue(f[|f| - 1]) < 10
  {
    FormatParses(r.start, 10, MAX_UINT64);
    FormatParses(r.end, 10, MAX_UINT64);
    FormatValue(r.start, 10);
    FormatValue(r.end, 10);
    BoundsParse(Format(r.start, 10), Format(r.end, 10), r);
  }

  lemma BoundsParse(a: string, b: string, r: Range)
    requires Digits(a, 10) && Digits(b, 10) && a != "" && b != "" && r.start <= r.end
    requires ParseUint(a, 10, MAX_UINT64) == Some(r.start) && ParseUint(b, 10, MAX_UINT64) == Some(r.end)
    ensures ParseItem(a + "-" + b) == Some(r) && (r.start == r.end ==> ParseItem(a) == Some(r))
    ensures ',' !in a && ',' !in a + "-" + b
  {
    DigitsHave(a, '-');
    DigitsHave(b, '-');
    DigitsHave(a, ',');
    DigitsHave(b, ',');
    SplitTwo(a, b, '-');
    SplitPiece(a, "", '-');
  }

  lemma ItemLength(item: string)
    requires ParseItem(item).Some?
    ensures |FormatRange(ParseItem(item).value)| <= |item|
  {
    var bounds := Split(item, '-');
    JoinSplit(item, '-');
    FormatShortest(bounds[0], 10);
    if |bounds| == 2 {
      FormatShortest(bounds[1], 10);
      assert bounds[1..] == [bounds[1]];
    }
  }

  lemma {:induction false} FormatRangesShortest(items: seq<string>)
    requires items != [] && ParseItems(items).Some?
    ensures |Join(FormatRanges(ParseItems(items).value), ',')| <= |Join(items, ',')|
  {
    ParsedLength(items);
    var formatted := FormatRanges(ParseItems(items).value);
    forall i | 0 <= i < |items| ensures |formatted[i]| <= |items[i]| {
      ItemParses(items, i);
      ItemLength(items[i]);
    }
    JoinShorter(formatted, items, ',');
  }

  lemma {:induction false} JoinShorter(a: seq<string>, b: seq<string>, sep: char)
    requires |a| == |b| && forall i :: 0 <= i < |a| ==> |a[i]| <= |b[i]|
    ensures |Join(a, sep)| <= |Join(b, sep)|
  {
    if |a| > 1 {
      JoinShorter(a[1..], b[1..], sep);
    }
  }

  lemma {:induction false} FormattedParse(ranges: seq<Range>)
    requires Proper(ranges)
    ensures ParseItems(FormatRanges(ranges)) == Some(ranges)
  {
    if ranges == [] {
      assert FormatRanges(ranges) == [];
    } else {
      var n := |ranges| - 1;
      FormattedParse(ranges[..n]);
      FormatAppend(ranges[..n], ranges[n]);
      assert ranges == ranges[..n] + [ranges[n]];
    }
  }

  lemma FormatAppend(front: seq<Range>, r: Range)
    requires ParseItems(FormatRanges(front)) == Some(front) && r.start <= r.end
    ensures ParseItems(FormatRanges(front + [r])) == Some(front + [r])
  {
    FormatRangeParses(r);
    AppendParses(FormatRanges(front), FormatRange(r));
    assert FormatRanges(front + [r]) == FormatRanges(front) + [FormatRange(r)];
  }

  lemma {:induction false} JoinEnds(parts: seq<string>, sep: char)
    requires parts != [] && forall p :: p in parts ==> p != "" && DigitValue(p[0]) < 10 && DigitValue(p[|p| - 1]) < 10
    ensures var j := Join(parts, sep); j != "" && DigitValue(j[0]) < 10 && DigitValue(j[|j| - 1]) < 10
  {
    if |parts| > 1 {
      JoinEnds(parts[1..], sep);
    }
    assert parts[0] in parts;
  }

  lemma SignatureTrimmed(ranges: seq<Range>)
    requires ranges != [] && Proper(ranges)
    ensures Signature(ranges) != "" && TrimSpace(Signature(ranges)) == Signature(ranges)
  {
    var signature := Signature(ranges);
    forall p | p in FormatRanges(ranges) ensures p != "" && DigitValue(p[0]) < 10 && DigitValue(p[|p| - 1]) < 10 {
      var i :| 0 <= i < |ranges| && FormatRanges(ranges)[i] == p;
      FormatRangeParses(ranges[i]);
    }
    JoinEnds(FormatRanges(ranges), ',');
    TrimSurrounded("", signature, "");
    assert "" + signature + "" == signature;
  }

  lemma SignatureParses(ranges: seq<Range>)
    requires ranges != [] && Proper(ranges)
    ensures ParseItems(Split(Signature(ranges), ',')) == Some(ranges)
  {
    forall p | p in FormatRanges(ranges) ensures ',' !in p {
      var i :| 0 <= i < |ranges| && FormatRanges(ranges)[i] == p;
      FormatRangeParses(ranges[i]);
    }
    SplitJoin(FormatRanges(ranges), ',');
    FormattedParse(ranges);
  }

  lemma SignatureShortest(data: string)
    requires Ranges(data).Some?
    ensures |Signature(Ranges(data).value)| <= |data|
  {
    var text := TrimSpace(data);
    FormatRangesShortest(Split(text, ','));
    JoinSplit(text, ',');
    TrimNoLonger(data);
    TrimNoLonger(TrimLeft(data));
  }

  /** Parsing a signature again yields the same ranges, so the same count and signature; and it is no longer
      than the list it was made from, so it stays within the input limit. */
  lemma SignatureRoundTrip(data: string)
    requires Ranges(data).Some?
    ensures var ranges := Ranges(data).value;
      Ranges(Signature(ranges)) == Some(ranges) && 0 < |Signature(ranges)| <= |data|
  {
    var ranges := Ranges(data).value;
    ParsedLength(Split(TrimSpace(data), ','));
    SignatureTrimmed(ranges);
    SignatureParses(ranges);
    SignatureShortest(data);
  }

  /** Lists with the same signature denote the same processors. */
  lemma SameSignature(data: string, data': string)
    requires Ranges(data).Some? && Ranges(data').Some?
    ensures Signature(Ranges(data).value) == Signature(Ranges(data').value) ==>
              Ranges(data) == Ranges(data') && Ids(Ranges(data).value) == Ids(Ranges(data').value)
  {
    SignatureRoundTrip(data);
    SignatureRoundTrip(data');
  }
}
