/** When a set of processors determines the signature of its CPU list, and which list is refused as overflowing. */
module CpuListSets {
  import opened Text
  import opened CpuList

  ghost predicate SameCover(r: seq<Range>, s: seq<Range>) {
    forall id :: Covers(r, id) <==> Covers(s, id)
  }

  lemma CoveredIsId(r: seq<Range>, id: int)
    requires Covers(r, id)
    ensures 0 <= id < ALL_IDS && id in Ids(r)
  {
  }

  lemma SameIds(r: seq<Range>, s: seq<Range>)
    ensures Ids(r) == Ids(s) <==> SameCover(r, s)
  {
    if Ids(r) == Ids(s) {
      forall id ensures Covers(r, id) <==> Covers(s, id) {
        if Covers(r, id) {
          CoveredIsId(r, id);
        }
        if Covers(s, id) {
          CoveredIsId(s, id);
        }
      }
    }
  }

  /** Consecutive ranges leave at least one id out between them. */
  ghost predicate Gapped(r: seq<Range>) {
    forall i, j :: 0 <= i < j < |r| ==> r[i].end + 1 < r[j].start
  }

  /** No two neighbouring ids are in the set. */
  ghost predicate Scattered(r: seq<Range>) {
    forall id :: Covers(r, id) ==> !Covers(r, id + 1)
  }

  lemma ScatteredIsGapped(r: seq<Range>)
    requires Ordered(r) && Scattered(r)
    ensures Gapped(r)
  {
    forall i, j | 0 <= i < j < |r| ensures r[i].end + 1 < r[j].start {
      assert Covers(r, r[i].end) && Covers(r, r[j].start);
    }
  }

  // ----- Gapped lists of one set are equal -----

  lemma TailCovers(r: seq<Range>, id: int)
    requires Ordered(r) && r != []
    ensures Covers(r[1..], id) <==> Covers(r, id) && id > r[0].end
  {
    if i :| 0 <= i < |r| && r[i].start <= id <= r[i].end && id > r[0].end {
      assert r[1..][i - 1] == r[i];
    }
    if i :| 0 <= i < |r[1..]| && r[1..][i].start <= id <= r[1..][i].end {
      assert r[1..][i] == r[i + 1];
    }
  }

  lemma FirstIsLeast(r: seq<Range>, id: int)
    requires Ordered(r) && Covers(r, id)
    ensures r != [] && r[0].start <= id && Covers(r, r[0].start)
  {
  }

  /** The first range of a gapped list ends before the first id that is missing. */
  lemma FirstEnds(r: seq<Range>, id: int)
    requires Ordered(r) && Gapped(r) && r != [] && r[0].start <= id <= r[0].end + 1
    ensures Covers(r, id) <==> id <= r[0].end
  {
  }

  lemma SameFirst(r: seq<Range>, s: seq<Range>)
    requires Ordered(r) && Gapped(r) && Ordered(s) && Gapped(s) && SameCover(r, s) && r != []
    ensures s != [] && r[0] == s[0]
  {
    assert Covers(r, r[0].start);
    FirstIsLeast(s, r[0].start);
    FirstIsLeast(r, s[0].start);
    FirstEnds(r, if r[0].end < s[0].end then r[0].end + 1 else s[0].end);
    FirstEnds(s, if s[0].end < r[0].end then s[0].end + 1 else r[0].end);
  }

  lemma SameTails(r: seq<Range>, s: seq<Range>)
    requires Ordered(r) && Ordered(s) && SameCover(r, s) && r != [] && s != [] && r[0] == s[0]
    ensures SameCover(r[1..], s[1..])
  {
    forall id ensures Covers(r[1..], id) <==> Covers(s[1..], id) {
      TailCovers(r, id);
      TailCovers(s, id);
    }
  }

  lemma {:induction false} GappedIsUnique(r: seq<Range>, s: seq<Range>)
    requires Ordered(r) && Gapped(r) && Ordered(s) && Gapped(s) && SameCover(r, s)
    ensures r == s
  {
    if r == [] {
      if s != [] {
        assert Covers(s, s[0].start);
      }
    } else {
      SameFirst(r, s);
      SameTails(r, s);
      GappedIsUnique(r[1..], s[1..]);
      assert r == [r[0]] + r[1..] && s == [s[0]] + s[1..];
    }
  }

  // ----- Every other set has a second list -----

  /** Range `i` written as two, the first of which ends at `id`. */
  function Divided(r: seq<Range>, i: nat, id: uint64): seq<Range>
    requires i < |r| && r[i].start <= id < r[i].end
  {
    r[..i] + [Range(r[i].start, id), Range(id + 1, r[i].end)] + r[i + 1..]
  }

  lemma DividedAt(r: seq<Range>, i: nat, id: uint64, k: nat)
    requires i < |r| && r[i].start <= id < r[i].end && k < |r| + 1
    ensures Divided(r, i, id)[k] ==
              if k < i then r[k] else if k == i then Range(r[i].start, id)
              else if k == i + 1 then Range(id + 1, r[i].end) else r[k - 1]
  {
  }

  lemma DividedIsOrdered(r: seq<Range>, i: nat, id: uint64)
    requires Ordered(r) && i < |r| && r[i].start <= id < r[i].end
    ensures Ordered(Divided(r, i, id))
  {
    var d := Divided(r, i, id);
    forall k, m | 0 <= k < m < |d| ensures d[k].start <= d[k].end < d[m].start <= d[m].end {
      DividedAt(r, i, id, k);
      DividedAt(r, i, id, m);
    }
  }

  lemma DividedCovers(r: seq<Range>, i: nat, id: uint64)
    requires i < |r| && r[i].start <= id < r[i].end
    ensures SameCover(r, Divided(r, i, id))
  {
    var d := Divided(r, i, id);
    forall x ensures Covers(r, x) <==> Covers(d, x) {
      if k :| 0 <= k < |r| && r[k].start <= x <= r[k].end {
        var m := if k < i || (k == i && x <= id) then k else k + 1;
        assert d[m].start <= x <= d[m].end;
      }
      if k :| 0 <= k < |d| && d[k].start <= x <= d[k].end {
        var m := if k <= i then k else k - 1;
        assert r[m].start <= x <= r[m].end;
      }
    }
  }

  /** Two ranges with nothing between them, joined. */
  function JoinedAt(r: seq<Range>, i: nat): seq<Range>
    requires i + 1 < |r|
  {
    r[..i] + [Range(r[i].start, r[i + 1].end)] + r[i + 2..]
  }

  lemma JoinedIsOrdered(r: seq<Range>, i: nat)
    requires Ordered(r) && i + 1 < |r| && r[i].end + 1 == r[i + 1].start
    ensures Ordered(JoinedAt(r, i)) && SameCover(r, JoinedAt(r, i)) && JoinedAt(r, i) != r
  {
    var s := JoinedAt(r, i);
    assert |s| == |r| - 1;
    forall k | 0 <= k < |s|
        ensures s[k] == if k < i then r[k] else if k == i then Range(r[i].start, r[i + 1].end) else r[k + 1] {}
    assert Divided(s, i, r[i].end) == r;
    DividedCovers(s, i, r[i].end);
  }

  lemma NextRange(r: seq<Range>, i: nat)
    requires Ordered(r) && i < |r| && Covers(r, r[i].end + 1)
    ensures i + 1 < |r| && r[i].end + 1 == r[i + 1].start
  {
    var j :| 0 <= j < |r| && r[j].start <= r[i].end + 1 <= r[j].end;
    assert j > i;
    assert r[i].end < r[i + 1].start <= r[i + 1].end;
  }

  /** A set with two neighbouring ids has another list: the range of both divided, or their two ranges joined. */
  lemma SecondList(r: seq<Range>, id: int) returns (s: seq<Range>)
    requires Ordered(r) && Covers(r, id) && Covers(r, id + 1)
    ensures Ordered(s) && SameCover(r, s) && s != r && s != []
  {
    var i :| 0 <= i < |r| && r[i].start <= id <= r[i].end;
    if id < r[i].end {
      s := Divided(r, i, id);
      DividedIsOrdered(r, i, id);
      DividedCovers(r, i, id);
      assert |s| == |r| + 1;
    } else {
      NextRange(r, i);
      s := JoinedAt(r, i);
      JoinedIsOrdered(r, i);
      assert |s| == |r| - 1;
    }
  }

  // ----- Sets and signatures -----

  /** A list in the canonical form: any ranges in order can be written. */
  lemma SignatureDenotes(r: seq<Range>)
    requires Ordered(r) && r != []
    ensures Ranges(Signature(r)) == Some(r)
  {
    SignatureTrimmed(r);
    SignatureParses(r);
  }

  /** Between lists that leave gaps, the set of processors and the signature determine each other. */
  lemma GappedSameIds(data: string, data': string)
    requires Ranges(data).Some? && Ranges(data').Some?
    requires Gapped(Ranges(data).value) && Gapped(Ranges(data').value)
    ensures Ids(Ranges(data).value) == Ids(Ranges(data').value)
       <==> Signature(Ranges(data).value) == Signature(Ranges(data').value)
  {
    var r, s := Ranges(data).value, Ranges(data').value;
    SameIds(r, s);
    if SameCover(r, s) {
      GappedIsUnique(r, s);
    }
    SameSignature(data, data');
  }

  /** Every list of the set that `r` denotes has the signature of `r`. */
  ghost predicate OneSignature(r: seq<Range>) {
    forall data :: Ranges(data).Some? && Ids(Ranges(data).value) == Ids(r) ==>
        Signature(Ranges(data).value) == Signature(r)
  }

  /** A list's set of processors determines the signature exactly if it has no two neighbouring ids. */
  lemma WhenSetDeterminesSignature(data: string)
    requires Ranges(data).Some?
    ensures OneSignature(Ranges(data).value) <==> Scattered(Ranges(data).value)
  {
    var r := Ranges(data).value;
    if Scattered(r) {
      ScatteredIsGapped(r);
      forall data' | Ranges(data').Some? && Ids(Ranges(data').value) == Ids(r)
        ensures Signature(Ranges(data').value) == Signature(r)
      {
        var s := Ranges(data').value;
        SameIds(s, r);
        ScatteredIsGapped(s);
        GappedIsUnique(s, r);
      }
    } else {
      var id :| Covers(r, id) && Covers(r, id + 1);
      var s := SecondList(r, id);
      SameIds(s, r);
      SignatureDenotes(s);
      SameSignature(data, Signature(s));
      assert Ranges(Signature(s)) == Some(s);
    }
  }

  lemma ExampleSignatures()
    ensures Signature([Range(0, 0), Range(1, 1)]) == "0,1" && Signature([Range(0, 1)]) == "0-1"
  {
    var r, s := [Range(0, 0), Range(1, 1)], [Range(0, 1)];
    assert Format(0, 10) == "0" && Format(1, 10) == "1" && "0" + "-" + "1" == "0-1";
    assert FormatRange(r[0]) == "0" && FormatRange(r[1]) == "1" && FormatRange(s[0]) == "0-1";
    assert FormatRanges(r) == ["0", "1"] && FormatRanges(s) == ["0-1"];
    assert ["0", "1"][1..] == ["1"];
  }

  /** The lists 0,1 and 0-1 denote one set and have two signatures. */
  lemma OneSetTwoSignatures()
    ensures Ranges("0,1") == Some([Range(0, 0), Range(1, 1)]) && Ranges("0-1") == Some([Range(0, 1)])
    ensures Ids(Ranges("0,1").value) == Ids(Ranges("0-1").value)
    ensures Signature(Ranges("0,1").value) != Signature(Ranges("0-1").value)
  {
    var r, s := [Range(0, 0), Range(1, 1)], [Range(0, 1)];
    ExampleSignatures();
    SignatureDenotes(r);
    SignatureDenotes(s);
    assert Divided(s, 0, 0) == r;
    DividedCovers(s, 0, 0);
    SameIds(s, r);
  }

  // ----- The list that is refused -----

  function Power10(k: nat): nat {
    if k == 0 then 1 else 10 * Power10(k - 1)
  }

  lemma {:induction false} DecimalLength(n: nat, k: nat)
    requires n < Power10(k) && k > 0
    ensures |Format(n, 10)| <= k
  {
    if n >= 10 {
      DecimalLength(n / 10, k - 1);
    }
  }

  lemma Power10Of20()
    ensures Power10(20) == 100_000_000_000_000_000_000
  {
    assert Power10(5) == 100_000 && Power10(10) == 100_000 * Power10(5);
    assert Power10(15) == 100_000 * Power10(10) && Power10(20) == 100_000 * Power10(15);
  }

  const FULL := [Range(0, MAX_UINT64)]

  lemma FullSignature()
    ensures Signature(FULL) == "0-" + Format(18446744073709551615, 10) && |Signature(FULL)| <= 22
  {
    Power10Of20();
    DecimalLength(MAX_UINT64, 20);
    assert Format(0, 10) == "0" && "0" + "-" == "0-";
    assert FormatRanges(FULL) == [FormatRange(FULL[0])];
  }

  /** The list 0-18446744073709551615 is well formed and within the input limit, and denotes every id. */
  lemma FullListIsFull()
    ensures Ranges(Signature(FULL)) == Some(FULL) && 0 < |Signature(FULL)| <= MAXIMUM_INPUT && Size(FULL) == ALL_IDS
  {
    SignatureDenotes(FULL);
    FullSignature();
    SignatureTrimmed(FULL);
    assert FULL[..0] == [];
  }

  /** So it is refused, because its count does not fit. */
  method ParseFullList() returns (result: Option<Topology>)
    ensures result.None?
  {
    FullListIsFull();
    result := ParseCpuTopology(Signature(FULL));
  }
}
