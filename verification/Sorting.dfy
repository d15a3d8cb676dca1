/** Sorting by a strict order, as `sort.Slice` does, on lists whose elements the order tells apart. */
module Sorting {

  ghost predicate StrictOrder<T(!new)>(less: (T, T) -> bool) {
    && (forall x :: !less(x, x))
    && (forall x, y, z :: less(x, y) && less(y, z) ==> less(x, z))
  }

  ghost predicate Comparable<T(!new)>(s: seq<T>, less: (T, T) -> bool) {
    forall i, j :: 0 <= i < j < |s| ==> less(s[i], s[j]) || less(s[j], s[i])
  }

  ghost predicate Sorted<T(!new)>(s: seq<T>, less: (T, T) -> bool) {
    forall i, j :: 0 <= i < j < |s| ==> less(s[i], s[j])
  }

  ghost function Elements<T>(s: seq<T>): set<T> {
    set x | x in s
  }

  lemma ElementsAppend<T>(s: seq<T>, x: T)
    ensures Elements(s + [x]) == Elements(s) + {x}
  {
  }

  function Insert<T>(s: seq<T>, x: T, less: (T, T) -> bool): seq<T> {
    if s == [] then [x]
    else if less(s[0], x) then [s[0]] + Insert(s[1..], x, less)
    else [x] + s
  }

  function Sort<T>(s: seq<T>, less: (T, T) -> bool): seq<T> {
    if s == [] then [] else Insert(Sort(s[1..], less), s[0], less)
  }

  lemma ConsSorts<T(!new)>(x: T, s: seq<T>, less: (T, T) -> bool)
    requires Sorted(s, less) && forall y :: y in s ==> less(x, y)
    ensures Sorted([x] + s, less)
  {
  }

  lemma {:induction false} InsertSorts<T(!new)>(s: seq<T>, x: T, less: (T, T) -> bool)
    requires StrictOrder(less) && Sorted(s, less) && forall y :: y in s ==> less(x, y) || less(y, x)
    ensures Sorted(Insert(s, x, less), less) && multiset(Insert(s, x, less)) == multiset(s) + multiset{x}
  {
    if s != [] {
      assert s == [s[0]] + s[1..];
      if less(s[0], x) {
        var rest := Insert(s[1..], x, less);
        InsertSorts(s[1..], x, less);
        forall y | y in rest ensures less(s[0], y) {
          assert y in multiset(rest);
        }
        ConsSorts(s[0], rest, less);
      } else {
        ConsSorts(x, s, less);
      }
    }
  }

  /** Sorting yields a sorted permutation. */
  lemma {:induction false} SortSorts<T(!new)>(s: seq<T>, less: (T, T) -> bool)
    requires StrictOrder(less) && Comparable(s, less)
    ensures Sorted(Sort(s, less), less) && multiset(Sort(s, less)) == multiset(s)
  {
    if s != [] {
      assert s == [s[0]] + s[1..];
      SortSorts(s[1..], less);
      forall y | y in Sort(s[1..], less) ensures less(s[0], y) || less(y, s[0]) {
        assert y in multiset(s[1..]);
      }
      InsertSorts(Sort(s[1..], less), s[0], less);
    }
  }

  lemma SortKeepsElements<T(!new)>(s: seq<T>, less: (T, T) -> bool)
    requires StrictOrder(less) && Comparable(s, less)
    ensures Elements(Sort(s, less)) == Elements(s) && |Sort(s, less)| == |s|
  {
    SortSorts(s, less);
    assert forall x :: x in Sort(s, less) <==> x in multiset(Sort(s, less));
    assert forall x :: x in s <==> x in multiset(s);
    assert |multiset(s)| == |s| && |multiset(Sort(s, less))| == |Sort(s, less)|;
  }

  lemma SortedHasNoRepeats<T(!new)>(s: seq<T>, less: (T, T) -> bool)
    requires StrictOrder(less) && Sorted(s, less)
    ensures forall i, j :: 0 <= i < j < |s| ==> s[i] != s[j]
  {
  }

  /** A set has at most one sorted listing. */
  lemma {:induction false} SortedIsUnique<T(!new)>(s: seq<T>, t: seq<T>, less: (T, T) -> bool)
    requires StrictOrder(less) && Sorted(s, less) && Sorted(t, less) && forall x :: x in s <==> x in t
    ensures s == t
  {
    assert s != [] ==> s[0] in t;
    assert t != [] ==> t[0] in s;
    if s != [] {
      var p :| 0 <= p < |t| && t[p] == s[0];
      var q :| 0 <= q < |s| && s[q] == t[0];
      assert p == 0 || q == 0;
      assert s == [s[0]] + s[1..] && t == [t[0]] + t[1..];
      forall x ensures x in s[1..] <==> x in t[1..] {
        assert x in s[1..] <==> x in s && x != s[0];
        assert x in t[1..] <==> x in t && x != t[0];
      }
      SortedIsUnique(s[1..], t[1..], less);
    }
  }
}
