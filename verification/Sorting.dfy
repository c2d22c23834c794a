/** A stable sort, as the scripts' `sorted` and `list.sort` are. */
module Sorting {

  ghost predicate TotalPreorder<T(!new)>(le: (T, T) -> bool) {
    (forall x, y :: le(x, y) || le(y, x)) &&
    (forall x, y, z :: le(x, y) && le(y, z) ==> le(x, z))
  }

  ghost predicate SortedBy<T>(s: seq<T>, le: (T, T) -> bool) {
    forall i, j :: 0 <= i < j < |s| ==> le(s[i], s[j])
  }

  function Insert<T>(x: T, s: seq<T>, le: (T, T) -> bool): seq<T> {
    if s == [] || le(x, s[0]) then [x] + s else [s[0]] + Insert(x, s[1..], le)
  }

  function Sort<T>(s: seq<T>, le: (T, T) -> bool): seq<T> {
    if s == [] then [] else Insert(s[0], Sort(s[1..], le), le)
  }

  lemma {:induction false} InsertMultiset<T>(x: T, s: seq<T>, le: (T, T) -> bool)
    ensures multiset(Insert(x, s, le)) == multiset{x} + multiset(s)
  {
    if s != [] {
      assert s == [s[0]] + s[1..];
      if !le(x, s[0]) {
        InsertMultiset(x, s[1..], le);
      }
    }
  }

  /** Sorting permutes. */
  lemma {:induction false} SortMultiset<T>(s: seq<T>, le: (T, T) -> bool)
    ensures multiset(Sort(s, le)) == multiset(s)
    ensures |Sort(s, le)| == |s|
  {
    if s != [] {
      SortMultiset(s[1..], le);
      InsertMultiset(s[0], Sort(s[1..], le), le);
      assert s == [s[0]] + s[1..];
    }
    assert |multiset(Sort(s, le))| == |multiset(s)|;
  }

  lemma SortElems<T>(s: seq<T>, le: (T, T) -> bool, x: T)
    ensures x in Sort(s, le) <==> x in s
  {
    SortMultiset(s, le);
    assert x in Sort(s, le) <==> x in multiset(Sort(s, le));
    assert x in s <==> x in multiset(s);
  }

  lemma {:induction false} InsertSorted<T(!new)>(x: T, s: seq<T>, le: (T, T) -> bool)
    requires TotalPreorder(le) && SortedBy(s, le)
    ensures SortedBy(Insert(x, s, le), le)
  {
    if s != [] && !le(x, s[0]) {
      var t := Insert(x, s[1..], le);
      InsertSorted(x, s[1..], le);
      InsertMultiset(x, s[1..], le);
      forall j | 0 <= j < |t|
        ensures le(s[0], t[j])
      {
        assert t[j] in multiset(t);
        assert t[j] == x || t[j] in s[1..];
      }
    }
  }

  /** Sorting sorts. */
  lemma {:induction false} SortSorted<T(!new)>(s: seq<T>, le: (T, T) -> bool)
    requires TotalPreorder(le)
    ensures SortedBy(Sort(s, le), le)
  {
    if s != [] {
      SortSorted(s[1..], le);
      InsertSorted(s[0], Sort(s[1..], le), le);
    }
  }

  /** The entries of s that tie with e, in the order they stand. */
  ghost function Ties<T>(s: seq<T>, e: T, le: (T, T) -> bool): seq<T> {
    if s == [] then []
    else (if le(s[0], e) && le(e, s[0]) then [s[0]] else []) + Ties(s[1..], e, le)
  }

  lemma {:induction false} InsertTies<T(!new)>(x: T, s: seq<T>, e: T, le: (T, T) -> bool)
    requires TotalPreorder(le)
    ensures Ties(Insert(x, s, le), e, le) == Ties([x] + s, e, le)
  {
    assert ([x] + s)[1..] == s;
    if s != [] && !le(x, s[0]) {
      InsertTies(x, s[1..], e, le);
      assert ([x] + s[1..])[1..] == s[1..];
      var t := Insert(x, s[1..], le);
      assert ([s[0]] + t)[1..] == t;
    }
  }

  /** Sorting keeps tied entries in the order it found them. */
  lemma {:induction false} SortStable<T(!new)>(s: seq<T>, e: T, le: (T, T) -> bool)
    requires TotalPreorder(le)
    ensures Ties(Sort(s, le), e, le) == Ties(s, e, le)
  {
    if s != [] {
      var t := Sort(s[1..], le);
      SortStable(s[1..], e, le);
      InsertTies(s[0], t, e, le);
      assert ([s[0]] + t)[1..] == t;
    }
  }

  /** The sum of a weight over a list. */
  function Sum<T>(s: seq<T>, f: T -> nat): nat {
    if s == [] then 0 else f(s[0]) + Sum(s[1..], f)
  }

  lemma {:induction false} InsertSum<T>(x: T, s: seq<T>, le: (T, T) -> bool, f: T -> nat)
    ensures Sum(Insert(x, s, le), f) == f(x) + Sum(s, f)
  {
    if s == [] || le(x, s[0]) {
      assert ([x] + s)[1..] == s;
    } else {
      InsertSum(x, s[1..], le, f);
      var t := Insert(x, s[1..], le);
      assert ([s[0]] + t)[1..] == t;
    }
  }

  lemma {:induction false} SortSum<T>(s: seq<T>, le: (T, T) -> bool, f: T -> nat)
    ensures Sum(Sort(s, le), f) == Sum(s, f)
  {
    if s != [] {
      SortSum(s[1..], le, f);
      InsertSum(s[0], Sort(s[1..], le), le, f);
    }
  }

  lemma {:induction false} SumSnoc<T>(s: seq<T>, x: T, f: T -> nat)
    ensures Sum(s + [x], f) == Sum(s, f) + f(x)
  {
    if s == [] {
      assert s + [x] == [x];
    } else {
      assert (s + [x])[1..] == s[1..] + [x];
      SumSnoc(s[1..], x, f);
    }
  }
}
