/** Facts about bank lists: their elements, taking one entry out, and lists without repeats. */
module BankLists {

  function Elems(q: seq<int>): set<int> {
    set x | x in q
  }

  lemma ElemsCard(q: seq<int>)
    ensures |Elems(q)| <= |q|
  {
    if q != [] {
      ElemsCard(q[1..]);
      assert Elems(q) == {q[0]} + Elems(q[1..]);
    }
  }

  lemma PopElems(q: seq<int>)
    requires q != [] && q[0] !in q[1..]
    ensures Elems(q[1..]) == Elems(q) - {q[0]}
  {
    assert q == [q[0]] + q[1..];
  }

  lemma PushElems(q: seq<int>, r: int)
    ensures Elems(q + [r]) == Elems(q) + {r}
  {
  }

  /** Any element of a nonempty set. */
  lemma Pick<T>(s: set<T>) returns (x: T)
    requires s != {}
    ensures x in s
  {
    x :| x in s;
  }

  lemma SubsetCard<T>(a: set<T>, b: set<T>)
    requires a <= b
    ensures |a| <= |b|
  {
    assert b == a + (b - a);
  }

  lemma SubsetOf(a: set<int>, b: set<int>)
    requires forall x :: x in a ==> x in b
    ensures a <= b
  {
    assert forall x :: x in a ==> x in b;
  }

  lemma SameSet(a: set<int>, b: set<int>)
    requires forall x :: x in a <==> x in b
    ensures a == b
  {
    SubsetOf(a, b);
    SubsetOf(b, a);
  }

  lemma DisjointUnion(a: set<int>, b: set<int>)
    requires forall x :: x in a ==> x !in b
    ensures |a + b| == |a| + |b|
  {
    SubsetOf(a, a - b);
    assert a !! b;
  }

  /** The list with the first occurrence of r taken out. */
  function Without(q: seq<int>, r: int): (t: seq<int>)
    ensures |t| == if r in q then |q| - 1 else |q|
  {
    if q == [] then [] else if q[0] == r then q[1..] else [q[0]] + Without(q[1..], r)
  }

  lemma WithoutElems(q: seq<int>, r: int)
    ensures Elems(Without(q, r)) <= Elems(q)
  {
    if q != [] && q[0] != r {
      var t := Without(q[1..], r);
      WithoutElems(q[1..], r);
      assert Elems([q[0]] + t) == {q[0]} + Elems(t);
      assert Elems(q) == {q[0]} + Elems(q[1..]);
    }
  }

  lemma {:induction false} WithoutSplit(a: seq<int>, b: seq<int>, r: int)
    ensures Without(a + b, r) == if r in a then Without(a, r) + b else a + Without(b, r)
  {
    if a == [] {
      assert a + b == b;
    } else {
      assert (a + b)[1..] == a[1..] + b;
      WithoutSplit(a[1..], b, r);
    }
  }

  ghost predicate Distinct(q: seq<int>) {
    forall i, j :: 0 <= i < j < |q| ==> q[i] != q[j]
  }

  lemma {:induction false} WithoutDistinct(q: seq<int>, r: int)
    requires Distinct(q)
    ensures Elems(Without(q, r)) == Elems(q) - {r} && Distinct(Without(q, r))
  {
    if q != [] {
      var p := q[1..];
      WithoutDistinct(p, r);
      assert q == [q[0]] + p;
      if q[0] != r {
        var t := Without(p, r);
        assert q[0] !in Elems(p);
        assert q[0] !in Elems(t);
        assert Elems([q[0]] + t) == {q[0]} + Elems(t);
      }
    }
  }

  lemma WithoutAbsent(q: seq<int>, r: int)
    requires r !in q
    ensures Without(q, r) == q
  {
  }

  lemma WithoutTop(front: seq<int>, top: seq<int>, r: int) returns (f: seq<int>)
    requires Distinct(front + top)
    ensures Without(front + top, r) == f + Without(top, r)
  {
    WithoutSplit(front, top, r);
    if r in front {
      var i :| 0 <= i < |front| && front[i] == r;
      assert (front + top)[i] == r;
      assert forall j :: 0 <= j < |top| ==> top[j] == (front + top)[|front| + j];
      WithoutAbsent(top, r);
      f := Without(front, r);
    } else {
      f := front;
    }
  }

  lemma {:induction false} DistinctCard(q: seq<int>)
    requires Distinct(q)
    ensures |Elems(q)| == |q|
  {
    if q != [] {
      DistinctCard(q[1..]);
      assert q == [q[0]] + q[1..];
      assert q[0] !in q[1..];
      PopElems(q);
    }
  }
}
