/**
 Demand schedules over a bank of W slots, and the least number of misses any of them can take.

 A schedule is the list of bank contents after each reference. It may drop sets at any time, but the
 set just referenced is always resident afterwards (no bypass) and nothing is brought in early.
 */
module Schedules {

  /** One reference: from contents S, serving r, to contents S'. */
  ghost predicate Step(W: nat, S: set<int>, r: int, S': set<int>) {
    r in S' && S' <= S + {r} && |S'| <= W
  }

  /** A resident reference is free; any other one is a miss. */
  function Cost(S: set<int>, r: int): nat {
    if r in S then 0 else 1
  }

  ghost predicate Schedule(W: nat, S: set<int>, refs: seq<int>, st: seq<set<int>>)
    decreases |refs|
  {
    |st| == |refs| &&
    (refs != [] ==> Step(W, S, refs[0], st[0]) && Schedule(W, st[0], refs[1..], st[1..]))
  }

  ghost function Misses(S: set<int>, refs: seq<int>, st: seq<set<int>>): nat
    requires |st| == |refs|
    decreases |refs|
  {
    if refs == [] then 0 else Cost(S, refs[0]) + Misses(st[0], refs[1..], st[1..])
  }

  ghost predicate Attains(W: nat, S: set<int>, refs: seq<int>, k: nat) {
    exists st :: Schedule(W, S, refs, st) && Misses(S, refs, st) == k
  }

  ghost predicate Least(W: nat, S: set<int>, refs: seq<int>, k: nat) {
    Attains(W, S, refs, k) && forall j: nat :: j < k ==> !Attains(W, S, refs, j)
  }

  /** Loading each reference alone is a schedule, so with at least one bank there always is one. */
  lemma AttainsSomething(W: nat, S: set<int>, refs: seq<int>) returns (k: nat)
    requires W >= 1
    ensures Attains(W, S, refs, k)
    decreases |refs|
  {
    if refs == [] {
      assert Schedule(W, S, refs, []) && Misses(S, refs, []) == 0;
      k := 0;
    } else {
      var S' := {refs[0]};
      var k' := AttainsSomething(W, S', refs[1..]);
      var st' :| Schedule(W, S', refs[1..], st') && Misses(S', refs[1..], st') == k';
      var st := [S'] + st';
      assert st[1..] == st';
      k := Cost(S, refs[0]) + k';
      assert Schedule(W, S, refs, st) && Misses(S, refs, st) == k;
    }
  }

  lemma LeastBelow(W: nat, S: set<int>, refs: seq<int>, k: nat) returns (l: nat)
    requires Attains(W, S, refs, k)
    ensures Least(W, S, refs, l)
  {
    if j: nat :| j < k && Attains(W, S, refs, j) {
      l := LeastBelow(W, S, refs, j);
    } else {
      l := k;
    }
  }

  lemma LeastExists(W: nat, S: set<int>, refs: seq<int>)
    requires W >= 1
    ensures exists k :: Least(W, S, refs, k)
  {
    var k := AttainsSomething(W, S, refs);
    var l := LeastBelow(W, S, refs, k);
  }

  /** The fewest misses of any demand schedule with W banks that starts from contents S. */
  ghost function Opt(W: nat, S: set<int>, refs: seq<int>): nat
    requires W >= 1
  {
    LeastExists(W, S, refs);
    var k :| Least(W, S, refs, k);
    k
  }

  lemma OptSpec(W: nat, S: set<int>, refs: seq<int>)
    requires W >= 1
    ensures Attains(W, S, refs, Opt(W, S, refs))
    ensures forall st :: Schedule(W, S, refs, st) ==> Opt(W, S, refs) <= Misses(S, refs, st)
  {
    assert forall st :: Schedule(W, S, refs, st) ==> Attains(W, S, refs, Misses(S, refs, st));
  }

  /** Every first move bounds the optimum from above. */
  lemma OptUpper(W: nat, S: set<int>, refs: seq<int>, S': set<int>)
    requires W >= 1 && refs != [] && Step(W, S, refs[0], S')
    ensures Opt(W, S, refs) <= Cost(S, refs[0]) + Opt(W, S', refs[1..])
  {
    OptSpec(W, S, refs);
    OptSpec(W, S', refs[1..]);
    var k := Opt(W, S', refs[1..]);
    var st' :| Schedule(W, S', refs[1..], st') && Misses(S', refs[1..], st') == k;
    var st := [S'] + st';
    assert st[1..] == st';
    assert Schedule(W, S, refs, st);
    assert Misses(S, refs, st) == Cost(S, refs[0]) + k;
  }

  /** Some first move attains it. */
  lemma OptLower(W: nat, S: set<int>, refs: seq<int>) returns (S': set<int>)
    requires W >= 1 && refs != []
    ensures Step(W, S, refs[0], S')
    ensures Opt(W, S, refs) == Cost(S, refs[0]) + Opt(W, S', refs[1..])
  {
    OptSpec(W, S, refs);
    var k := Opt(W, S, refs);
    var st :| Schedule(W, S, refs, st) && Misses(S, refs, st) == k;
    S' := st[0];
    OptUpper(W, S, refs, S');
    OptSpec(W, S', refs[1..]);
    assert Schedule(W, S', refs[1..], st[1..]);
  }

  lemma OptEmpty(W: nat, S: set<int>)
    requires W >= 1
    ensures Opt(W, S, []) == 0
  {
    OptSpec(W, S, []);
    assert Schedule(W, S, [], []);
  }

  /** Holding more never costs more. */
  lemma OptMono(W: nat, S: set<int>, T: set<int>, refs: seq<int>)
    requires W >= 1 && S <= T
    ensures Opt(W, T, refs) <= Opt(W, S, refs)
  {
    if refs == [] {
      OptEmpty(W, T);
    } else {
      var S' := OptLower(W, S, refs);
      OptUpper(W, T, refs, S');
    }
  }

  /** A schedule for W banks is a schedule for more banks. */
  lemma {:induction false} OptMoreBanks(W: nat, V: nat, S: set<int>, refs: seq<int>)
    requires 1 <= W <= V
    ensures Opt(V, S, refs) <= Opt(W, S, refs)
    decreases |refs|
  {
    if refs == [] {
      OptEmpty(V, S);
    } else {
      var S' := OptLower(W, S, refs);
      OptUpper(V, S, refs, S');
      OptMoreBanks(W, V, S', refs[1..]);
    }
  }

  /** Losing one resident set costs at most one miss. */
  lemma {:induction false} OptDrop(W: nat, S: set<int>, b: int, refs: seq<int>)
    requires W >= 1
    ensures Opt(W, S - {b}, refs) <= Opt(W, S, refs) + 1
    decreases |refs|
  {
    if refs == [] {
      OptEmpty(W, S - {b});
    } else {
      var S' := OptLower(W, S, refs);
      if refs[0] == b || b !in S' {
        OptUpper(W, S - {b}, refs, S');
      } else {
        OptUpper(W, S - {b}, refs, S' - {b});
        OptDrop(W, S', b, refs[1..]);
      }
    }
  }

  /** How many references pass before x is next used; all of them if it never is. */
  function NextUse(refs: seq<int>, x: int): (n: nat)
    ensures n <= |refs| && (n < |refs| ==> refs[n] == x)
    ensures forall j :: 0 <= j < n ==> refs[j] != x
  {
    if refs == [] || refs[0] == x then 0 else 1 + NextUse(refs[1..], x)
  }

  /** Belady's exchange: holding the set needed sooner is never worse. */
  lemma {:induction false} Exchange(W: nat, C: set<int>, a: int, b: int, refs: seq<int>)
    requires W >= 1 && a !in C && b !in C && a != b
    requires NextUse(refs, a) <= NextUse(refs, b)
    ensures Opt(W, C + {a}, refs) <= Opt(W, C + {b}, refs)
    decreases |refs|
  {
    if refs == [] {
      OptEmpty(W, C + {a});
    } else {
      var r := refs[0];
      assert r != b;
      var T := OptLower(W, C + {b}, refs);
      if r == a {
        OptUpper(W, C + {a}, refs, T - {b});
        OptDrop(W, T, b, refs[1..]);
      } else if b in T {
        var D := T - {b};
        assert |D + {a}| == |D| + 1 == |T|;
        OptUpper(W, C + {a}, refs, D + {a});
        Exchange(W, D, a, b, refs[1..]);
        assert D + {b} == T;
      } else {
        OptUpper(W, C + {a}, refs, T);
      }
    }
  }

  /** On a hit nothing is gained by moving. */
  lemma OptHit(W: nat, S: set<int>, refs: seq<int>)
    requires W >= 1 && |S| <= W && refs != [] && refs[0] in S
    ensures Opt(W, S, refs) == Opt(W, S, refs[1..])
  {
    OptUpper(W, S, refs, S);
    var S' := OptLower(W, S, refs);
    OptMono(W, S', S, refs[1..]);
  }

  /** On a miss with a bank free nothing is gained by evicting. */
  lemma OptFill(W: nat, S: set<int>, refs: seq<int>)
    requires W >= 1 && |S| < W && refs != [] && refs[0] !in S
    ensures Opt(W, S, refs) == 1 + Opt(W, S + {refs[0]}, refs[1..])
  {
    OptUpper(W, S, refs, S + {refs[0]});
    var S' := OptLower(W, S, refs);
    OptMono(W, S', S + {refs[0]}, refs[1..]);
  }

  /** A miss with every bank taken pushes something out. */
  lemma Evicted(W: nat, S: set<int>, r: int, S': set<int>) returns (e: int)
    requires |S| == W && r !in S && Step(W, S, r, S')
    ensures e in S && e !in S'
  {
    assert !(forall x :: x in S ==> x in S') by {
      assert |S + {r}| == W + 1;
      assert (forall x :: x in S ==> x in S') ==> S' == S + {r};
    }
    e :| e in S && e !in S';
  }

  lemma WithoutEvicted(W: nat, S: set<int>, r: int, S': set<int>, e: int)
    requires Step(W, S, r, S') && e !in S' && e != r
    ensures S' <= S - {e} + {r}
  {
  }

  /** The banks two different evictions have in common. */
  lemma Common(S: set<int>, r: int, e: int, v: int) returns (C: set<int>)
    requires e in S && v in S && e != v && r !in S
    ensures e !in C && v !in C && C + {e} == S - {v} + {r} && C + {v} == S - {e} + {r}
  {
    C := S - {v} - {e} + {r};
  }

  /** On a miss with every bank taken, evicting a set needed farthest in the future is optimal. */
  lemma OptEvict(W: nat, S: set<int>, refs: seq<int>, v: int)
    requires W >= 1 && |S| == W && refs != [] && refs[0] !in S && v in S
    requires forall x :: x in S ==> NextUse(refs[1..], x) <= NextUse(refs[1..], v)
    ensures Opt(W, S, refs) == 1 + Opt(W, S - {v} + {refs[0]}, refs[1..])
  {
    var r, rest := refs[0], refs[1..];
    OptUpper(W, S, refs, S - {v} + {r});
    var S' := OptLower(W, S, refs);
    var e := Evicted(W, S, r, S');
    WithoutEvicted(W, S, r, S', e);
    OptMono(W, S', S - {e} + {r}, rest);
    if e != v {
      var C := Common(S, r, e, v);
      Exchange(W, C, e, v, rest);
    }
  }
}
