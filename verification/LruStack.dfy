/**
 LRU is a stack policy: with any number of banks it holds the top of one recency list that does not
 depend on the number of banks.
 */
module LruStack {
  import opened BankLists
  import opened Policies

  /** The last W entries, or all of them. */
  function Keep(q: seq<int>, W: nat): (t: seq<int>)
    ensures |t| == if |q| <= W then |q| else W
  {
    if |q| <= W then q else q[|q| - W..]
  }

  /** Every id referenced so far, by last use. */
  ghost function Recency(refs: seq<int>): seq<int> {
    if refs == [] then []
    else var n := |refs| - 1; Without(Recency(refs[..n]), refs[n]) + [refs[n]]
  }

  /** LRU's bank list after the references. */
  function LruBanks(W: nat, refs: seq<int>): seq<int> {
    if refs == [] then [] else var n := |refs| - 1; LruStep(W, LruBanks(W, refs[..n]), refs[n])
  }

  /** The distinct ids referenced after the last use of x. */
  ghost function SinceLastUse(refs: seq<int>, x: int): set<int>
    requires x in refs
  {
    var n := |refs| - 1;
    if refs[n] == x then {}
    else
      assert refs == refs[..n] + [refs[n]];
      {refs[n]} + SinceLastUse(refs[..n], x)
  }

  lemma TouchDistinct(q: seq<int>, r: int)
    requires Distinct(q)
    ensures Distinct(Without(q, r) + [r])
    ensures Elems(Without(q, r) + [r]) == Elems(q) + {r}
  {
    WithoutDistinct(q, r);
    PushElems(Without(q, r), r);
    assert r !in Elems(Without(q, r));
  }

  lemma {:induction false} RecencyDistinct(refs: seq<int>)
    ensures Distinct(Recency(refs)) && Elems(Recency(refs)) == Elems(refs)
  {
    if refs != [] {
      var n := |refs| - 1;
      RecencyDistinct(refs[..n]);
      TouchDistinct(Recency(refs[..n]), refs[n]);
      assert refs == refs[..n] + [refs[n]];
      PushElems(refs[..n], refs[n]);
    }
  }

  lemma KeepConcat(a: seq<int>, b: seq<int>, W: nat)
    requires |b| >= W || a == []
    ensures Keep(a + b, W) == Keep(b, W)
  {
    assert a == [] ==> a + b == b;
  }

  lemma StepWithin(W: nat, q: seq<int>, r: int)
    requires |q| <= W
    ensures LruStep(W, q, r) == Keep(Without(q, r) + [r], W)
  {
    if r !in q {
      WithoutAbsent(q, r);
    }
  }

  lemma StepOnTop(front: seq<int>, top: seq<int>, r: int)
    requires Distinct(front + top)
    ensures LruStep(|top|, top, r) == Keep(Without(front + top, r) + [r], |top|)
  {
    StepWithin(|top|, top, r);
    var f := WithoutTop(front, top, r);
    var t := Without(top, r) + [r];
    KeepConcat(f, t, |top|);
    assert (f + Without(top, r)) + [r] == f + t;
  }

  /** One LRU step on the top W of a recency list gives the top W of the updated list. */
  lemma KeepStep(W: nat, q: seq<int>, r: int)
    requires Distinct(q)
    ensures LruStep(W, Keep(q, W), r) == Keep(Without(q, r) + [r], W)
  {
    if |q| <= W {
      StepWithin(W, q, r);
    } else {
      var k := |q| - W;
      assert q == q[..k] + q[k..];
      StepOnTop(q[..k], q[k..], r);
    }
  }

  /** LRU with W banks holds exactly the W most recently used ids, oldest first. */
  lemma {:induction false} LruIsTopOfStack(W: nat, refs: seq<int>)
    ensures LruBanks(W, refs) == Keep(Recency(refs), W)
  {
    if refs != [] {
      var n := |refs| - 1;
      LruIsTopOfStack(W, refs[..n]);
      RecencyDistinct(refs[..n]);
      KeepStep(W, Recency(refs[..n]), refs[n]);
    }
  }

  /** Inclusion: after any references, the W-bank list is a suffix of the V-bank list for V >= W. */
  lemma LruInclusion(W: nat, V: nat, refs: seq<int>)
    requires W <= V
    ensures LruBanks(W, refs) == Keep(LruBanks(V, refs), W)
  {
    LruIsTopOfStack(W, refs);
    LruIsTopOfStack(V, refs);
    KeepKeep(Recency(refs), W, V);
  }

  // ---- stack distance ----

  /** What stands after x in the list. */
  ghost function After(q: seq<int>, x: int): seq<int> {
    if q == [] then [] else if q[0] == x then q[1..] else After(q[1..], x)
  }

  lemma {:induction false} AfterSnoc(q: seq<int>, r: int, x: int)
    requires x in q
    ensures After(q + [r], x) == After(q, x) + [r]
  {
    assert (q + [r])[1..] == q[1..] + [r];
    if q[0] != x {
      AfterSnoc(q[1..], r, x);
    }
  }

  lemma {:induction false} AfterWithout(q: seq<int>, r: int, x: int)
    requires Distinct(q) && x in q && x != r
    ensures x in Without(q, r) && Elems(After(Without(q, r), x)) == Elems(After(q, x)) - {r}
  {
    var p := q[1..];
    assert q == [q[0]] + p;
    if q[0] == x {
      WithoutDistinct(p, r);
      assert ([x] + Without(p, r))[1..] == Without(p, r);
    } else if q[0] == r {
      AfterSubset(p, x, r);
    } else {
      AfterWithout(p, r, x);
      assert ([q[0]] + Without(p, r))[1..] == Without(p, r);
    }
  }

  lemma AfterSubset(q: seq<int>, x: int, r: int)
    requires r !in q
    ensures r !in After(q, x)
  {
  }

  /** The ids above x in the recency list are those referenced since its last use. */
  lemma {:induction false} AboveIsSinceLastUse(refs: seq<int>, x: int)
    requires x in refs
    ensures Elems(After(Recency(refs), x)) == SinceLastUse(refs, x)
  {
    var n := |refs| - 1;
    var q, r := Recency(refs[..n]), refs[n];
    RecencyDistinct(refs[..n]);
    var t := Without(q, r);
    if x == r {
      WithoutDistinct(q, r);
      assert x !in Elems(t);
      AfterFresh(t, x);
    } else {
      assert refs == refs[..n] + [r];
      assert x in Elems(refs[..n]);
      AboveIsSinceLastUse(refs[..n], x);
      AfterWithout(q, r, x);
      AfterSnoc(t, r, x);
      PushElems(After(t, x), r);
    }
  }

  lemma {:induction false} AfterFresh(q: seq<int>, x: int)
    requires x !in q
    ensures After(q + [x], x) == []
  {
    if q != [] {
      assert (q + [x])[1..] == q[1..] + [x];
      AfterFresh(q[1..], x);
    }
  }

  /** An entry is among the top W exactly when fewer than W stand after it. */
  lemma {:induction false} KeepIffShallow(q: seq<int>, x: int, W: nat)
    requires Distinct(q) && x in q
    ensures x in Keep(q, W) <==> |Elems(After(q, x))| < W
  {
    var p := q[1..];
    assert q == [q[0]] + p;
    if q[0] == x {
      DistinctCard(p);
    } else {
      KeepIffShallow(p, x, W);
      if |q| > W {
        assert q[|q| - W..] == p[|p| - W..] == Keep(p, W);
      }
    }
  }

  /** A reference to x hits exactly when fewer than W distinct ids were used since its last use. */
  lemma LruHitIff(W: nat, refs: seq<int>, x: int)
    ensures x in LruBanks(W, refs) <==> x in refs && |SinceLastUse(refs, x)| < W
  {
    LruIsTopOfStack(W, refs);
    RecencyDistinct(refs);
    var q := Recency(refs);
    assert x in q <==> x in Elems(q);
    assert x in refs <==> x in Elems(refs);
    if x in refs {
      AboveIsSinceLastUse(refs, x);
      KeepIffShallow(q, x, W);
    }
  }

  // ---- misses ----

  /** First uses, and reuses with at least W distinct ids in between. */
  ghost function FarUses(W: nat, refs: seq<int>): nat {
    if refs == [] then 0
    else
      var n := |refs| - 1;
      var past, r := refs[..n], refs[n];
      FarUses(W, past) + (if r in past && |SinceLastUse(past, r)| < W then 0 else 1)
  }

  lemma {:induction false} FarUsesFrom(W: nat, past: seq<int>, rest: seq<int>)
    ensures FarUses(W, past) + LruMisses(W, LruBanks(W, past), rest) == FarUses(W, past + rest)
    decreases |rest|
  {
    if rest == [] {
      assert past + rest == past;
    } else {
      var r, now := rest[0], past + [rest[0]];
      LruHitIff(W, past, r);
      assert now[..|past|] == past;
      assert past + rest == now + rest[1..];
      FarUsesFrom(W, now, rest[1..]);
    }
  }

  /** LRU's misses read off the stream alone: every use but the near reuses. */
  lemma LruMissesExact(W: nat, refs: seq<int>)
    ensures LruMisses(W, [], refs) == FarUses(W, refs)
  {
    FarUsesFrom(W, [], refs);
    assert [] + refs == refs;
  }

  lemma KeepKeep(q: seq<int>, W: nat, V: nat)
    requires W <= V
    ensures Keep(q, W) == Keep(Keep(q, V), W)
  {
  }

  lemma KeepSubset(q: seq<int>, W: nat, r: int)
    requires r in Keep(q, W)
    ensures r in q
  {
  }

  lemma {:induction false} MoreBanksFrom(W: nat, V: nat, q: seq<int>, refs: seq<int>)
    requires W <= V && Distinct(q)
    ensures LruMisses(V, Keep(q, V), refs) <= LruMisses(W, Keep(q, W), refs)
    decreases |refs|
  {
    if refs != [] {
      var r := refs[0];
      KeepStep(W, q, r);
      KeepStep(V, q, r);
      TouchDistinct(q, r);
      KeepKeep(q, W, V);
      if r in Keep(q, W) {
        KeepSubset(Keep(q, V), W, r);
      }
      MoreBanksFrom(W, V, Without(q, r) + [r], refs[1..]);
    }
  }

  /** LRU never takes more misses for having more banks. */
  lemma LruMoreBanks(W: nat, V: nat, refs: seq<int>)
    requires W <= V
    ensures LruMisses(V, [], refs) <= LruMisses(W, [], refs)
  {
    MoreBanksFrom(W, V, [], refs);
  }
}
