/** Exact miss counts of pinning on a cyclic stream. */
module PinOnCycle {
  import opened Arithmetic
  import opened BankLists
  import opened Options
  import opened TileStream
  import opened CyclicMisses
  import opened Pinning

  /** References before position n to sets that are not pinned. */
  ghost function Unpinned(P: nat, pinned: set<int>, n: nat): nat
    requires P >= 1
  {
    if n == 0 then 0 else Unpinned(P, pinned, n - 1) + (if (n - 1) % P in pinned then 0 else 1)
  }

  lemma {:induction false} UnpinnedNextTurn(P: nat, pinned: set<int>, n: nat)
    requires P >= 1
    ensures Unpinned(P, pinned, n + P) == Unpinned(P, pinned, n) + Unpinned(P, pinned, P)
  {
    if n > 0 {
      UnpinnedNextTurn(P, pinned, n - 1);
      NextTurn(n - 1, P);
      assert n + P - 1 == n - 1 + P;
    }
  }

  lemma {:induction false} UnpinnedTurns(P: nat, pinned: set<int>, b: nat)
    requires P >= 1
    ensures b * P >= 0 && Unpinned(P, pinned, b * P) == b * Unpinned(P, pinned, P)
  {
    if b > 0 {
      UnpinnedTurns(P, pinned, b - 1);
      UnpinnedNextTurn(P, pinned, (b - 1) * P);
      MulSucc(b, P);
      MulSucc(b, Unpinned(P, pinned, P));
    }
  }

  ghost function Below(pinned: set<int>, i: nat): set<int> {
    set x | x in pinned && x < i
  }

  ghost predicate AreIds(P: nat, pinned: set<int>) {
    forall x :: x in pinned ==> 0 <= x < P
  }

  lemma BelowStep(pinned: set<int>, i: nat)
    ensures Below(pinned, i + 1) == if i in pinned then Below(pinned, i) + {i} else Below(pinned, i)
    ensures |pinned - Below(pinned, i)| == |pinned - Below(pinned, i + 1)| + (if i in pinned then 1 else 0)
  {
    if i in pinned {
      assert pinned - Below(pinned, i) == (pinned - Below(pinned, i + 1)) + {i};
    }
  }

  lemma {:induction false} UnpinnedFirstTurn(P: nat, pinned: set<int>, i: nat)
    requires P >= 1 && i <= P
    ensures Unpinned(P, pinned, i) + |Below(pinned, i)| == i + |Below(pinned, 0)|
  {
    if i > 0 {
      UnpinnedFirstTurn(P, pinned, i - 1);
      BelowStep(pinned, i - 1);
      ModShift(0, P, i - 1);
    }
  }

  ghost predicate PinnedAt(P: nat, pinned: set<int>, j: int)
    requires P >= 1
  {
    j % P in pinned
  }

  /** v is the last position before i of an unpinned reference. */
  ghost predicate LastUnpinned(P: nat, pinned: set<int>, i: nat, v: nat)
    requires P >= 1
  {
    v < i && !PinnedAt(P, pinned, v) && forall j :: v < j < i ==> PinnedAt(P, pinned, j)
  }

  /** The victim bank holds the last unpinned reference. */
  ghost predicate VictimAt(P: nat, pinned: set<int>, i: nat, victim: Option<int>)
    requires P >= 1
  {
    victim.Some? ==> exists v: nat :: LastUnpinned(P, pinned, i, v) && v % P == victim.value
  }

  /** x is the only set that is not pinned. */
  ghost predicate OnlyLeft(P: nat, pinned: set<int>, x: int) {
    0 <= x < P && x !in pinned && forall y :: 0 <= y < P && y !in pinned ==> y == x
  }

  lemma Residue(v: nat, P: nat, y: int) returns (j: nat)
    requires P >= 1 && 0 <= y < P && y != v % P
    ensures v < j < v + P && j % P == y
  {
    var q, x := v / P, v % P;
    if y > x {
      j := v + (y - x);
      ModShift(q, P, y);
      assert j == q * P + y;
    } else {
      j := v + P - (x - y);
      ModShift(q + 1, P, y);
      MulSucc(q + 1, P);
      assert j == (q + 1) * P + y;
    }
  }

  /** A victim is referenced again before any other unpinned set only if there is no other. */
  lemma VictimRepeats(P: nat, pinned: set<int>, i: nat, v: nat)
    requires P >= 1 && LastUnpinned(P, pinned, i, v) && v % P == i % P
    ensures OnlyLeft(P, pinned, v % P)
  {
    assert v + P <= i by {
      if i < v + P {
        WithinTurn(v, i, P);
      }
    }
    forall y | 0 <= y < P && y != v % P
      ensures y in pinned
    {
      var j := Residue(v, P, y);
      assert PinnedAt(P, pinned, j);
    }
  }

  lemma VictimDiffers(P: nat, pinned: set<int>, i: nat, victim: Option<int>)
    requires P >= 1 && VictimAt(P, pinned, i, victim) && victim == Some(i % P)
    ensures OnlyLeft(P, pinned, i % P)
  {
    var v: nat :| LastUnpinned(P, pinned, i, v) && v % P == victim.value;
    VictimRepeats(P, pinned, i, v);
  }

  lemma VictimStep(P: nat, pinned: set<int>, i: nat, victim: Option<int>)
    requires P >= 1 && VictimAt(P, pinned, i, victim)
    ensures VictimAt(P, pinned, i + 1, if PinnedAt(P, pinned, i) then victim else Some(i % P))
  {
    if PinnedAt(P, pinned, i) {
      if victim.Some? {
        var v: nat :| LastUnpinned(P, pinned, i, v) && v % P == victim.value;
        assert LastUnpinned(P, pinned, i + 1, v);
      }
    } else {
      assert LastUnpinned(P, pinned, i + 1, i);
    }
  }

  /** The pinned sets seen before position i are the pinned ids below i. */
  lemma SeenStep(P: nat, pinned: set<int>, i: nat)
    requires P >= 1 && AreIds(P, pinned)
    ensures
      var r, left := i % P, |pinned - Below(pinned, i)| - |pinned - Below(pinned, i + 1)|;
      if r in pinned
      then Below(pinned, i + 1) == Below(pinned, i) + {r} && left == if r in Below(pinned, i) then 0 else 1
      else Below(pinned, i + 1) == Below(pinned, i) && left == 0
  {
    BelowStep(pinned, i);
    if i < P {
      ModShift(0, P, i);
    } else {
      assert Below(pinned, i) == pinned;
    }
  }

  /** From position i on: every unpinned reference misses, and each pinned set not yet seen once. */
  lemma {:induction false} PinFrom(refs: seq<int>, P: nat, n: nat, pinned: set<int>, i: nat, victim: Option<int>)
    requires P >= 1 && Cyclic(refs, P, n) && P <= n && i <= n && AreIds(P, pinned)
    requires (forall x :: !OnlyLeft(P, pinned, x)) && VictimAt(P, pinned, i, victim)
    ensures PinMisses(pinned, Below(pinned, i), victim, refs[i..])
         == Unpinned(P, pinned, n) - Unpinned(P, pinned, i) + |pinned - Below(pinned, i)|
    decreases n - i
  {
    if i == n {
      assert pinned - Below(pinned, i) == {};
    } else {
      var r := i % P;
      assert refs[i..][0] == r && refs[i..][1..] == refs[i + 1..];
      SeenStep(P, pinned, i);
      VictimStep(P, pinned, i, victim);
      if r in pinned {
        PinFrom(refs, P, n, pinned, i + 1, victim);
      } else {
        if victim == Some(r) {
          VictimDiffers(P, pinned, i, victim);
        }
        PinFrom(refs, P, n, pinned, i + 1, Some(r));
      }
    }
  }

  /** Pinning p of the P sets, the rest not a single one: a turn of misses, then all but p each turn. */
  lemma PinClosedForm(refs: seq<int>, P: nat, batch: nat, pinned: set<int>)
    requires P >= 1 && Cyclic(refs, P, batch * P) && batch >= 1 && AreIds(P, pinned)
    requires P - |pinned| != 1
    ensures PinMisses(pinned, {}, None, refs) == batch * P - (batch - 1) * |pinned|
  {
    forall x
      ensures !OnlyLeft(P, pinned, x)
    {
      if OnlyLeft(P, pinned, x) {
        OnlyLeftCard(P, pinned, x);
      }
    }
    TurnsLeft(batch, P);
    assert Below(pinned, 0) == {} && refs[0..] == refs;
    PinFrom(refs, P, batch * P, pinned, 0, None);
    assert pinned - {} == pinned;
    UnpinnedTurns(P, pinned, batch);
    UnpinnedFirstTurn(P, pinned, P);
    assert Below(pinned, P) == pinned;
    PinArithmetic(batch, P, |pinned|, Unpinned(P, pinned, P));
  }

  lemma PinArithmetic(b: nat, P: nat, p: nat, u: nat)
    requires u + p == P
    ensures b * u + p == b * P - (b - 1) * p
  {
    assert b * P == b * u + b * p;
    MulSucc(b, p);
  }

  lemma AllIds(P: nat) returns (all: set<int>)
    ensures |all| == P && forall x :: x in all <==> 0 <= x < P
  {
    RangeFacts(0, P);
    all := Range(0, P);
  }

  lemma OnlyLeftCard(P: nat, pinned: set<int>, x: int)
    requires AreIds(P, pinned) && OnlyLeft(P, pinned, x)
    ensures P - |pinned| == 1
  {
    var all := AllIds(P);
    SameSet(all, pinned + {x});
  }

  lemma OnlyLeftExists(P: nat, pinned: set<int>) returns (x: int)
    requires AreIds(P, pinned) && P - |pinned| == 1
    ensures OnlyLeft(P, pinned, x)
  {
    var all := AllIds(P);
    var rest := all - pinned;
    SameSet(all, rest + pinned);
    x := Pick(rest);
    assert |rest - {x}| == 0;
    assert forall y :: y in rest ==> y == x || y in rest - {x};
  }

  /** Everything but x pinned: after at most one load of each, nothing misses any more. */
  lemma {:induction false} PinOneLeftUpper(pinned: set<int>, seen: set<int>, victim: Option<int>, x: int, refs: seq<int>)
    requires seen <= pinned && forall r :: r in refs ==> r in pinned || r == x
    ensures PinMisses(pinned, seen, victim, refs) <= |pinned - seen| + if victim == Some(x) then 0 else 1
    decreases |refs|
  {
    if refs != [] {
      var r := refs[0];
      if r in pinned {
        PinOneLeftUpper(pinned, seen + {r}, victim, x, refs[1..]);
        if r in seen {
          assert seen + {r} == seen;
        } else {
          assert pinned - seen == (pinned - (seen + {r})) + {r};
        }
      } else {
        PinOneLeftUpper(pinned, seen, Some(r), x, refs[1..]);
      }
    }
  }

  /** With a single set left over, the victim bank holds it and the whole network is resident. */
  lemma PinOneLeft(refs: seq<int>, P: nat, n: nat, pinned: set<int>)
    requires P >= 1 && Cyclic(refs, P, n) && P <= n && AreIds(P, pinned) && P - |pinned| == 1
    ensures PinMisses(pinned, {}, None, refs) == P
  {
    var x := OnlyLeftExists(P, pinned);
    forall i | 0 <= i < n
      ensures refs[i] in pinned || refs[i] == x
    {
      assert 0 <= i % P < P;
    }
    PinOneLeftUpper(pinned, {}, None, x, refs);
    assert pinned - {} == pinned;
    PinIsSchedule(|pinned|, pinned, {}, None, refs);
    EveryIdIsLoaded(|pinned| + 1, {}, refs);
    CyclicElems(refs, P, n);
    assert Elems(refs) - {} == Elems(refs);
  }
}
