/**
 The replacement policies of the weight banks: LRU, FIFO and Belady's MIN.

 LRU and FIFO are given as functions of the bank list, and the loops are proved against them. MIN is
 proved against the optimum itself, whichever of several farthest sets it happens to evict.
 */
module Policies {
  import opened Schedules
  import opened BankLists
  import opened Options

  /** Load r at the back; past W banks the front goes. */
  function Push(W: nat, q: seq<int>, r: int): (t: seq<int>)
    ensures |q| <= W ==> |t| <= W
  {
    if |q| + 1 > W then (q + [r])[1..] else q + [r]
  }

  /** The least recently used set is in front; a reference moves its set to the back. */
  function LruStep(W: nat, q: seq<int>, r: int): (t: seq<int>)
    ensures |q| <= W ==> |t| <= W
  {
    if r in q then Without(q, r) + [r] else Push(W, q, r)
  }

  function LruMisses(W: nat, q: seq<int>, refs: seq<int>): nat
    decreases |refs|
  {
    if refs == [] then 0
    else (if refs[0] in q then 0 else 1) + LruMisses(W, LruStep(W, q, refs[0]), refs[1..])
  }

  /** The set loaded first is in front; a hit changes nothing. */
  function FifoStep(W: nat, q: seq<int>, r: int): (t: seq<int>)
    ensures |q| <= W ==> |t| <= W
  {
    if r in q then q else Push(W, q, r)
  }

  function FifoMisses(W: nat, q: seq<int>, refs: seq<int>): nat
    decreases |refs|
  {
    if refs == [] then 0
    else (if refs[0] in q then 0 else 1) + FifoMisses(W, FifoStep(W, q, refs[0]), refs[1..])
  }

  method MissesLru(refs: seq<int>, W: nat) returns (m: nat)
    ensures m == LruMisses(W, [], refs)
  {
    var banks := [];
    m := 0;
    for i := 0 to |refs|
      invariant m + LruMisses(W, banks, refs[i..]) == LruMisses(W, [], refs)
    {
      var r := refs[i];
      assert refs[i..][1..] == refs[i + 1..];
      if r in banks {
        banks := Without(banks, r);
        banks := banks + [r];
        continue;
      }
      m := m + 1;
      banks := banks + [r];
      if |banks| > W {
        banks := banks[1..];
      }
    }
  }

  method MissesFifo(refs: seq<int>, W: nat) returns (m: nat)
    ensures m == FifoMisses(W, [], refs)
  {
    var banks: seq<int> := [];
    var held: set<int> := {};
    m := 0;
    for i := 0 to |refs|
      invariant held == Elems(banks)
      invariant Distinct(banks)
      invariant m + FifoMisses(W, banks, refs[i..]) == FifoMisses(W, [], refs)
    {
      var r := refs[i];
      assert refs[i..][1..] == refs[i + 1..];
      if r in held {
        continue;
      }
      m := m + 1;
      banks := banks + [r];
      held := held + {r};
      if |banks| > W {
        PopElems(banks);
        held := held - {banks[0]};
        banks := banks[1..];
      }
    }
  }

  // ---- Belady's MIN ----

  /** lst holds the positions below n at which x is used, in order. */
  ghost predicate Positions(refs: seq<int>, n: nat, x: int, lst: seq<nat>)
    requires n <= |refs|
  {
    (forall k :: 0 <= k < |lst| ==> lst[k] < n && refs[lst[k]] == x) &&
    (forall j, k :: 0 <= j < k < |lst| ==> lst[j] < lst[k]) &&
    (forall i :: 0 <= i < n && refs[i] == x ==> i in lst)
  }

  /** The positions below n at which x is used, in order. */
  ghost function Uses(refs: seq<int>, n: nat, x: int): seq<nat>
    requires n <= |refs|
  {
    if n == 0 then [] else Uses(refs, n - 1, x) + (if refs[n - 1] == x then [n - 1] else [])
  }

  lemma {:induction false} UsesPositions(refs: seq<int>, n: nat, x: int)
    requires n <= |refs|
    ensures Positions(refs, n, x, Uses(refs, n, x))
  {
    if n > 0 {
      var lst := Uses(refs, n - 1, x);
      UsesPositions(refs, n - 1, x);
      if refs[n - 1] == x {
        PositionsSnoc(refs, n - 1, x, lst);
      } else {
        PositionsSkip(refs, n - 1, x, lst);
        assert Uses(refs, n, x) == lst;
      }
    }
  }

  lemma {:induction false} UsesNone(refs: seq<int>, n: nat, x: int)
    requires n <= |refs| && forall i :: 0 <= i < n ==> refs[i] != x
    ensures Uses(refs, n, x) == []
  {
    if n > 0 {
      UsesNone(refs, n - 1, x);
    }
  }

  ghost predicate Indexed(refs: seq<int>, n: nat, nxt: map<int, seq<nat>>)
    requires n <= |refs|
  {
    Covers(refs, n, nxt) && forall x :: x in nxt ==> nxt[x] == Uses(refs, n, x)
  }

  ghost predicate Covers(refs: seq<int>, n: nat, nxt: map<int, seq<nat>>)
    requires n <= |refs|
  {
    forall i :: 0 <= i < n ==> refs[i] in nxt
  }

  /** pos[x] counts the uses of x before position n: it splits x's list at n. */
  ghost predicate Counts(n: nat, nxt: map<int, seq<nat>>, pos: map<int, nat>) {
    nxt.Keys == pos.Keys &&
    forall x :: x in nxt ==> SplitsAt(n, nxt[x], pos[x])
  }

  ghost predicate SplitsAt(n: nat, lst: seq<nat>, p: nat) {
    p <= |lst| &&
    (forall k :: 0 <= k < p ==> lst[k] < n) &&
    (forall k :: p <= k < |lst| ==> n <= lst[k])
  }

  /** The key MIN maximises; a set never used again has the key `never`. */
  function NextUseKey(nxt: map<int, seq<nat>>, pos: map<int, nat>, never: nat, x: int): nat
    requires x in nxt && x in pos
  {
    if pos[x] < |nxt[x]| then nxt[x][pos[x]] else never
  }

  lemma NextUseUnique(refs: seq<int>, x: int, n: nat)
    requires n <= |refs| && (n < |refs| ==> refs[n] == x)
    requires forall j :: 0 <= j < n ==> refs[j] != x
    ensures NextUse(refs, x) == n
  {
  }

  /** The bookkeeping reads off the true next use, which is never in the past. */
  lemma KeyIsNextUse(refs: seq<int>, n: nat, nxt: map<int, seq<nat>>, pos: map<int, nat>, x: int)
    requires n <= |refs| && Indexed(refs, |refs|, nxt) && Counts(n, nxt, pos) && x in nxt
    ensures NextUseKey(nxt, pos, |refs|, x) == n + NextUse(refs[n..], x)
  {
    var lst, p := nxt[x], pos[x];
    UsesPositions(refs, |refs|, x);
    assert SplitsAt(n, lst, p);
    var k := NextUseKey(nxt, pos, |refs|, x);
    forall j | n <= j < k
      ensures refs[j] != x
    {
    }
    NextUseUnique(refs[n..], x, k - n);
  }

  lemma CountsStart(nxt: map<int, seq<nat>>)
    ensures Counts(0, nxt, map x | x in nxt :: 0)
  {
    assert forall x :: x in nxt ==> SplitsAt(0, nxt[x], 0);
  }

  /** Serving position i moves r's counter past it and leaves the others right. */
  lemma CountsAdvance(refs: seq<int>, i: nat, nxt: map<int, seq<nat>>, pos: map<int, nat>)
    requires i < |refs| && Indexed(refs, |refs|, nxt) && Counts(i, nxt, pos)
    ensures refs[i] in pos && Counts(i + 1, nxt, pos[refs[i] := pos[refs[i]] + 1])
  {
    var r := refs[i];
    assert SplitsAt(i, nxt[r], pos[r]);
    var lst, p := nxt[r], pos[r];
    UsesPositions(refs, |refs|, r);
    SplitAdvance(refs, i, r, lst, p);
    var pos' := pos[r := p + 1];
    forall x | x in nxt
      ensures SplitsAt(i + 1, nxt[x], pos'[x])
    {
      UsesPositions(refs, |refs|, x);
      assert SplitsAt(i, nxt[x], pos[x]);
      if x != r {
        SplitAdvance(refs, i, x, nxt[x], pos[x]);
      }
    }
  }

  lemma SplitAdvance(refs: seq<int>, i: nat, x: int, lst: seq<nat>, p: nat)
    requires i < |refs| && Positions(refs, |refs|, x, lst) && SplitsAt(i, lst, p)
    ensures SplitsAt(i + 1, lst, if refs[i] == x then p + 1 else p)
  {
    if refs[i] == x {
      assert i in lst;
      var k :| 0 <= k < |lst| && lst[k] == i;
      assert p <= k;
      assert i <= lst[p];
    }
  }

  lemma PositionsSnoc(refs: seq<int>, n: nat, x: int, lst: seq<nat>)
    requires n < |refs| && Positions(refs, n, x, lst) && refs[n] == x
    ensures Positions(refs, n + 1, x, lst + [n])
  {
    var t := lst + [n];
    assert t[|lst|] == n;
    assert forall k :: 0 <= k < |lst| ==> t[k] == lst[k];
    forall i | 0 <= i < n && refs[i] == x
      ensures i in t
    {
      assert i in lst;
    }
  }

  lemma PositionsSkip(refs: seq<int>, n: nat, x: int, lst: seq<nat>)
    requires n < |refs| && Positions(refs, n, x, lst) && refs[n] != x
    ensures Positions(refs, n + 1, x, lst)
  {
  }

  lemma IndexedSnoc(refs: seq<int>, n: nat, nxt: map<int, seq<nat>>)
    requires n < |refs| && Indexed(refs, n, nxt)
    ensures
      var r := refs[n];
      Indexed(refs, n + 1, nxt[r := (if r in nxt then nxt[r] else []) + [n]])
  {
    var r := refs[n];
    if r !in nxt {
      UsesNone(refs, n, r);
    }
    assert Uses(refs, n + 1, r) == (if r in nxt then nxt[r] else []) + [n];
    assert forall x :: x in nxt && x != r ==> Uses(refs, n + 1, x) == nxt[x];
  }

  /** One pass collecting every set's positions. */
  method IndexUses(refs: seq<int>) returns (nxt: map<int, seq<nat>>)
    ensures Indexed(refs, |refs|, nxt)
  {
    nxt := map[];
    for i := 0 to |refs|
      invariant Indexed(refs, i, nxt)
    {
      var r := refs[i];
      IndexedSnoc(refs, i, nxt);
      nxt := nxt[r := (if r in nxt then nxt[r] else []) + [i]];
    }
  }

  ghost predicate Farthest(held: set<int>, nxt: map<int, seq<nat>>, pos: map<int, nat>, never: nat, v: int)
    requires held <= nxt.Keys && nxt.Keys == pos.Keys
  {
    v in held && forall x :: x in held ==> NextUseKey(nxt, pos, never, x) <= NextUseKey(nxt, pos, never, v)
  }

  /** A set with the largest key; which one, where several share it, is left open. */
  method ChooseVictim(held: set<int>, nxt: map<int, seq<nat>>, pos: map<int, nat>, never: nat) returns (v: int)
    requires held != {} && held <= nxt.Keys && nxt.Keys == pos.Keys
    ensures Farthest(held, nxt, pos, never, v)
  {
    ghost var p := Pick(held);
    assert exists x :: x in held by { assert p in held; }
    v :| v in held;
    var left := held - {v};
    while left != {}
      invariant left <= held && v in held
      invariant forall x :: x in held && x !in left ==> NextUseKey(nxt, pos, never, x) <= NextUseKey(nxt, pos, never, v)
      decreases left
    {
      ghost var p := Pick(left);
      assert exists x :: x in left by { assert p in left; }
      var x :| x in left;
      left := left - {x};
      if NextUseKey(nxt, pos, never, x) > NextUseKey(nxt, pos, never, v) {
        v := x;
      }
    }
  }

  lemma HitAt(refs: seq<int>, i: nat, W: nat, held: set<int>)
    requires i < |refs| && W >= 1 && |held| <= W && refs[i] in held
    ensures Opt(W, held, refs[i..]) == Opt(W, held, refs[i + 1..])
  {
    assert refs[i..][1..] == refs[i + 1..];
    OptHit(W, held, refs[i..]);
  }

  lemma FillAt(refs: seq<int>, i: nat, W: nat, held: set<int>)
    requires i < |refs| && W >= 1 && |held| < W && refs[i] !in held
    ensures Opt(W, held, refs[i..]) == 1 + Opt(W, held + {refs[i]}, refs[i + 1..])
  {
    assert refs[i..][1..] == refs[i + 1..];
    OptFill(W, held, refs[i..]);
  }

  /** In the bookkeeping's terms, the eviction MIN makes is the one OptEvict calls for. */
  lemma FarthestIsOptimal(refs: seq<int>, i: nat, W: nat, held: set<int>, nxt: map<int, seq<nat>>, pos: map<int, nat>, v: int)
    requires i < |refs| && Indexed(refs, |refs|, nxt) && Counts(i + 1, nxt, pos)
    requires W >= 1 && |held| == W && held <= nxt.Keys && refs[i] !in held
    requires Farthest(held, nxt, pos, |refs|, v)
    ensures NextUseKey(nxt, pos, |refs|, v) > i
    ensures Opt(W, held, refs[i..]) == 1 + Opt(W, held - {v} + {refs[i]}, refs[i + 1..])
  {
    var left := refs[i..];
    assert left[1..] == refs[i + 1..];
    forall x | x in held
      ensures NextUseKey(nxt, pos, |refs|, x) == i + 1 + NextUse(left[1..], x)
    {
      KeyIsNextUse(refs, i + 1, nxt, pos, x);
    }
    OptEvict(W, held, left, v);
  }

  method CountUse(refs: seq<int>, i: nat, nxt: map<int, seq<nat>>, pos: map<int, nat>) returns (pos': map<int, nat>)
    requires i < |refs| && Indexed(refs, |refs|, nxt) && Counts(i, nxt, pos)
    ensures Counts(i + 1, nxt, pos') && refs[i] in nxt
  {
    CountsAdvance(refs, i, nxt, pos);
    pos' := pos[refs[i] := pos[refs[i]] + 1];
  }

  /** A miss on the set used at position i: load it, evicting the farthest set if every bank is taken. */
  method Admit(refs: seq<int>, i: nat, W: nat, nxt: map<int, seq<nat>>, pos: map<int, nat>, held: set<int>)
    returns (held': set<int>)
    requires i < |refs| && Indexed(refs, |refs|, nxt) && Counts(i + 1, nxt, pos)
    requires W >= 1 && |held| <= W && held <= nxt.Keys && refs[i] !in held
    ensures held' <= held + {refs[i]} && |held'| <= W
    ensures Opt(W, held, refs[i..]) == 1 + Opt(W, held', refs[i + 1..])
  {
    held' := held;
    if |held| < W {
      FillAt(refs, i, W, held);
      held' := held + {refs[i]};
    } else {
      var victim := ChooseVictim(held, nxt, pos, |refs|);
      FarthestIsOptimal(refs, i, W, held, nxt, pos, victim);
      if NextUseKey(nxt, pos, |refs|, victim) > i {
        held' := held' - {victim};
        held' := held' + {refs[i]};
      }
    }
  }

  /**
   Belady's MIN takes exactly as many misses as the best demand schedule. With no bank there is
   nothing to evict, and the first reference fails.
   */
  method MissesMin(refs: seq<int>, W: nat) returns (res: Option<nat>)
    ensures res.None? <==> W == 0 && refs != []
    ensures res.Some? && W >= 1 ==> res.value == Opt(W, {}, refs)
    ensures res.Some? && W == 0 ==> res.value == 0
  {
    if W == 0 {  // the first reference would look for a victim among no sets
      return if refs == [] then Some(0) else None;
    }
    var nxt := IndexUses(refs);
    var pos: map<int, nat> := map x | x in nxt :: 0;
    CountsStart(nxt);
    var held: set<int> := {};
    var m := 0;
    for i := 0 to |refs|
      invariant Counts(i, nxt, pos) && held <= nxt.Keys && |held| <= W
      invariant m + Opt(W, held, refs[i..]) == Opt(W, {}, refs)
    {
      pos := CountUse(refs, i, nxt, pos);
      if refs[i] in held {
        HitAt(refs, i, W, held);
      } else {
        m := m + 1;
        held := Admit(refs, i, W, nxt, pos, held);
      }
    }
    OptEmpty(W, held);
    return Some(m);
  }

  // ---- LRU and FIFO are demand schedules ----

  lemma {:induction false} MinBoundsLru(W: nat, q: seq<int>, refs: seq<int>)
    requires W >= 1 && |q| <= W
    ensures Opt(W, Elems(q), refs) <= LruMisses(W, q, refs)
    decreases |refs|
  {
    if refs == [] {
      OptEmpty(W, Elems(q));
    } else {
      var t := LruStep(W, q, refs[0]);
      ElemsCard(t);
      LruStepElems(W, q, refs[0]);
      OptUpper(W, Elems(q), refs, Elems(t));
      MinBoundsLru(W, t, refs[1..]);
    }
  }

  lemma LruStepElems(W: nat, q: seq<int>, r: int)
    requires W >= 1
    ensures r in Elems(LruStep(W, q, r))
    ensures Elems(LruStep(W, q, r)) <= Elems(q) + {r}
  {
    var t := LruStep(W, q, r);
    assert t[|t| - 1] == r;
    WithoutElems(q, r);
  }

  lemma {:induction false} MinBoundsFifo(W: nat, q: seq<int>, refs: seq<int>)
    requires W >= 1 && |q| <= W
    ensures Opt(W, Elems(q), refs) <= FifoMisses(W, q, refs)
    decreases |refs|
  {
    if refs == [] {
      OptEmpty(W, Elems(q));
    } else {
      var t := FifoStep(W, q, refs[0]);
      ElemsCard(t);
      assert refs[0] !in q ==> t[|t| - 1] == refs[0];
      OptUpper(W, Elems(q), refs, Elems(t));
      MinBoundsFifo(W, t, refs[1..]);
    }
  }
}
