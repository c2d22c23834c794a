/**
 Exact miss counts on a cyclic stream 0, 1, ..., P-1, 0, 1, ..., the shape of the tile's stream, and
 on any stream whose ids all fit in the banks.
 */
module CyclicMisses {
  import opened Arithmetic
  import opened Schedules
  import opened BankLists
  import opened Policies
  import opened TileStream

  // ---- when the ids fit ----

  lemma ElemsHead(refs: seq<int>)
    requires refs != []
    ensures Elems(refs) == {refs[0]} + Elems(refs[1..])
  {
  }

  /** What is still to be loaded before and after serving the first reference. */
  lemma StillToLoad(S: set<int>, refs: seq<int>)
    requires refs != []
    ensures |Elems(refs) - S| == Cost(S, refs[0]) + |Elems(refs[1..]) - (S + {refs[0]})|
    ensures S + Elems(refs) == (S + {refs[0]}) + Elems(refs[1..])
  {
    var r := refs[0];
    ElemsHead(refs);
    var left := Elems(refs[1..]) - (S + {r});
    if r in S {
      assert Elems(refs) - S == left;
    } else {
      assert Elems(refs) - S == left + {r};
    }
  }

  /** Every set is loaded at least once by any schedule. */
  lemma {:induction false} EveryIdIsLoaded(W: nat, S: set<int>, refs: seq<int>)
    requires W >= 1
    ensures |Elems(refs) - S| <= Opt(W, S, refs)
    decreases |refs|
  {
    if refs != [] {
      var S' := OptLower(W, S, refs);
      StillToLoad(S, refs);
      EveryIdIsLoaded(W, S', refs[1..]);
      SubsetCard(Elems(refs[1..]) - (S + {refs[0]}), Elems(refs[1..]) - S');
    }
  }

  /** Once the banks hold every id, LRU, FIFO and MIN all load each id exactly once. */
  lemma {:induction false} EnoughBanksLru(W: nat, q: seq<int>, refs: seq<int>)
    requires Distinct(q) && |Elems(q) + Elems(refs)| <= W
    ensures LruMisses(W, q, refs) == |Elems(refs) - Elems(q)|
    decreases |refs|
  {
    if refs != [] {
      var r := refs[0];
      StillToLoad(Elems(q), refs);
      DistinctCard(q);
      if r in q {
        WithoutDistinct(q, r);
        PushElems(Without(q, r), r);
        assert r !in Elems(Without(q, r));
      } else {
        SubsetCard(Elems(q) + {r}, Elems(q) + Elems(refs));
        PushElems(q, r);
      }
      assert Elems(LruStep(W, q, r)) == Elems(q) + {r};
      EnoughBanksLru(W, LruStep(W, q, r), refs[1..]);
    }
  }

  lemma {:induction false} EnoughBanksFifo(W: nat, q: seq<int>, refs: seq<int>)
    requires Distinct(q) && |Elems(q) + Elems(refs)| <= W
    ensures FifoMisses(W, q, refs) == |Elems(refs) - Elems(q)|
    decreases |refs|
  {
    if refs != [] {
      var r := refs[0];
      StillToLoad(Elems(q), refs);
      DistinctCard(q);
      if r !in q {
        SubsetCard(Elems(q) + {r}, Elems(q) + Elems(refs));
        PushElems(q, r);
      }
      assert Elems(FifoStep(W, q, r)) == Elems(q) + {r};
      EnoughBanksFifo(W, FifoStep(W, q, r), refs[1..]);
    }
  }

  lemma EnoughBanks(W: nat, refs: seq<int>)
    requires W >= 1 && |Elems(refs)| <= W
    ensures LruMisses(W, [], refs) == FifoMisses(W, [], refs) == Opt(W, {}, refs) == |Elems(refs)|
  {
    assert Elems([]) + Elems(refs) == Elems(refs) && Elems(refs) - Elems([]) == Elems(refs);
    EnoughBanksLru(W, [], refs);
    EnoughBanksFifo(W, [], refs);
    MinBoundsLru(W, [], refs);
    EveryIdIsLoaded(W, {}, refs);
    assert Elems(refs) - {} == Elems(refs);
  }

  // ---- residues ----

  lemma NextTurn(t: nat, P: nat)
    requires P >= 1
    ensures (t + P) % P == t % P
  {
    var q, j := t / P, t % P;
    ModShift(q + 1, P, j);
    assert (q + 1) * P + j == q * P + P + j == t + P;
  }

  lemma WithinTurn(i: nat, j: nat, P: nat)
    requires i < j < i + P
    ensures i % P != j % P
  {
    var d := j / P - i / P;
    assert d * P == (j / P) * P - (i / P) * P;
    assert d >= 1 ==> d * P >= P;
    assert d <= 0 ==> d * P <= 0;
  }

  lemma CyclicDistinct(refs: seq<int>, P: nat, n: nat, lo: nat, hi: nat)
    requires Cyclic(refs, P, n) && lo <= hi <= n && hi - lo <= P
    ensures Distinct(refs[lo..hi]) && |Elems(refs[lo..hi])| == hi - lo
  {
    var w := refs[lo..hi];
    forall i, j | 0 <= i < j < |w|
      ensures w[i] != w[j]
    {
      WithinTurn(lo + i, lo + j, P);
    }
    DistinctCard(w);
  }

  lemma CyclicElems(refs: seq<int>, P: nat, n: nat)
    requires Cyclic(refs, P, n) && n >= P >= 1
    ensures |Elems(refs)| == P
  {
    CyclicDistinct(refs, P, n, 0, P);
    forall i | 0 <= i < n
      ensures refs[i] in refs[0..P]
    {
      FirstTurn(refs, P, n, i);
    }
    assert Elems(refs) == Elems(refs[0..P]);
  }

  lemma FirstTurn(refs: seq<int>, P: nat, n: nat, i: nat)
    requires Cyclic(refs, P, n) && i < n && P <= n
    ensures refs[i] in refs[0..P]
  {
    var j := i % P;
    assert refs[j] == j;
    assert refs[0..P][j] == j;
  }

  // ---- LRU and FIFO thrash below the period ----

  ghost function Recent(refs: seq<int>, i: nat, W: nat): seq<int>
    requires i <= |refs|
  {
    refs[if i < W then 0 else i - W..i]
  }

  lemma RecentStep(refs: seq<int>, P: nat, n: nat, W: nat, i: nat)
    requires Cyclic(refs, P, n) && W < P && i < n
    ensures refs[i] !in Recent(refs, i, W)
    ensures Push(W, Recent(refs, i, W), refs[i]) == Recent(refs, i + 1, W)
  {
    var lo := if i < W then 0 else i - W;
    forall j | lo <= j < i
      ensures refs[j] != refs[i]
    {
      WithinTurn(j, i, P);
    }
  }

  lemma {:induction false} ThrashFrom(refs: seq<int>, P: nat, n: nat, W: nat, i: nat)
    requires Cyclic(refs, P, n) && W < P && i <= n
    ensures LruMisses(W, Recent(refs, i, W), refs[i..]) == n - i
    ensures FifoMisses(W, Recent(refs, i, W), refs[i..]) == n - i
    decreases n - i
  {
    if i < n {
      RecentStep(refs, P, n, W, i);
      assert refs[i..][1..] == refs[i + 1..];
      ThrashFrom(refs, P, n, W, i + 1);
    }
  }

  /** Below the period LRU and FIFO take no hit at all. */
  lemma CyclicThrash(refs: seq<int>, P: nat, n: nat, W: nat)
    requires Cyclic(refs, P, n) && W < P
    ensures LruMisses(W, [], refs) == FifoMisses(W, [], refs) == n
  {
    ThrashFrom(refs, P, n, W, 0);
    assert Recent(refs, 0, W) == [] && refs[0..] == refs;
  }

  // ---- MIN ----

  /** Any schedule misses, over a window, every id that is not resident when the window starts. */
  lemma {:induction false} WindowLower(W: nat, S: set<int>, pre: seq<int>, suf: seq<int>) returns (S': set<int>)
    requires W >= 1 && pre != []
    ensures |S'| <= W && pre[|pre| - 1] in S'
    ensures |Elems(pre) - S| + Opt(W, S', suf) <= Opt(W, S, pre + suf)
    decreases |pre|
  {
    var refs := pre + suf;
    var T := OptLower(W, S, refs);
    assert refs[1..] == pre[1..] + suf;
    StillToLoad(S, pre);
    if |pre| == 1 {
      S' := T;
      assert refs[1..] == suf;
      assert Elems(pre[1..]) == {};
    } else {
      S' := WindowLower(W, T, pre[1..], suf);
      SubsetCard(Elems(pre[1..]) - (S + {pre[0]}), Elems(pre[1..]) - T);
    }
  }

  /** References to resident sets cost nothing. */
  lemma {:induction false} ServeHits(W: nat, S: set<int>, pre: seq<int>, suf: seq<int>)
    requires W >= 1 && |S| <= W && forall x :: x in pre ==> x in S
    ensures Opt(W, S, pre + suf) == Opt(W, S, suf)
    decreases |pre|
  {
    if pre == [] {
      assert pre + suf == suf;
    } else {
      assert (pre + suf)[0] == pre[0] && pre[0] in pre;
      OptHit(W, S, pre + suf);
      assert (pre + suf)[1..] == pre[1..] + suf;
      ServeHits(W, S, pre[1..], suf);
    }
  }

  /** Keep K and stream every other reference through the one remaining bank. */
  lemma {:induction false} Slide(W: nat, K: set<int>, S: set<int>, pre: seq<int>, suf: seq<int>)
    requires |K| < W && K <= S && pre != []
    ensures Opt(W, S, pre + suf) <= |pre| + Opt(W, K + {pre[|pre| - 1]}, suf)
    decreases |pre|
  {
    var refs := pre + suf;
    OptUpper(W, S, refs, K + {pre[0]});
    assert refs[1..] == pre[1..] + suf;
    if |pre| == 1 {
      assert refs[1..] == suf;
    } else {
      Slide(W, K, K + {pre[0]}, pre[1..], suf);
    }
  }

  lemma AtMostLength(W: nat, S: set<int>, refs: seq<int>)
    requires W >= 1
    ensures Opt(W, S, refs) <= |refs|
  {
    if refs == [] {
      OptEmpty(W, S);
    } else {
      Slide(W, {}, S, refs, []);
      assert refs + [] == refs;
      OptEmpty(W, {refs[|refs| - 1]});
      assert {} + {refs[|refs| - 1]} == {refs[|refs| - 1]};
    }
  }

  /**
   The most hits W banks can give over m references of a P-cycle: W-1 in every P-1 references, and
   what fits of another W-1 in the rest.
   */
  function Hits(P: nat, W: nat, m: nat): (k: nat)
    requires 1 <= W < P
    ensures k <= m
    ensures k == m <==> m < W
  {
    if m < P - 1 then (if m < W then m else W - 1) else W - 1 + Hits(P, W, m - (P - 1))
  }

  lemma {:induction false} HitsByBlocks(P: nat, W: nat, q: nat, D: nat, m: nat)
    requires 1 <= W < P && D == P - 1
    ensures q * D >= 0 && Hits(P, W, q * D + m) == q * (W - 1) + Hits(P, W, m)
  {
    if q > 0 {
      HitsByBlocks(P, W, q - 1, D, m);
      MulSucc(q, D);
      MulSucc(q, W - 1);
      var x := (q - 1) * D + m;
      assert Hits(P, W, x + D) == W - 1 + Hits(P, W, x);
    }
  }

  /** The recursion in closed form. */
  lemma HitsClosedForm(P: nat, W: nat, m: nat)
    requires 1 <= W < P
    ensures Hits(P, W, m) == m / (P - 1) * (W - 1) + (if m % (P - 1) < W then m % (P - 1) else W - 1)
  {
    var D := P - 1;
    var q, r := m / D, m % D;
    assert m == q * D + r;
    HitsByBlocks(P, W, q, D, r);
  }

  /** After the reference before a window, at most W-1 of the next P-1 ids are resident. */
  lemma WindowMisses(S: set<int>, W: nat, x: int, ids: set<int>)
    requires |S| <= W && x in S && x !in ids
    ensures |ids - S| + (W - 1) >= |ids|
  {
    SubsetCard(ids * S, S - {x});
    assert ids == (ids - S) + (ids * S);
  }

  lemma NextIds(refs: seq<int>, P: nat, n: nat, t: nat, u: nat)
    requires Cyclic(refs, P, n) && 1 <= t <= u <= n && u - t < P
    ensures refs[t - 1] !in Elems(refs[t..u]) && |Elems(refs[t..u])| == u - t
  {
    CyclicDistinct(refs, P, n, t, u);
    forall i | t <= i < u
      ensures refs[i] != refs[t - 1]
    {
      WithinTurn(t - 1, i, P);
    }
  }

  /** Over at most P-1 references all but W-1 are misses, whatever the schedule. */
  lemma WindowBound(refs: seq<int>, P: nat, n: nat, W: nat, t: nat, u: nat, S: set<int>) returns (S': set<int>)
    requires Cyclic(refs, P, n) && W >= 1 && 1 <= t < u <= n && u - t < P
    requires |S| <= W && refs[t - 1] in S
    ensures |S'| <= W && refs[u - 1] in S'
    ensures (u - t) - (W - 1) + Opt(W, S', refs[u..]) <= Opt(W, S, refs[t..])
    ensures Opt(W, S', refs[u..]) <= Opt(W, S, refs[t..])
  {
    var pre, suf := refs[t..u], refs[u..];
    assert refs[t..] == pre + suf;
    NextIds(refs, P, n, t, u);
    WindowMisses(S, W, refs[t - 1], Elems(pre));
    S' := WindowLower(W, S, pre, suf);
  }

  /** No schedule can do better than Hits says. */
  lemma {:induction false} CyclicLower(refs: seq<int>, P: nat, n: nat, W: nat, t: nat, S: set<int>)
    requires Cyclic(refs, P, n) && 1 <= W < P && 1 <= t <= n
    requires |S| <= W && refs[t - 1] in S
    ensures (n - t) - Hits(P, W, n - t) <= Opt(W, S, refs[t..])
    decreases n - t
  {
    if n - t >= P - 1 {
      var S' := WindowBound(refs, P, n, W, t, t + P - 1, S);
      CyclicLower(refs, P, n, W, t + P - 1, S');
    } else if t < n {
      var S' := WindowBound(refs, P, n, W, t, n, S);
    }
  }

  /** The W ids around position t: the one before it and the next W-1. */
  ghost function Ahead(P: nat, t: nat, len: nat): set<int>
    requires P >= 1
  {
    set i | t <= i < t + len :: i % P
  }

  lemma {:induction false} AheadCard(P: nat, t: nat, len: nat)
    requires P >= 1
    ensures |Ahead(P, t, len)| <= len
  {
    if len > 0 {
      AheadCard(P, t, len - 1);
      AheadSnoc(P, t, len - 1);
    }
  }

  lemma AheadSnoc(P: nat, t: nat, len: nat)
    requires P >= 1
    ensures Ahead(P, t, len + 1) == Ahead(P, t, len) + {(t + len) % P}
  {
  }

  lemma AheadNextTurn(P: nat, t: nat, len: nat)
    requires P >= 1
    ensures {(t + P - 1) % P} + Ahead(P, t, len) >= Ahead(P, t + P - 1, len + 1)
  {
    var next := Ahead(P, t + P - 1, len + 1);
    forall x | x in next
      ensures x in {(t + P - 1) % P} + Ahead(P, t, len)
    {
      var i :| t + P - 1 <= i < t + P + len && x == i % P;
      if i >= t + P {
        NextTurn(i - P, P);
      }
    }
  }

  /** The next W-1 references are hits, as far as the stream goes. */
  lemma AheadHits(refs: seq<int>, P: nat, n: nat, W: nat, t: nat, h: nat)
    requires Cyclic(refs, P, n) && 1 <= W < P && 1 <= t <= h <= n && h <= t + W - 1
    ensures Opt(W, Ahead(P, t - 1, W), refs[t..]) == Opt(W, Ahead(P, t - 1, W), refs[h..])
  {
    AheadCard(P, t - 1, W);
    assert refs[t..] == refs[t..h] + refs[h..];
    ServeHits(W, Ahead(P, t - 1, W), refs[t..h], refs[h..]);
  }

  /** Streaming up to position u with K kept leaves the banks ready for what follows u. */
  lemma SlideTo(refs: seq<int>, P: nat, n: nat, W: nat, S: set<int>, t: nat, h: nat)
    requires Cyclic(refs, P, n) && 1 <= W < P && h < t + P <= n && Ahead(P, t, W - 1) <= S
    ensures Opt(W, S, refs[h..]) <= t + P - h + Opt(W, Ahead(P, t + P - 1, W), refs[t + P..])
  {
    var K, u := Ahead(P, t, W - 1), t + P;
    AheadCard(P, t, W - 1);
    var pre, suf := refs[h..u], refs[u..];
    assert refs[h..] == pre + suf;
    Slide(W, K, S, pre, suf);
    assert pre[|pre| - 1] == (u - 1) % P;
    AheadNextTurn(P, t, W - 1);
    OptMono(W, Ahead(P, u - 1, W), K + {(u - 1) % P}, suf);
  }

  /** A whole block: W-1 hits, then P-W misses. */
  lemma AheadBlock(refs: seq<int>, P: nat, n: nat, W: nat, t: nat)
    requires Cyclic(refs, P, n) && 1 <= W < P && 1 <= t && t + P - 1 <= n
    ensures Opt(W, Ahead(P, t - 1, W), refs[t..]) <= P - W + Opt(W, Ahead(P, t + P - 2, W), refs[t + P - 1..])
  {
    AheadHits(refs, P, n, W, t, t + W - 1);
    AheadSnoc(P, t - 1, W - 1);
    SlideTo(refs, P, n, W, Ahead(P, t - 1, W), t - 1, t + W - 1);
  }

  /** Keeping the next W-1 ids and streaming the rest through one bank attains Hits. */
  lemma {:induction false} CyclicUpper(refs: seq<int>, P: nat, n: nat, W: nat, t: nat)
    requires Cyclic(refs, P, n) && 1 <= W < P && 1 <= t <= n
    ensures Opt(W, Ahead(P, t - 1, W), refs[t..]) <= (n - t) - Hits(P, W, n - t)
    decreases n - t
  {
    if n - t < P - 1 {
      var h := if n - t < W then n else t + W - 1;
      AheadHits(refs, P, n, W, t, h);
      AtMostLength(W, Ahead(P, t - 1, W), refs[h..]);
    } else {
      AheadBlock(refs, P, n, W, t);
      CyclicUpper(refs, P, n, W, t + P - 1);
    }
  }

  /** The first turn: every id is loaded once, and the banks can end it as CyclicUpper wants. */
  lemma FirstTurnUpper(refs: seq<int>, P: nat, n: nat, W: nat)
    requires Cyclic(refs, P, n) && 1 <= W < P <= n
    ensures Opt(W, {}, refs) <= P + Opt(W, Ahead(P, P - 1, W), refs[P..])
  {
    Fill(refs, P, n, W, W - 1);
    SlideTo(refs, P, n, W, Ahead(P, 0, W - 1), 0, W - 1);
  }

  lemma {:induction false} Fill(refs: seq<int>, P: nat, n: nat, W: nat, k: nat)
    requires Cyclic(refs, P, n) && 1 <= W < P <= n && k < W
    ensures Opt(W, {}, refs) <= k + Opt(W, Ahead(P, 0, k), refs[k..])
  {
    if k == 0 {
      assert Ahead(P, 0, 0) == {} && refs[0..] == refs;
    } else {
      Fill(refs, P, n, W, k - 1);
      AheadCard(P, 0, k);
      AheadSnoc(P, 0, k - 1);
      assert refs[k - 1..][1..] == refs[k..];
      OptUpper(W, Ahead(P, 0, k - 1), refs[k - 1..], Ahead(P, 0, k));
    }
  }

  /** MIN below the period, exactly: a first turn of misses, then all but Hits of the rest. */
  lemma MinOnCycle(refs: seq<int>, P: nat, n: nat, W: nat)
    requires Cyclic(refs, P, n) && 1 <= W < P <= n
    ensures Opt(W, {}, refs) == n - Hits(P, W, n - P)
  {
    FirstTurnUpper(refs, P, n, W);
    CyclicUpper(refs, P, n, W, P);
    var pre, suf := refs[0..P], refs[P..];
    assert refs == pre + suf;
    CyclicDistinct(refs, P, n, 0, P);
    var S := WindowLower(W, {}, pre, suf);
    assert Elems(pre) - {} == Elems(pre);
    CyclicLower(refs, P, n, W, P, S);
  }

  /** MIN over `batch` turns. */
  lemma MinOnTurns(refs: seq<int>, P: nat, batch: nat, W: nat)
    requires Cyclic(refs, P, batch * P) && 1 <= W < P && batch >= 1
    ensures Opt(W, {}, refs) == batch * P - (batch - 1) * (W - 1) - Hits(P, W, batch - 1)
  {
    TurnsLeft(batch, P);
    MinOnCycle(refs, P, batch * P, W);
    HitsByBlocks(P, W, batch - 1, P - 1, batch - 1);
  }

  lemma TurnsLeft(batch: nat, P: nat)
    requires batch >= 1
    ensures batch * P - P == (batch - 1) * (P - 1) + (batch - 1) >= 0
  {
    assert (batch - 1) * P == (batch - 1) * (P - 1) + (batch - 1);
    assert (batch - 1) * P == batch * P - P;
    assert (batch - 1) * P >= 0;
  }
}
