/**
 The pin-smallest policy: whole layers are pinned, smallest first, as long as they fit in the budget
 of W banks, and every other set passes through one victim bank.
 */
module Pinning {
  import opened Schedules
  import opened BankLists
  import opened Options
  import opened TileStream
  import opened Sorting

  /** A layer's size with its index. */
  datatype Sized = Sized(n: nat, li: nat)

  predicate LexLe(a: Sized, b: Sized) {
    a.n < b.n || (a.n == b.n && a.li <= b.li)
  }

  function SizesOf(ns: seq<nat>): seq<Sized> {
    seq(|ns|, i requires 0 <= i < |ns| => Sized(ns[i], i))
  }

  lemma SizesSnoc(ns: seq<nat>, L: set<nat>)
    requires ns != []
    ensures
      var k := |ns| - 1;
      Taken(ns, L) == Taken(ns[..k], L) + if k in L then ns[k] else 0
  {
    var k := |ns| - 1;
    assert SizesOf(ns) == SizesOf(ns[..k]) + [Sized(ns[k], k)];
    SumSnoc(SizesOf(ns[..k]), Sized(ns[k], k), Weight(L));
  }

  /** Take each layer in turn if it still fits. */
  function Greedy(xs: seq<Sized>, budget: nat): set<nat> {
    if xs == [] then {}
    else if xs[0].n <= budget then {xs[0].li} + Greedy(xs[1..], budget - xs[0].n)
    else Greedy(xs[1..], budget)
  }

  function PinnedLayers(ns: seq<nat>, W: nat): set<nat>
  {
    Greedy(Sort(SizesOf(ns), LexLe), W)
  }

  /** The n ids from base on. */
  function Range(base: nat, n: nat): set<int> {
    if n == 0 then {} else Range(base, n - 1) + {base + n - 1}
  }

  lemma {:induction false} RangeFacts(base: nat, n: nat)
    ensures forall x :: x in Range(base, n) <==> base <= x < base + n
    ensures |Range(base, n)| == n
  {
    if n > 0 {
      RangeFacts(base, n - 1);
    }
  }

  /** The sets of layer k. */
  function LayerIds(ns: seq<nat>, k: nat): set<int>
    requires k < |ns|
  {
    Range(Total(ns[..k]), ns[k])
  }

  /** The sets of the layers in L. */
  function SetsOf(ns: seq<nat>, L: set<nat>): set<int>
  {
    if ns == [] then {}
    else
      var k := |ns| - 1;
      SetsOf(ns[..k], L) + (if k in L then LayerIds(ns, k) else {})
  }

  function PinnedSets(ns: seq<nat>, W: nat): set<int>
  {
    SetsOf(ns, PinnedLayers(ns, W))
  }

  function Weight(L: set<nat>): Sized -> nat {
    (s: Sized) => if s.li in L then s.n else 0
  }

  /** How many sets the layers in L have together. */
  function Taken(ns: seq<nat>, L: set<nat>): nat
  {
    Sum(SizesOf(ns), Weight(L))
  }

  // ---- what the greedy choice pins ----

  ghost predicate UniqueIndex(xs: seq<Sized>) {
    forall i, j :: 0 <= i < j < |xs| ==> xs[i].li != xs[j].li
  }

  lemma {:induction false} InsertUnique(x: Sized, s: seq<Sized>)
    requires UniqueIndex(s) && forall i :: 0 <= i < |s| ==> s[i].li != x.li
    ensures UniqueIndex(Insert(x, s, LexLe))
  {
    if s != [] && !LexLe(x, s[0]) {
      var t := Insert(x, s[1..], LexLe);
      InsertUnique(x, s[1..]);
      InsertMultiset(x, s[1..], LexLe);
      forall j | 0 <= j < |t|
        ensures t[j].li != s[0].li
      {
        assert t[j] in multiset(t);
        assert t[j] == x || t[j] in s[1..];
      }
    }
  }

  lemma {:induction false} SortUnique(s: seq<Sized>)
    requires UniqueIndex(s)
    ensures UniqueIndex(Sort(s, LexLe))
  {
    if s != [] {
      var t := Sort(s[1..], LexLe);
      SortUnique(s[1..]);
      forall i | 0 <= i < |t|
        ensures t[i].li != s[0].li
      {
        SortElems(s[1..], LexLe, t[i]);
      }
      InsertUnique(s[0], t);
    }
  }

  lemma {:induction false} SumAgree(xs: seq<Sized>, L: set<nat>, M: set<nat>)
    requires forall i :: 0 <= i < |xs| ==> (xs[i].li in L <==> xs[i].li in M)
    ensures Sum(xs, Weight(L)) == Sum(xs, Weight(M))
  {
    if xs != [] {
      SumAgree(xs[1..], L, M);
    }
  }

  lemma {:induction false} GreedyNothingFits(xs: seq<Sized>, budget: nat)
    requires forall i :: 0 <= i < |xs| ==> xs[i].n > budget
    ensures Greedy(xs, budget) == {}
  {
    if xs != [] {
      GreedyNothingFits(xs[1..], budget);
    }
  }

  lemma {:induction false} SumNone(xs: seq<Sized>)
    ensures Sum(xs, Weight({})) == 0
  {
    if xs != [] {
      SumNone(xs[1..]);
    }
  }

  /** Of a sorted list the greedy choice takes a prefix: all that fits, and nothing more would. */
  ghost predicate Prefix(xs: seq<Sized>, L: set<nat>, budget: nat) {
    Sum(xs, Weight(L)) <= budget &&
    (forall i :: i in L ==> exists k :: 0 <= k < |xs| && xs[k].li == i) &&
    (forall k :: 0 <= k < |xs| && xs[k].li !in L ==> xs[k].n + Sum(xs, Weight(L)) > budget) &&
    (forall j, k :: 0 <= j < k < |xs| && xs[k].li in L ==> xs[j].li in L)
  }

  lemma {:induction false} GreedyTakesPrefix(xs: seq<Sized>, budget: nat)
    requires SortedBy(xs, LexLe) && UniqueIndex(xs)
    ensures Prefix(xs, Greedy(xs, budget), budget)
  {
    if xs != [] {
      var x, rest := xs[0], xs[1..];
      assert forall k :: 0 <= k < |rest| ==> rest[k] == xs[k + 1];
      if x.n <= budget {
        GreedyTakesPrefix(rest, budget - x.n);
        var L := Greedy(rest, budget - x.n);
        SumAgree(rest, L, {x.li} + L);
        GreedyPrefixCons(xs, budget, L);
      } else {
        GreedyNothingFits(rest, budget);
        SumNone(xs);
      }
    }
  }

  lemma GreedyPrefixCons(xs: seq<Sized>, budget: nat, L: set<nat>)
    requires xs != [] && xs[0].n <= budget && Prefix(xs[1..], L, budget - xs[0].n)
    requires UniqueIndex(xs) && Sum(xs[1..], Weight({xs[0].li} + L)) == Sum(xs[1..], Weight(L))
    ensures Prefix(xs, {xs[0].li} + L, budget)
  {
    var M, rest := {xs[0].li} + L, xs[1..];
    forall i | i in M
      ensures exists k :: 0 <= k < |xs| && xs[k].li == i
    {
      if i != xs[0].li {
        var k :| 0 <= k < |rest| && rest[k].li == i;
        assert xs[k + 1].li == i;
      }
    }
    forall k | 0 <= k < |xs| && xs[k].li !in M
      ensures xs[k].n + Sum(xs, Weight(M)) > budget
    {
      assert rest[k - 1] == xs[k];
    }
    forall j, k | 0 <= j < k < |xs| && xs[k].li in M
      ensures xs[j].li in M
    {
      if j > 0 {
        assert rest[j - 1] == xs[j] && rest[k - 1] == xs[k];
      }
    }
  }

  lemma LexTotal()
    ensures TotalPreorder(LexLe)
  {
  }

  /**
   A choice of layers that fit in W banks, beside which no other layer fits, and that contains with a
   layer every smaller one, and every earlier one of the same size.
   */
  ghost predicate SmallestFirst(ns: seq<nat>, W: nat, L: set<nat>) {
    && (forall i :: i in L ==> i < |ns|)
    && Taken(ns, L) <= W
    && (forall i :: 0 <= i < |ns| && i !in L ==> ns[i] + Taken(ns, L) > W)
    && (forall i, j :: 0 <= i < |ns| && 0 <= j < |ns| && i in L && (ns[j] < ns[i] || (ns[j] == ns[i] && j <= i)) ==> j in L)
  }

  /** The pinned layers are such a choice. */
  lemma PinnedLayersSpec(ns: seq<nat>, W: nat)
    ensures SmallestFirst(ns, W, PinnedLayers(ns, W))
  {
    var L, s := PinnedLayers(ns, W), SizesOf(ns);
    var xs := Sort(s, LexLe);
    LexTotal();
    SortSorted(s, LexLe);
    SortUnique(s);
    GreedyTakesPrefix(xs, W);
    SortSum(s, LexLe, Weight(L));
    forall i | i in L
      ensures i < |ns|
    {
      var k :| 0 <= k < |xs| && xs[k].li == i;
      SortElems(s, LexLe, xs[k]);
    }
    forall i | 0 <= i < |ns| && i !in L
      ensures ns[i] + Taken(ns, L) > W
    {
      var k := PlaceOf(s, i);
    }
    forall i, j | 0 <= i < |ns| && 0 <= j < |ns| && i in L && (ns[j] < ns[i] || (ns[j] == ns[i] && j <= i))
      ensures j in L
    {
      var ki := PlaceOf(s, i);
      var kj := PlaceOf(s, j);
      PrefixClosed(xs, L, W, ki, kj);
    }
  }

  lemma {:induction false} TakenMono(ns: seq<nat>, L: set<nat>, M: set<nat>)
    requires forall i :: 0 <= i < |ns| && i in L ==> i in M
    ensures Taken(ns, L) <= Taken(ns, M)
    ensures forall i :: 0 <= i < |ns| && i in M && i !in L ==> Taken(ns, L) + ns[i] <= Taken(ns, M)
  {
    if ns != [] {
      var k := |ns| - 1;
      TakenMono(ns[..k], L, M);
      SizesSnoc(ns, L);
      SizesSnoc(ns, M);
      assert forall i :: 0 <= i < k ==> ns[..k][i] == ns[i];
    }
  }

  lemma NothingMoreFits(ns: seq<nat>, W: nat, L: set<nat>, M: set<nat>)
    requires SmallestFirst(ns, W, L) && SmallestFirst(ns, W, M)
    requires forall i :: 0 <= i < |ns| && i in L ==> i in M
    ensures forall i :: i in M ==> i in L
  {
    TakenMono(ns, L, M);
  }

  /** And the only one, so the sort and the loop are determined by it. */
  lemma SmallestFirstUnique(ns: seq<nat>, W: nat, L: set<nat>, M: set<nat>)
    requires SmallestFirst(ns, W, L) && SmallestFirst(ns, W, M)
    ensures forall i :: i in L <==> i in M
  {
    if forall i :: 0 <= i < |ns| && i in L ==> i in M {
      NothingMoreFits(ns, W, L, M);
    } else {
      var i :| 0 <= i < |ns| && i in L && i !in M;
      forall j | 0 <= j < |ns| && j in M
        ensures j in L
      {
        assert ns[j] < ns[i] || (ns[j] == ns[i] && j <= i);
      }
      NothingMoreFits(ns, W, M, L);
    }
  }

  lemma PrefixClosed(xs: seq<Sized>, L: set<nat>, budget: nat, ki: nat, kj: nat)
    requires SortedBy(xs, LexLe) && Prefix(xs, L, budget) && ki < |xs| && kj < |xs|
    requires xs[ki].li in L && LexLe(xs[kj], xs[ki])
    ensures xs[kj].li in L
  {
    if kj > ki {
      assert LexLe(xs[ki], xs[kj]);
    }
  }

  lemma PlaceOf(s: seq<Sized>, i: nat) returns (k: nat)
    requires i < |s|
    ensures k < |Sort(s, LexLe)| && Sort(s, LexLe)[k] == s[i]
  {
    SortElems(s, LexLe, s[i]);
    k :| k < |Sort(s, LexLe)| && Sort(s, LexLe)[k] == s[i];
  }

  /** The sets of the layers in L: their number, and that they are among the P ids. */
  lemma {:induction false} SetsOfFacts(ns: seq<nat>, L: set<nat>)
    ensures |SetsOf(ns, L)| == Taken(ns, L) <= Total(ns)
    ensures forall x :: x in SetsOf(ns, L) ==> 0 <= x < Total(ns)
  {
    if ns != [] {
      var k := |ns| - 1;
      var front, last := SetsOf(ns[..k], L), LayerIds(ns, k);
      SetsOfFacts(ns[..k], L);
      SizesSnoc(ns, L);
      RangeFacts(Total(ns[..k]), ns[k]);
      DisjointUnion(front, last);
      assert front + {} == front;
    }
  }

  lemma {:induction false} SetsOfAdd(ns: seq<nat>, L: set<nat>, i: nat)
    requires i < |ns|
    ensures SetsOf(ns, L + {i}) == SetsOf(ns, L) + LayerIds(ns, i)
  {
    var k := |ns| - 1;
    var front := ns[..k];
    if i < k {
      SetsOfAdd(front, L, i);
      assert front[..i] == ns[..i];
    } else {
      SetsOfSame(front, L, k);
    }
  }

  lemma {:induction false} SetsOfSame(ns: seq<nat>, L: set<nat>, i: nat)
    requires i >= |ns|
    ensures SetsOf(ns, L + {i}) == SetsOf(ns, L)
  {
    if ns != [] {
      SetsOfSame(ns[..|ns| - 1], L, i);
    }
  }

  // ---- the policy ----

  /** A pinned set is loaded once for ever; any other set is resident only while it is the victim. */
  function PinMisses(pinned: set<int>, seen: set<int>, victim: Option<int>, refs: seq<int>): nat
    decreases |refs|
  {
    if refs == [] then 0
    else
      var r := refs[0];
      if r in pinned then (if r in seen then 0 else 1) + PinMisses(pinned, seen + {r}, victim, refs[1..])
      else (if victim == Some(r) then 0 else 1) + PinMisses(pinned, seen, Some(r), refs[1..])
  }

  method ChoosePinned(ns: seq<nat>, W: nat) returns (pinned: set<int>)
    ensures pinned == PinnedSets(ns, W)
  {
    var sizes := Sort(SizesOf(ns), LexLe);
    pinned := {};
    var bases := Bases(ns);
    var budget := W;
    ghost var L: set<nat> := {};
    PinningStart(ns, W, sizes);
    for k := 0 to |sizes|
      invariant PinnedSoFar(ns, W, sizes, k, budget, L, pinned)
    {
      var n, li := sizes[k].n, sizes[k].li;
      SizeAt(ns, sizes, k);
      if n > budget {
        PinningSkips(ns, W, sizes, k, budget, L, pinned);
      } else {
        PinningFits(ns, W, sizes, k, budget, L, pinned);
        pinned := pinned + Range(bases[li], n);
        budget := budget - n;
        L := L + {li};
      }
    }
    PinningDone(ns, W, sizes, budget, L, pinned);
  }

  lemma PinningStart(ns: seq<nat>, W: nat, sizes: seq<Sized>)
    ensures PinnedSoFar(ns, W, sizes, 0, W, {}, {})
  {
    NoSets(ns);
    assert sizes[0..] == sizes;
  }

  lemma PinningDone(ns: seq<nat>, W: nat, sizes: seq<Sized>, budget: nat, L: set<nat>, pinned: set<int>)
    requires sizes == Sort(SizesOf(ns), LexLe)
    requires PinnedSoFar(ns, W, sizes, |sizes|, budget, L, pinned)
    ensures pinned == PinnedSets(ns, W)
  {
    assert sizes[|sizes|..] == [];
    assert L == PinnedLayers(ns, W);
  }

  /** L is what has been pinned of the first k sizes, and the rest of the budget is still to be spent. */
  ghost predicate PinnedSoFar(ns: seq<nat>, W: nat, sizes: seq<Sized>, k: nat, budget: nat,
                          L: set<nat>, pinned: set<int>)
    requires k <= |sizes|
  {
    L + Greedy(sizes[k..], budget) == Greedy(sizes, W) && pinned == SetsOf(ns, L)
  }

  /** Each entry of the sorted list is a layer with its own size. */
  lemma SizeAt(ns: seq<nat>, sizes: seq<Sized>, k: nat)
    requires sizes == Sort(SizesOf(ns), LexLe) && k < |sizes|
    ensures sizes[k].li < |ns| && sizes[k].n == ns[sizes[k].li]
  {
    SortElems(SizesOf(ns), LexLe, sizes[k]);
  }

  lemma PinningFits(ns: seq<nat>, W: nat, sizes: seq<Sized>, k: nat, budget: nat, L: set<nat>, pinned: set<int>)
    requires k < |sizes| && sizes[k].li < |ns| && sizes[k].n <= budget
    requires PinnedSoFar(ns, W, sizes, k, budget, L, pinned)
    ensures PinnedSoFar(ns, W, sizes, k + 1, budget - sizes[k].n, L + {sizes[k].li}, pinned + LayerIds(ns, sizes[k].li))
  {
    GreedyStep(sizes, k, budget, L);
    SetsOfAdd(ns, L, sizes[k].li);
  }

  lemma PinningSkips(ns: seq<nat>, W: nat, sizes: seq<Sized>, k: nat, budget: nat, L: set<nat>, pinned: set<int>)
    requires k < |sizes| && sizes[k].n > budget
    requires PinnedSoFar(ns, W, sizes, k, budget, L, pinned)
    ensures PinnedSoFar(ns, W, sizes, k + 1, budget, L, pinned)
  {
    GreedyStep(sizes, k, budget, L);
  }

  lemma GreedyStep(xs: seq<Sized>, k: nat, budget: nat, L: set<nat>)
    requires k < |xs|
    ensures
      L + Greedy(xs[k..], budget)
      == if xs[k].n <= budget then L + {xs[k].li} + Greedy(xs[k + 1..], budget - xs[k].n)
         else L + Greedy(xs[k + 1..], budget)
  {
    assert xs[k..][1..] == xs[k + 1..];
  }

  lemma {:induction false} NoSets(ns: seq<nat>)
    ensures SetsOf(ns, {}) == {}
  {
    if ns != [] {
      NoSets(ns[..|ns| - 1]);
    }
  }

  method MissesPinSmallest(refs: seq<int>, W: nat, layers: seq<Layer>, R: nat, C: nat) returns (m: nat)
    requires R >= 1 && C >= 1
    ensures m == PinMisses(PinnedSets(LayerSizes(layers, R, C), W), {}, None, refs)
  {
    var pinned := ChoosePinned(LayerSizes(layers, R, C), W);
    var seenPinned: set<int> := {};
    var victim: Option<int> := None;
    m := 0;
    for i := 0 to |refs|
      invariant m + PinMisses(pinned, seenPinned, victim, refs[i..]) == PinMisses(pinned, {}, None, refs)
    {
      var r := refs[i];
      assert refs[i..][1..] == refs[i + 1..];
      if r in pinned {
        if r in seenPinned {
          assert seenPinned + {r} == seenPinned;
          continue;
        }
        m := m + 1;
        seenPinned := seenPinned + {r};
        continue;
      }
      if victim == Some(r) {
        continue;
      }
      m := m + 1;
      victim := Some(r);
    }
  }

  ghost function Resident(seen: set<int>, victim: Option<int>): set<int> {
    match victim
    case None => seen
    case Some(v) => seen + {v}
  }

  /** Pinning with parameter W is a demand schedule over W+1 banks. */
  lemma {:induction false} PinIsSchedule(W: nat, pinned: set<int>, seen: set<int>, victim: Option<int>, refs: seq<int>)
    requires |pinned| <= W && seen <= pinned
    ensures Opt(W + 1, Resident(seen, victim), refs) <= PinMisses(pinned, seen, victim, refs)
    decreases |refs|
  {
    var S := Resident(seen, victim);
    if refs == [] {
      OptEmpty(W + 1, S);
    } else {
      var r := refs[0];
      var seen', victim' := if r in pinned then seen + {r} else seen, if r in pinned then victim else Some(r);
      SubsetCard(seen', pinned);
      OptUpper(W + 1, S, refs, Resident(seen', victim'));
      PinIsSchedule(W, pinned, seen', victim', refs[1..]);
    }
  }

  /** So MIN with one bank more than the budget is never behind pinning. */
  lemma MinBoundsPin(refs: seq<int>, ns: seq<nat>, W: nat)
    ensures Opt(W + 1, {}, refs) <= PinMisses(PinnedSets(ns, W), {}, None, refs)
  {
    var L := PinnedLayers(ns, W);
    PinnedLayersSpec(ns, W);
    SetsOfFacts(ns, L);
    PinIsSchedule(W, PinnedSets(ns, W), {}, None, refs);
  }
}
