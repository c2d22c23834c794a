/**
 What the policies do on the tile's stream: for every network, tile, bank count W and batch, when the
 policies agree, when one is strictly better, and by how much.

 Throughout, refs is what TileStream.Stream returns: `batch` turns of a cycle of P sets.
 */
module BankFindings {
  import opened Arithmetic
  import opened Schedules
  import opened Options
  import opened Policies
  import opened TileStream
  import opened CyclicMisses
  import opened Sorting
  import opened Pinning
  import opened PinOnCycle

  /** LRU and FIFO: no hit at all below the period, one load per set from there on. */
  lemma LruFifoOnStream(refs: seq<int>, P: nat, batch: nat, W: nat)
    requires Cyclic(refs, P, batch * P)
    ensures LruMisses(W, [], refs) == FifoMisses(W, [], refs)
         == if W < P then batch * P else if batch == 0 then 0 else P
  {
    if W < P {
      CyclicThrash(refs, P, batch * P, W);
    } else if batch >= 1 && P >= 1 {
      TurnsLeft(batch, P);
      CyclicElems(refs, P, batch * P);
      EnoughBanks(W, refs);
    }
  }

  /** MIN at or above the period: one load per set. */
  lemma MinAbovePeriod(refs: seq<int>, P: nat, batch: nat, W: nat)
    requires Cyclic(refs, P, batch * P) && W >= 1 && W >= P && batch >= 1
    ensures Opt(W, {}, refs) == P
  {
    if P == 0 {
      OptEmpty(W, {});
    } else {
      TurnsLeft(batch, P);
      CyclicElems(refs, P, batch * P);
      EnoughBanks(W, refs);
    }
  }

  lemma {:induction false} OneBankNoHits(P: nat, m: nat)
    requires P >= 2
    ensures Hits(P, 1, m) == 0
  {
    if m >= P - 1 {
      OneBankNoHits(P, m - (P - 1));
    }
  }

  /** MIN's misses lie within one set per turn of what holding W sets for ever would give. */
  lemma MinBetween(refs: seq<int>, P: nat, batch: nat, W: nat)
    requires Cyclic(refs, P, batch * P) && 1 <= W <= P && batch >= 1
    ensures batch * P - (batch - 1) * W <= Opt(W, {}, refs) <= batch * P - (batch - 1) * (W - 1)
  {
    TurnsLeft(batch, P);
    assert (batch - 1) * W == (batch - 1) * (W - 1) + (batch - 1);
    if W == P {
      MinAbovePeriod(refs, P, batch, W);
    } else {
      MinOnTurns(refs, P, batch, W);
    }
  }

  /** MIN is strictly better than LRU exactly with at least two banks, below the period, and a batch. */
  lemma MinBeatsLruIff(refs: seq<int>, P: nat, batch: nat, W: nat)
    requires Cyclic(refs, P, batch * P) && W >= 1
    ensures Opt(W, {}, refs) < LruMisses(W, [], refs) <==> 2 <= W < P && batch >= 2
  {
    LruFifoOnStream(refs, P, batch, W);
    if batch == 0 {
      OptEmpty(W, {});
    } else if W >= P {
      MinAbovePeriod(refs, P, batch, W);
    } else {
      MinOnTurns(refs, P, batch, W);
      if W == 1 {
        OneBankNoHits(P, batch - 1);
      }
      SavesIff(batch * P, batch - 1, W - 1, Hits(P, W, batch - 1));
    }
  }

  lemma SavesIff(n: int, turns: nat, kept: nat, h: nat)
    requires h <= turns && (kept == 0 ==> h == 0)
    ensures n - turns * kept - h < n <==> turns >= 1 && kept >= 1
  {
    assert turns == 0 || kept == 0 ==> turns * kept == 0;
    assert turns >= 1 && kept >= 1 ==> turns * kept >= 1;
  }

  /** A batch of one has no reuse: every policy loads every set once. */
  lemma OneForwardPass(refs: seq<int>, P: nat, W: nat, ns: seq<nat>)
    requires Cyclic(refs, P, P) && W >= 1 && P == Total(ns)
    ensures LruMisses(W, [], refs) == FifoMisses(W, [], refs) == Opt(W, {}, refs) == P
    ensures PinMisses(PinnedSets(ns, W), {}, None, refs) == P
  {
    LruFifoOnStream(refs, P, 1, W);
    if W >= P {
      MinAbovePeriod(refs, P, 1, W);
    } else {
      MinOnCycle(refs, P, P, W);
    }
    PinOnePass(refs, P, W, ns);
  }

  lemma PinOnePass(refs: seq<int>, P: nat, W: nat, ns: seq<nat>)
    requires Cyclic(refs, P, P) && P == Total(ns)
    ensures PinMisses(PinnedSets(ns, W), {}, None, refs) == P
  {
    PinOnStream(refs, P, 1, ns, W);
    assert 0 * |PinnedSets(ns, W)| == 0;
  }

  // ---- pinning ----

  lemma {:induction false} SumAtLeast(xs: seq<Sized>, L: set<nat>, k: nat)
    requires k < |xs| && xs[k].li in L
    ensures xs[k].n <= Sum(xs, Weight(L))
  {
    if k > 0 {
      SumAtLeast(xs[1..], L, k - 1);
    }
  }

  lemma {:induction false} SumPositive(xs: seq<Sized>, L: set<nat>) returns (k: nat)
    requires Sum(xs, Weight(L)) >= 1
    ensures k < |xs| && xs[k].li in L && xs[k].n >= 1
  {
    if xs[0].li in L && xs[0].n >= 1 {
      k := 0;
    } else {
      k := SumPositive(xs[1..], L);
      k := k + 1;
    }
  }

  /** Some layer can be kept whole. */
  ghost predicate SomeLayerFits(ns: seq<nat>, W: nat) {
    exists i :: 0 <= i < |ns| && 1 <= ns[i] <= W
  }

  lemma PinsSomethingIff(ns: seq<nat>, W: nat)
    ensures |PinnedSets(ns, W)| >= 1 <==> SomeLayerFits(ns, W)
  {
    var L, s := PinnedLayers(ns, W), SizesOf(ns);
    PinnedLayersSpec(ns, W);
    SetsOfFacts(ns, L);
    if Taken(ns, L) >= 1 {
      var k := SumPositive(s, L);
      SumAtLeast(s, L, k);
      assert 1 <= ns[k] <= W;
    }
    if SomeLayerFits(ns, W) {
      var i :| 0 <= i < |ns| && 1 <= ns[i] <= W;
      if i in L {
        SumAtLeast(s, L, i);
      } else {
        assert ns[i] + Taken(ns, L) > W;
      }
    }
  }

  /** A layer that is not pinned leaves the pinned ones short of the period by at least its size. */
  lemma {:induction false} TakenShort(ns: seq<nat>, L: set<nat>, i: nat)
    requires i < |ns| && i !in L
    ensures Taken(ns, L) + ns[i] <= Total(ns)
  {
    var k := |ns| - 1;
    SizesSnoc(ns, L);
    if i < k {
      TakenShort(ns[..k], L, i);
    } else {
      SetsOfFacts(ns[..k], L);
    }
  }

  lemma {:induction false} TakenAll(ns: seq<nat>, L: set<nat>)
    requires forall i :: 0 <= i < |ns| ==> i in L
    ensures Taken(ns, L) == Total(ns)
  {
    if ns != [] {
      var k := |ns| - 1;
      SizesSnoc(ns, L);
      TakenAll(ns[..k], L);
    }
  }

  /** The pinned sets fit in the banks, and are all of them exactly when all of them fit. */
  lemma PinnedCount(ns: seq<nat>, W: nat)
    ensures
      var p, P := |PinnedSets(ns, W)|, Total(ns);
      p <= W && p <= P && (p == P <==> P <= W)
    ensures AreIds(Total(ns), PinnedSets(ns, W))
  {
    var L := PinnedLayers(ns, W);
    PinnedLayersSpec(ns, W);
    SetsOfFacts(ns, L);
    if i :| 0 <= i < |ns| && i !in L {
      TakenShort(ns, L, i);
      assert ns[i] + Taken(ns, L) > W;
    } else {
      TakenAll(ns, L);
    }
  }

  /** Pinning in closed form, for every network and budget. */
  lemma PinOnStream(refs: seq<int>, P: nat, batch: nat, ns: seq<nat>, W: nat)
    requires P == Total(ns) && Cyclic(refs, P, batch * P) && batch >= 1
    ensures
      var p := |PinnedSets(ns, W)|;
      PinMisses(PinnedSets(ns, W), {}, None, refs)
      == if P - p == 1 then P else batch * P - (batch - 1) * p
  {
    PinnedCount(ns, W);
    var pinned := PinnedSets(ns, W);
    TurnsLeft(batch, P);
    if P == 0 {
      assert pinned == {};
    } else if P - |pinned| == 1 {
      PinOneLeft(refs, P, batch * P, pinned);
    } else {
      PinClosedForm(refs, P, batch, pinned);
    }
  }

  /**
   The threshold: over a batch and below the period, pinning is bit-identical to LRU until some layer
   fits whole and strictly better from there on. (A period of one set is resident in the victim bank.)
   */
  lemma PinThreshold(refs: seq<int>, P: nat, batch: nat, ns: seq<nat>, W: nat)
    requires P == Total(ns) && Cyclic(refs, P, batch * P)
    requires batch >= 2 && W < P
    ensures
      var pin := PinMisses(PinnedSets(ns, W), {}, None, refs);
      if SomeLayerFits(ns, W) || P == 1
      then pin < LruMisses(W, [], refs) else pin == LruMisses(W, [], refs)
  {
    var p := |PinnedSets(ns, W)|;
    PinOnStream(refs, P, batch, ns, W);
    LruFifoOnStream(refs, P, batch, W);
    PinsSomethingIff(ns, W);
    PinnedCount(ns, W);
    PinSavesIff(P, batch, p);
  }

  lemma PinSavesIff(P: nat, b: nat, p: nat)
    requires b >= 2 && P >= 1
    ensures (if P - p == 1 then P else b * P - (b - 1) * p) < b * P <==> p >= 1 || P == 1
    ensures p == 0 && P != 1 ==> b * P - (b - 1) * p == b * P
  {
    assert b * P >= 2 * P;
    assert p >= 1 ==> (b - 1) * p >= 1;
  }

  /**
   MIN is a bound on pinning at the same W only up to a point, because pinning has a victim bank
   besides its W: exactly when pinning leaves a bank of its budget unused, or the whole period fits,
   or the batch is small enough.
   */
  lemma MinBoundsPinIff(refs: seq<int>, P: nat, batch: nat, ns: seq<nat>, W: nat)
    requires P == Total(ns) && Cyclic(refs, P, batch * P)
    requires batch >= 1 && W >= 1
    ensures
      var p := |PinnedSets(ns, W)|;
      Opt(W, {}, refs) <= PinMisses(PinnedSets(ns, W), {}, None, refs)
      <==> (P <= W || p < W || batch <= if P - p == 1 then 1 else W)
  {
    var p := |PinnedSets(ns, W)|;
    PinnedCount(ns, W);
    PinOnStream(refs, P, batch, ns, W);
    if P <= W {
      MinAbovePeriod(refs, P, batch, W);
      TurnsLeft(batch, P);
      MulSucc(batch, P);
    } else {
      MinOnTurns(refs, P, batch, W);
      CompareMinPin(P, W, p, batch, Hits(P, W, batch - 1));
    }
  }

  lemma CompareMinPin(P: nat, W: nat, p: nat, b: nat, h: nat)
    requires 1 <= W < P && p <= W && b >= 1 && h <= b - 1 && (h == b - 1 <==> b - 1 < W)
    ensures b * P - (b - 1) * (W - 1) - h <= (if P - p == 1 then P else b * P - (b - 1) * p)
       <==> (p < W || b <= if P - p == 1 then 1 else W)
  {
    assert b * P == (b - 1) * P + P;
    if p < W {
      MulMono(b - 1, p, W - 1);
    } else {
      assert (b - 1) * W == (b - 1) * (W - 1) + (b - 1);
      if b >= 2 && P - p == 1 {
        assert (b - 1) * P == (b - 1) * (W - 1) + 2 * (b - 1);
      }
    }
  }

  /** Two layers of one and two sets, one bank, a batch of two: pinning misses less than MIN. */
  lemma PinBelowMin(refs: seq<int>)
    requires Cyclic(refs, 3, 2 * 3)
    ensures PinMisses(PinnedSets([1, 2], 1), {}, None, refs) == 5
    ensures Opt(1, {}, refs) == 6
  {
    var ns: seq<nat> := [1, 2];
    OneAndTwo(ns);
    PinnedCount(ns, 1);
    PinsSomethingIff(ns, 1);
    PinOnStream(refs, 3, 2, ns, 1);
    MinOnTurns(refs, 3, 2, 1);
  }

  lemma OneAndTwo(ns: seq<nat>)
    requires ns == [1, 2]
    ensures Total(ns) == 3 && SomeLayerFits(ns, 1)
  {
    TotalSnoc(ns, 0);
    TotalSnoc(ns, 1);
    assert ns[..2] == ns && ns[..0] == [];
    assert 1 <= ns[0] <= 1;
  }

  /** One row of the policy table, every entry in closed form. */
  method PolicyRow(layers: seq<Layer>, R: nat, C: nat, batch: nat, W: nat)
    returns (lru: nat, fifo: nat, min: nat, pin: nat)
    requires R >= 1 && C >= 1 && batch >= 1 && W >= 1
    ensures
      var ns := LayerSizes(layers, R, C);
      var P, p := Total(ns), |PinnedSets(ns, W)|;
      && lru == fifo == (if W < P then batch * P else P)
      && min == (if W < P then batch * P - (batch - 1) * (W - 1) - Hits(P, W, batch - 1) else P)
      && pin == (if P - p == 1 then P else batch * P - (batch - 1) * p)
  {
    var refs := Stream(layers, R, C, batch);
    ghost var ns := LayerSizes(layers, R, C);
    ghost var P := Total(ns);
    lru := MissesLru(refs, W);
    fifo := MissesFifo(refs, W);
    var m := MissesMin(refs, W);
    min := m.value;
    pin := MissesPinSmallest(refs, W, layers, R, C);
    LruFifoOnStream(refs, P, batch, W);
    PinOnStream(refs, P, batch, ns, W);
    if W < P {
      MinOnTurns(refs, P, batch, W);
    } else {
      MinAbovePeriod(refs, P, batch, W);
    }
  }

  // ---- the loop order ----

  /** A miss costs the scan and the settle, a hit the select. */
  function WeightCycles(references: nat, misses: nat, missCost: nat, hitCost: nat): int {
    misses * missCost + (references - misses) * hitCost
  }

  /** All misses, no misses, and what one more miss adds. */
  lemma WeightCyclesSpec(references: nat, misses: nat, missCost: nat, hitCost: nat)
    ensures WeightCycles(references, references, missCost, hitCost) == references * missCost
    ensures WeightCycles(references, 0, missCost, hitCost) == references * hitCost
    ensures WeightCycles(references, misses + 1, missCost, hitCost)
         == WeightCycles(references, misses, missCost, hitCost) + missCost - hitCost
  {
    assert (references - references) * hitCost == 0 && 0 * missCost == 0;
    MulSucc(misses + 1, missCost);
    MulSucc(references - misses, hitCost);
  }

  lemma RunIsCyclic(P: nat)
    ensures Cyclic(Run(0, P), P, 1 * P)
  {
    forall i | 0 <= i < P
      ensures i % P == i
    {
      ModShift(0, P, i);
    }
  }

  /** Batched, every set is loaded once whatever the number of banks. */
  lemma BatchedMisses(P: nat, W: nat)
    ensures LruMisses(W, [], Run(0, P)) == P
  {
    RunIsCyclic(P);
    LruFifoOnStream(Run(0, P), P, 1, W);
  }

  /** Putting the batch inside divides LRU's misses by the batch exactly below the period. */
  lemma BatchingDividesIff(refs: seq<int>, P: nat, batch: nat, W: nat)
    requires Cyclic(refs, P, batch * P)
    ensures LruMisses(W, [], Run(0, P)) * batch == LruMisses(W, [], refs) <==> W < P || batch <= 1 || P == 0
  {
    BatchedMisses(P, W);
    LruFifoOnStream(refs, P, batch, W);
    DividesIff(P, batch);
  }

  lemma DividesIff(P: nat, b: nat)
    ensures P * b == b * P
    ensures P * b == (if b == 0 then 0 else P) <==> b <= 1 || P == 0
  {
    if b >= 2 {
      assert P * b == P + P * (b - 1) && P * (b - 1) == P + P * (b - 2);
      assert P * (b - 2) >= 0;
    }
  }

  /** The batched order never spends more weight cycles, and below the period it spends exactly 1/batch. */
  lemma BatchingSavesCycles(refs: seq<int>, P: nat, batch: nat, W: nat, missCost: nat, hitCost: nat)
    requires Cyclic(refs, P, batch * P) && batch >= 1
    ensures
      var serial := WeightCycles(|refs|, LruMisses(W, [], refs), missCost, hitCost);
      var batched := WeightCycles(P, LruMisses(W, [], Run(0, P)), missCost, hitCost);
      batched <= serial && (W < P ==> batched * batch == serial)
  {
    BatchedMisses(P, W);
    LruFifoOnStream(refs, P, batch, W);
    TurnsLeft(batch, P);
    CyclesArithmetic(P, batch, missCost, hitCost);
  }

  lemma CyclesArithmetic(P: nat, b: nat, missCost: nat, hitCost: nat)
    requires b >= 1
    ensures P * missCost <= (b * P) * missCost && (P * missCost) * b == (b * P) * missCost
    ensures (b * P - P) * hitCost >= 0
  {
    var saved := (b - 1) * P;
    assert saved == b * P - P && saved >= 0;
    assert saved * missCost >= 0 && saved * hitCost >= 0;
    assert (b * P) * missCost == P * missCost + saved * missCost;
  }
}
