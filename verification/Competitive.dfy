/**
 How far LRU and FIFO can fall behind the best schedule, also one with fewer banks.

 References are cut into phases: a phase ends just before the reference that would be its (k+1)-st
 distinct one. The number of first-in-phase references bounds LRU and FIFO with k banks from above,
 and a potential argument bounds it against any schedule with h <= k banks.
 */
module Competitive {
  import opened Arithmetic
  import opened Schedules
  import opened BankLists
  import opened Policies

  /** The ids of the current phase after a reference to r. */
  ghost function NextSeen(k: nat, seen: set<int>, r: int): set<int> {
    if r in seen then seen else if |seen| < k then seen + {r} else {r}
  }

  /** References that are the first of their id in the current phase; seen holds the phase's ids so far. */
  ghost function FirstInPhase(k: nat, seen: set<int>, refs: seq<int>): nat
    decreases |refs|
  {
    if refs == [] then 0
    else (if refs[0] in seen then 0 else 1) + FirstInPhase(k, NextSeen(k, seen, refs[0]), refs[1..])
  }

  /** The back n banks hold exactly the given ids. */
  ghost predicate BackHolds(q: seq<int>, n: nat, ids: set<int>) {
    n <= |q| && Elems(q[|q| - n..]) == ids
  }

  lemma PushBack(k: nat, q: seq<int>, n: nat, ids: set<int>, r: int)
    requires BackHolds(q, n, ids) && n < k && |q| <= k
    ensures BackHolds(Push(k, q, r), n + 1, ids + {r})
  {
    var t := Push(k, q, r);
    assert t[|t| - (n + 1)..] == q[|q| - n..] + [r];
    PushElems(q[|q| - n..], r);
  }

  /** A set moved to the back stays among, or joins, the most recent ones. */
  lemma TouchBack(q: seq<int>, n: nat, ids: set<int>, r: int)
    requires Distinct(q) && BackHolds(q, n, ids) && r in q
    ensures BackHolds(Without(q, r) + [r], if r in ids then n else n + 1, ids + {r})
  {
    var front, back := q[..|q| - n], q[|q| - n..];
    assert q == front + back;
    var f := WithoutTop(front, back, r);
    WithoutDistinct(back, r);
    var t := Without(back, r) + [r];
    PushElems(Without(back, r), r);
    assert r in ids <==> r in back;
    assert Without(q, r) + [r] == f + t;
    assert (f + t)[|f|..] == t;
  }

  lemma LruStepDistinct(W: nat, q: seq<int>, r: int)
    requires Distinct(q)
    ensures Distinct(LruStep(W, q, r))
  {
    WithoutDistinct(q, r);
    assert r !in Elems(Without(q, r));
  }

  lemma LastBack(q: seq<int>, r: int)
    requires q != [] && q[|q| - 1] == r
    ensures BackHolds(q, 1, {r})
  {
    assert q[|q| - 1..] == [r];
  }

  lemma LruStaysRecent(k: nat, q: seq<int>, seen: set<int>, r: int)
    requires Distinct(q) && BackHolds(q, |seen|, seen) && r in seen
    ensures r in q && BackHolds(LruStep(k, q, r), |seen|, seen)
  {
    assert r in q[|q| - |seen|..];
    TouchBack(q, |seen|, seen, r);
    assert seen + {r} == seen;
  }

  lemma LruBecomesRecent(k: nat, q: seq<int>, seen: set<int>, r: int)
    requires Distinct(q) && |q| <= k && BackHolds(q, |seen|, seen) && r !in seen && |seen| < k
    ensures BackHolds(LruStep(k, q, r), |seen| + 1, seen + {r})
  {
    if r in q {
      TouchBack(q, |seen|, seen, r);
    } else {
      PushBack(k, q, |seen|, seen, r);
    }
  }

  /** The phase's ids stay, or start again as, LRU's most recent ones. */
  lemma LruStepBack(k: nat, q: seq<int>, seen: set<int>, r: int)
    requires k >= 1 && Distinct(q) && |q| <= k && BackHolds(q, |seen|, seen)
    ensures r in seen ==> r in q
    ensures var seen' := NextSeen(k, seen, r); BackHolds(LruStep(k, q, r), |seen'|, seen')
  {
    if r in seen {
      LruStaysRecent(k, q, seen, r);
    } else if |seen| < k {
      LruBecomesRecent(k, q, seen, r);
    } else {
      LastBack(LruStep(k, q, r), r);
    }
  }

  /** The phase's ids are LRU's most recent ones, so LRU misses only at first-in-phase references. */
  lemma {:induction false} LruWithinPhases(k: nat, q: seq<int>, seen: set<int>, refs: seq<int>)
    requires k >= 1 && Distinct(q) && |q| <= k && BackHolds(q, |seen|, seen)
    ensures LruMisses(k, q, refs) <= FirstInPhase(k, seen, refs)
    decreases |refs|
  {
    if refs != [] {
      var r := refs[0];
      LruStepDistinct(k, q, r);
      LruStepBack(k, q, seen, r);
      LruWithinPhases(k, LruStep(k, q, r), NextSeen(k, seen, r), refs[1..]);
    }
  }

  /** The sets FIFO loaded during the phase, after a reference to r. */
  ghost function NextLoaded(k: nat, q: seq<int>, seen: set<int>, loaded: set<int>, r: int): set<int> {
    (if r !in seen && |seen| >= k then {} else loaded) + (if r in q then {} else {r})
  }

  /** What FIFO's bookkeeping must keep over one reference. */
  ghost predicate FifoStepOk(k: nat, q: seq<int>, seen: set<int>, loaded: set<int>, r: int) {
    var t, seen', loaded' := FifoStep(k, q, r), NextSeen(k, seen, r), NextLoaded(k, q, seen, loaded, r);
    && |seen'| <= k && loaded' <= seen' && BackHolds(t, |loaded'|, loaded')
    && (if r in q then 0 else 1) + |loaded| + |seen'| <= (if r in seen then 0 else 1) + |seen| + |loaded'|
  }

  lemma FifoNewPhase(k: nat, q: seq<int>, seen: set<int>, loaded: set<int>, r: int)
    requires k >= 1 && |seen| == k && loaded <= seen && r !in seen
    ensures FifoStepOk(k, q, seen, loaded, r)
  {
    var t, loaded' := FifoStep(k, q, r), NextLoaded(k, q, seen, loaded, r);
    SubsetCard(loaded, seen);
    if r in q {
      assert loaded' == {} && t[|t|..] == [];
    } else {
      assert loaded' == {r};
      LastBack(t, r);
    }
  }

  lemma FifoSamePhaseMiss(k: nat, q: seq<int>, seen: set<int>, loaded: set<int>, r: int)
    requires |q| <= k && |seen| <= k && loaded <= seen && BackHolds(q, |loaded|, loaded)
    requires r !in q && (r in seen || |seen| < k)
    ensures FifoStepOk(k, q, seen, loaded, r)
  {
    NotLoaded(q, loaded, r);
    var seen' := NextSeen(k, seen, r);
    assert seen' == seen + {r};
    assert NextLoaded(k, q, seen, loaded, r) == loaded + {r};
    SubsetCard(loaded + {r}, seen');
    PushBack(k, q, |loaded|, loaded, r);
  }

  /** Every load of FIFO is matched by a new id of the phase, sooner or later. */
  lemma FifoStepBack(k: nat, q: seq<int>, seen: set<int>, loaded: set<int>, r: int)
    requires k >= 1 && |q| <= k && |seen| <= k && loaded <= seen && BackHolds(q, |loaded|, loaded)
    ensures FifoStepOk(k, q, seen, loaded, r)
  {
    if r !in seen && |seen| == k {
      FifoNewPhase(k, q, seen, loaded, r);
    } else if r !in q {
      FifoSamePhaseMiss(k, q, seen, loaded, r);
    } else {
      assert NextLoaded(k, q, seen, loaded, r) == loaded;
    }
  }

  lemma NotLoaded(q: seq<int>, loaded: set<int>, r: int)
    requires BackHolds(q, |loaded|, loaded) && r !in q
    ensures r !in loaded
  {
    assert r !in q[|q| - |loaded|..];
  }

  /** FIFO may miss an id again within a phase, but only in place of one it did not have to load. */
  lemma {:induction false} FifoWithinPhases(k: nat, q: seq<int>, seen: set<int>, loaded: set<int>, refs: seq<int>)
    requires k >= 1 && |q| <= k && |seen| <= k
    requires loaded <= seen && BackHolds(q, |loaded|, loaded)
    ensures FifoMisses(k, q, refs) + |loaded| <= FirstInPhase(k, seen, refs) + |seen|
    decreases |refs|
  {
    SubsetCard(loaded, seen);
    if refs != [] {
      var r := refs[0];
      FifoStepBack(k, q, seen, loaded, r);
      FifoWithinPhases(k, FifoStep(k, q, r), NextSeen(k, seen, r), NextLoaded(k, q, seen, loaded, r), refs[1..]);
    }
  }

  /**
   The potential k*|S \ seen| + (h-1)*|seen| pays for every first-in-phase reference the schedule
   does not miss: a hit uses up a set held over from before the phase, and there are at most h-1 of
   those when a phase starts.
   */
  lemma {:induction false} PhasesAgainstOpt(k: nat, h: nat, S: set<int>, seen: set<int>, refs: seq<int>)
    requires 1 <= h <= k && |S| <= h && |seen| <= k
    ensures (k - h + 1) * FirstInPhase(k, seen, refs) <= k * Opt(h, S, refs) + k * |S - seen| + (h - 1) * |seen|
    decreases |refs|
  {
    if refs != [] {
      var r, rest := refs[0], refs[1..];
      var S' := OptLower(h, S, refs);
      var seen' := NextSeen(k, seen, r);
      PhasesAgainstOpt(k, h, S', seen', rest);
      StepPays(k, h, S, S', seen, r, FirstInPhase(k, seen, refs), FirstInPhase(k, seen', rest),
               Opt(h, S, refs), Opt(h, S', rest));
    }
  }

  /** One reference: what it may cost the phases is paid by the schedule's miss or by the potential. */
  lemma StepPays(k: nat, h: nat, S: set<int>, S': set<int>, seen: set<int>, r: int, f: nat, f': nat, o: nat, o': nat)
    requires 1 <= h <= k && |S| <= h && |seen| <= k && Step(h, S, r, S')
    requires f == (if r in seen then 0 else 1) + f' && o == Cost(S, r) + o'
    requires var seen' := NextSeen(k, seen, r); (k - h + 1) * f' <= k * o' + k * |S' - seen'| + (h - 1) * |seen'|
    ensures (k - h + 1) * f <= k * o + k * |S - seen| + (h - 1) * |seen|
  {
    HeldOver(h, S, r, S', seen);
    if r in seen {
      SeenStep(k, h, f', o', Cost(S, r), |S' - seen|, |S - seen|, |seen|);
    } else if |seen| < k {
      SamePhaseStep(k, h, f', o', Cost(S, r), |S' - (seen + {r})|, |S - seen|, |seen|);
    } else {
      NewPhaseStep(k, h, f', o', Cost(S, r), |S' - {r}|, |S - seen|);
    }
  }

  /** How one step changes the number of sets held over from before the phase. */
  lemma HeldOver(h: nat, S: set<int>, r: int, S': set<int>, seen: set<int>)
    requires Step(h, S, r, S')
    ensures r in seen ==> |S' - seen| <= |S - seen|
    ensures r !in seen ==> |S' - (seen + {r})| + 1 <= |S - seen| + Cost(S, r)
    ensures r !in seen ==> 1 <= |S - seen| + Cost(S, r)
    ensures |S' - {r}| + 1 <= h
  {
    if r in seen {
      SubsetCard(S' - seen, S - seen);
    } else if r in S {
      SubsetCard(S' - (seen + {r}), S - seen - {r});
    } else {
      SubsetCard(S' - (seen + {r}), S - seen);
    }
  }

  lemma SeenStep(k: nat, h: nat, f: nat, o: nat, c: nat, y': nat, y: nat, s: nat)
    requires 1 <= h <= k && y' <= y
    requires (k - h + 1) * f <= k * o + k * y' + (h - 1) * s
    ensures (k - h + 1) * f <= k * (c + o) + k * y + (h - 1) * s
  {
    MulMono(k, y', y);
    MulMono(k, o, c + o);
  }

  lemma SamePhaseStep(k: nat, h: nat, f: nat, o: nat, c: nat, y': nat, y: nat, s: nat)
    requires 1 <= h <= k && c <= 1 && y' + 1 <= y + c
    requires (k - h + 1) * f <= k * o + k * y' + (h - 1) * (s + 1)
    ensures (k - h + 1) * (1 + f) <= k * (c + o) + k * y + (h - 1) * s
  {
    MulMono(k, y' + 1, y + c);
    assert k * (y' + 1) == k * y' + k && k * (y + c) == k * y + k * c && k * (c + o) == k * c + k * o;
    assert (k - h + 1) * (1 + f) == (k - h + 1) + (k - h + 1) * f;
    assert (h - 1) * (s + 1) == (h - 1) * s + (h - 1);
  }

  lemma NewPhaseStep(k: nat, h: nat, f: nat, o: nat, c: nat, y': nat, y: nat)
    requires 1 <= h <= k && c <= 1 && 1 <= y + c && y' + 1 <= h
    requires (k - h + 1) * f <= k * o + k * y' + (h - 1) * 1
    ensures (k - h + 1) * (1 + f) <= k * (c + o) + k * y + (h - 1) * k
  {
    MulMono(k, 1, y + c);
    MulMono(k, y', h - 1);
    assert k * (y + c) == k * y + k * c && k * (c + o) == k * c + k * o;
    assert (k - h + 1) * (1 + f) == (k - h + 1) + (k - h + 1) * f;
    assert k * (h - 1) == (h - 1) * k;
  }

  /** LRU with k banks against any schedule with h <= k banks: at most k/(k-h+1) times the misses. */
  lemma LruCompetitive(k: nat, h: nat, refs: seq<int>)
    requires 1 <= h <= k
    ensures (k - h + 1) * LruMisses(k, [], refs) <= k * Opt(h, {}, refs)
    ensures Opt(k, {}, refs) <= LruMisses(k, [], refs) <= k * Opt(k, {}, refs)
  {
    assert Elems([]) == {};
    MinBoundsLru(k, [], refs);
    LruWithinPhases(k, [], {}, refs);
    var f := FirstInPhase(k, {}, refs);
    PhasesAgainstOpt(k, h, {}, {}, refs);
    PhasesAgainstOpt(k, k, {}, {}, refs);
    MulMono(k - h + 1, LruMisses(k, [], refs), f);
  }

  lemma FifoCompetitive(k: nat, h: nat, refs: seq<int>)
    requires 1 <= h <= k
    ensures (k - h + 1) * FifoMisses(k, [], refs) <= k * Opt(h, {}, refs)
    ensures Opt(k, {}, refs) <= FifoMisses(k, [], refs) <= k * Opt(k, {}, refs)
  {
    assert Elems([]) == {};
    MinBoundsFifo(k, [], refs);
    FifoWithinPhases(k, [], {}, {}, refs);
    var f := FirstInPhase(k, {}, refs);
    PhasesAgainstOpt(k, h, {}, {}, refs);
    PhasesAgainstOpt(k, k, {}, {}, refs);
    MulMono(k - h + 1, FifoMisses(k, [], refs), f);
  }
}
