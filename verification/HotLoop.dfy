/** The census's choice of a kernel's hot loop among its backward branches. */
module HotLoop {
  import opened Options
  import opened Sorting

  /**
   A disassembled instruction: its mnemonic, the target if it is a branch or jump to a known address,
   and whether it addresses the stack.
   */
  datatype Ins = Ins(addr: int, op: string, target: Option<int>, stack: bool)

  /** A backward branch's span. */
  datatype Edge = Edge(start: int, end: int) {
    function Span(): int {
      end - start
    }

    /** Contains another branch's whole span, and is not that very span. */
    predicate Contains(o: Edge) {
      start <= o.start && o.end <= end && o != this
    }
  }

  datatype Stats = Stats(ins: nat, fp: nat, loads: nat, stores: nat, stack: nat, split: nat, join: nat)

  predicate IsFloat(op: string) {
    op != "" && op[0] == 'f' && op !in {"flw", "fsw", "fmv.s", "fmv.w.x", "fmv.x.w"}
  }

  function Count(loop: seq<Ins>, p: Ins -> bool): (n: nat)
    ensures n <= |loop|
  {
    if loop == [] then 0 else (if p(loop[0]) then 1 else 0) + Count(loop[1..], p)
  }

  function LoopStats(loop: seq<Ins>): Stats {
    Stats(|loop|,
          Count(loop, (i: Ins) => IsFloat(i.op)),
          Count(loop, (i: Ins) => i.op == "flw"),
          Count(loop, (i: Ins) => i.op == "fsw"),
          Count(loop, (i: Ins) => i.stack),
          Count(loop, (i: Ins) => i.op == "vx_split") + Count(loop, (i: Ins) => i.op == "vx_split_n"),
          Count(loop, (i: Ins) => i.op == "vx_join"))
  }

  function LoopBody(body: seq<Ins>, e: Edge): seq<Ins> {
    if body == [] then []
    else (if e.start <= body[0].addr <= e.end then [body[0]] else []) + LoopBody(body[1..], e)
  }

  function StatsOf(body: seq<Ins>, e: Edge): Stats {
    LoopStats(LoopBody(body, e))
  }

  /** Float mnemonics start with f, apart from two memory accesses and three moves. */
  lemma IsFloatIff(op: string)
    ensures IsFloat(op) <==> "f" <= op && op != "flw" && op != "fsw" && op != "fmv.s" && op != "fmv.w.x" && op != "fmv.x.w"
  {
    assert "f" <= op ==> op != "" && op[0] == 'f';
    assert op != "" && op[0] == 'f' ==> op[..1] == "f";
  }

  lemma {:induction false} CountConcat(a: seq<Ins>, b: seq<Ins>, p: Ins -> bool)
    ensures Count(a + b, p) == Count(a, p) + Count(b, p)
  {
    if a == [] {
      assert a + b == b;
    } else {
      assert (a + b)[1..] == a[1..] + b;
      CountConcat(a[1..], b, p);
    }
  }

  lemma CountOne(i: Ins, p: Ins -> bool)
    ensures Count([i], p) == if p(i) then 1 else 0
  {
    assert [i][1..] == [];
  }

  /** The figures of one instruction, by its mnemonic. */
  lemma StatsOne(i: Ins)
    ensures LoopStats([i]) == Stats(1,
                                    if IsFloat(i.op) then 1 else 0,
                                    if i.op == "flw" then 1 else 0,
                                    if i.op == "fsw" then 1 else 0,
                                    if i.stack then 1 else 0,
                                    if i.op == "vx_split" || i.op == "vx_split_n" then 1 else 0,
                                    if i.op == "vx_join" then 1 else 0)
  {
    CountOne(i, (i: Ins) => IsFloat(i.op));
    CountOne(i, (i: Ins) => i.op == "flw");
    CountOne(i, (i: Ins) => i.op == "fsw");
    CountOne(i, (i: Ins) => i.stack);
    CountOne(i, (i: Ins) => i.op == "vx_split");
    CountOne(i, (i: Ins) => i.op == "vx_split_n");
    CountOne(i, (i: Ins) => i.op == "vx_join");
  }

  /** The figures of a stretch of code are the sums of its parts' figures. */
  lemma StatsConcat(a: seq<Ins>, b: seq<Ins>)
    ensures
      var s, t := LoopStats(a), LoopStats(b);
      LoopStats(a + b) == Stats(s.ins + t.ins, s.fp + t.fp, s.loads + t.loads, s.stores + t.stores,
                                s.stack + t.stack, s.split + t.split, s.join + t.join)
  {
    CountConcat(a, b, (i: Ins) => IsFloat(i.op));
    CountConcat(a, b, (i: Ins) => i.op == "flw");
    CountConcat(a, b, (i: Ins) => i.op == "fsw");
    CountConcat(a, b, (i: Ins) => i.stack);
    CountConcat(a, b, (i: Ins) => i.op == "vx_split");
    CountConcat(a, b, (i: Ins) => i.op == "vx_split_n");
    CountConcat(a, b, (i: Ins) => i.op == "vx_join");
  }

  /** A loop's body, piece by piece. */
  lemma {:induction false} LoopBodyConcat(a: seq<Ins>, b: seq<Ins>, e: Edge)
    ensures LoopBody(a + b, e) == LoopBody(a, e) + LoopBody(b, e)
  {
    if a == [] {
      assert a + b == b;
    } else {
      assert (a + b)[1..] == a[1..] + b;
      LoopBodyConcat(a[1..], b, e);
    }
  }

  /** An instruction belongs to the loop iff its address lies in the span. */
  lemma LoopBodyOne(i: Ins, e: Edge)
    ensures LoopBody([i], e) == if e.start <= i.addr <= e.end then [i] else []
  {
    assert [i][1..] == [];
  }

  /** Containing another span: both ends within, and not both equal. */
  lemma ContainsIff(a: Edge, o: Edge)
    ensures a.Contains(o) <==> a.start <= o.start && o.end <= a.end && (a.start < o.start || o.end < a.end)
  {
  }

  // ---- back edges ----

  predicate IsBack(i: Ins, lo: int) {
    i.target.Some? && lo <= i.target.value < i.addr
  }

  /** The backward branches in the order they stand. */
  function Collected(body: seq<Ins>, lo: int): (out: seq<Edge>)
    ensures forall e :: e in out ==> lo <= e.start < e.end
  {
    if body == [] then []
    else
      var n := |body| - 1;
      Collected(body[..n], lo) + (if IsBack(body[n], lo) then [Edge(body[n].target.value, body[n].addr)] else [])
  }

  /** The listed edges are exactly those of the backward branches. */
  lemma {:induction false} CollectedIff(body: seq<Ins>, lo: int, e: Edge)
    ensures e in Collected(body, lo) <==> exists i :: i in body && i.target.Some? && lo <= i.target.value < i.addr && e == Edge(i.target.value, i.addr)
  {
    if body != [] {
      var n := |body| - 1;
      CollectedIff(body[..n], lo, e);
      assert body == body[..n] + [body[n]];
    }
  }

  predicate Shorter(a: Edge, b: Edge) {
    a.Span() <= b.Span()
  }

  function BackEdges(body: seq<Ins>, lo: int): seq<Edge> {
    Sort(Collected(body, lo), Shorter)
  }

  method CollectBackEdges(body: seq<Ins>, lo: int) returns (out: seq<Edge>)
    ensures out == BackEdges(body, lo)
  {
    out := [];
    for k := 0 to |body|
      invariant out == Collected(body[..k], lo)
    {
      assert body[..k + 1][..k] == body[..k];
      if body[k].target.Some? && lo <= body[k].target.value < body[k].addr {
        out := out + [Edge(body[k].target.value, body[k].addr)];
      }
    }
    assert body[..|body|] == body;
    out := Sort(out, Shorter);
  }

  lemma BackEdgesSorted(body: seq<Ins>, lo: int)
    ensures SortedBy(BackEdges(body, lo), Shorter)
  {
    assert TotalPreorder(Shorter);
    SortSorted(Collected(body, lo), Shorter);
  }

  /** Sorting neither adds nor drops an edge. */
  lemma BackEdgesIff(body: seq<Ins>, lo: int, e: Edge)
    ensures e in BackEdges(body, lo) <==> exists i :: i in body && i.target.Some? && lo <= i.target.value < i.addr && e == Edge(i.target.value, i.addr)
  {
    SortElems(Collected(body, lo), Shorter, e);
    CollectedIff(body, lo, e);
  }

  /** Innermost first: no edge contains a later one. */
  lemma InnermostFirst(body: seq<Ins>, lo: int, i: nat, j: nat)
    requires i < j < |BackEdges(body, lo)|
    ensures !BackEdges(body, lo)[i].Contains(BackEdges(body, lo)[j])
  {
    BackEdgesSorted(body, lo);
  }

  // ---- innermost ----

  predicate Innermost(edges: seq<Edge>, e: Edge) {
    forall o :: o in edges ==> !e.Contains(o)
  }

  /** Every branch's span contains, or is, an innermost one. */
  lemma {:induction false} InnermostInside(edges: seq<Edge>, e: Edge) returns (i: Edge)
    requires e in edges && forall o :: o in edges ==> o.start < o.end
    ensures i in edges && Innermost(edges, i) && e.start <= i.start && i.end <= e.end
    decreases e.Span()
  {
    if o :| o in edges && e.Contains(o) {
      i := InnermostInside(edges, o);
    } else {
      i := e;
    }
  }

  /** The shortest span is innermost. */
  lemma ShortestIsInnermost(edges: seq<Edge>)
    requires edges != [] && SortedBy(edges, Shorter)
    ensures Innermost(edges, edges[0])
  {
    forall o | o in edges
      ensures !edges[0].Contains(o)
    {
      var k :| 0 <= k < |edges| && edges[k] == o;
      assert k > 0 ==> Shorter(edges[0], edges[k]);
    }
  }

  /** An innermost loop that does float work. */
  ghost predicate Candidate(body: seq<Ins>, edges: seq<Edge>, e: Edge) {
    e in edges && Innermost(edges, e) && StatsOf(body, e).fp > 0
  }

  /** More float work, or as much in a shorter span. */
  predicate Hotter(body: seq<Ins>, a: Edge, b: Edge) {
    var f, g := StatsOf(body, a).fp, StatsOf(body, b).fp;
    f > g || (f == g && a.Span() < b.Span())
  }

  /** edges[k] has the most float work of the candidates, then the shortest span, then comes first. */
  ghost predicate Hottest(body: seq<Ins>, edges: seq<Edge>, n: nat, k: nat)
    requires n <= |edges|
  {
    k < n && Candidate(body, edges, edges[k]) &&
    forall j :: 0 <= j < n && Candidate(body, edges, edges[j]) ==>
      var f, g := StatsOf(body, edges[j]).fp, StatsOf(body, edges[k]).fp;
      var s, t := edges[j].end - edges[j].start, edges[k].end - edges[k].start;
      f < g || (f == g && (s > t || (s == t && j >= k)))
  }

  lemma HottestStep(body: seq<Ins>, edges: seq<Edge>, n: nat, k: nat)
    requires n < |edges| && Hottest(body, edges, n, k)
    ensures Hottest(body, edges, n + 1,
                    if Candidate(body, edges, edges[n]) && Hotter(body, edges[n], edges[k]) then n else k)
  {
  }

  /** The best candidate among the first n edges, if any. */
  ghost predicate BestSoFar(body: seq<Ins>, edges: seq<Edge>, n: nat, best: Option<Edge>, at: nat)
    requires n <= |edges|
  {
    match best
    case Some(e) => Hottest(body, edges, n, at) && e == edges[at]
    case None => forall j :: 0 <= j < n ==> !Candidate(body, edges, edges[j])
  }

  lemma BestStep(body: seq<Ins>, edges: seq<Edge>, n: nat, best: Option<Edge>, at: nat)
    requires n < |edges| && BestSoFar(body, edges, n, best, at)
    ensures
      var e := edges[n];
      if Candidate(body, edges, e) && (best.None? || Hotter(body, e, best.value))
      then BestSoFar(body, edges, n + 1, Some(e), n) else BestSoFar(body, edges, n + 1, best, at)
  {
    if best.Some? {
      HottestStep(body, edges, n, at);
    }
  }

  /**
   What the census describes is always an innermost loop: the hottest candidate if there is one, and
   otherwise the shortest loop of all.
   */
  method FindHotLoop(body: seq<Ins>, lo: int) returns (r: Option<Stats>)
    ensures r.None? <==> BackEdges(body, lo) == []
    ensures r.Some? ==> exists e :: e in BackEdges(body, lo) && Innermost(BackEdges(body, lo), e) && r.value == StatsOf(body, e)
    ensures r.Some? && r.value.fp > 0 ==>
              var edges := BackEdges(body, lo);
              exists k: nat :: Hottest(body, edges, |edges|, k) && r.value == StatsOf(body, edges[k])
    ensures r.Some? && r.value.fp == 0 ==>
              && (forall e :: !Candidate(body, BackEdges(body, lo), e))
              && r.value == StatsOf(body, BackEdges(body, lo)[0])
  {
    var edges := CollectBackEdges(body, lo);
    if edges == [] {
      return None;
    }
    BackEdgesSorted(body, lo);
    ShortestIsInnermost(edges);
    var best: Option<Edge> := None;
    ghost var at := 0;
    for k := 0 to |edges|
      invariant BestSoFar(body, edges, k, best, at)
    {
      var e := edges[k];
      BestStep(body, edges, k, best, at);
      if !Innermost(edges, e) {
        continue;
      }
      if StatsOf(body, e).fp == 0 {
        continue;
      }
      if best.None? || Hotter(body, e, best.value) {
        best := Some(e);
        at := k;
      }
    }
    if best.Some? {
      return Some(StatsOf(body, best.value));
    }
    assert forall e :: !Candidate(body, edges, e);
    assert edges[0] in edges;
    return Some(StatsOf(body, edges[0]));
  }

  const FLOAT_THEN_TWO_LOOPS := [Ins(0, "fadd.s", None, false), Ins(4, "addi", None, false),
                                 Ins(8, "bne", Some(4), false), Ins(12, "bne", Some(0), false)]

  lemma TwoLoopsEdges()
    ensures BackEdges(FLOAT_THEN_TWO_LOOPS, 0) == [Edge(4, 8), Edge(0, 12)]
  {
    var body, inner, outer := FLOAT_THEN_TWO_LOOPS, Edge(4, 8), Edge(0, 12);
    assert body[..3][..2] == body[..2] && body[..2][..1] == body[..1] && body[..1][..0] == [];
    assert Collected(body[..1], 0) == [];
    assert Collected(body[..2], 0) == [] + [];
    assert body[..3][2] == body[2] && IsBack(body[2], 0);
    assert Collected(body[..3], 0) == [] + [inner];
    assert Collected(body, 0) == [inner, outer];
    assert [inner, outer][1..] == [outer] && [outer][1..] == [];
    assert Sort([outer], Shorter) == [outer];
  }

  lemma TwoLoopsBodies()
    ensures LoopBody(FLOAT_THEN_TWO_LOOPS, Edge(4, 8)) == FLOAT_THEN_TWO_LOOPS[1..3]
    ensures LoopBody(FLOAT_THEN_TWO_LOOPS, Edge(0, 12)) == FLOAT_THEN_TWO_LOOPS
  {
    var body, inner, outer := FLOAT_THEN_TWO_LOOPS, Edge(4, 8), Edge(0, 12);
    assert body[1..][1..] == body[2..] && body[2..][1..] == body[3..] && body[3..][1..] == [];
    assert LoopBody(body[3..], inner) == [] && LoopBody(body[3..], outer) == [body[3]];
    assert LoopBody(body[2..], inner) == [body[2]] && LoopBody(body[2..], outer) == [body[2], body[3]];
    assert LoopBody(body[1..], inner) == [body[1], body[2]];
    assert LoopBody(body[1..], outer) == [body[1], body[2], body[3]];
  }

  lemma TwoLoopsFloat()
    ensures StatsOf(FLOAT_THEN_TWO_LOOPS, Edge(4, 8)).fp == 0 && StatsOf(FLOAT_THEN_TWO_LOOPS, Edge(0, 12)).fp == 1
  {
    var body := FLOAT_THEN_TWO_LOOPS;
    TwoLoopsBodies();
    var p := (i: Ins) => IsFloat(i.op);
    assert body[1..3][1..] == body[2..3] && body[2..3][1..] == [];
    assert Count(body[2..3], p) == 0;
    assert body[1..][1..] == body[2..] && body[2..][1..] == body[3..] && body[3..][1..] == [];
    assert Count(body[3..], p) == 0 && Count(body[2..], p) == 0 && Count(body[1..], p) == 0;
  }

  /** Float work outside every innermost loop is not seen: the choice falls back to the shortest loop. */
  lemma OuterFloatIsNotSeen()
    ensures
      var edges := BackEdges(FLOAT_THEN_TWO_LOOPS, 0);
      && |edges| == 2 && StatsOf(FLOAT_THEN_TWO_LOOPS, edges[1]).fp > 0
      && forall e :: !Candidate(FLOAT_THEN_TWO_LOOPS, edges, e)
  {
    TwoLoopsEdges();
    TwoLoopsFloat();
    assert Edge(0, 12).Contains(Edge(4, 8));
    var edges := BackEdges(FLOAT_THEN_TWO_LOOPS, 0);
    assert edges[0] in edges;
  }
}
