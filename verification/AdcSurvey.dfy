/**
 The converter survey: which parts can do a job, what they cost, and the staircase of cheapest parts
 over the sample rate. Arithmetic is over exact reals.
 */
module AdcSurvey {
  import opened Options
  import opened Sorting

  /** Sample rate in GS/s, SNDR in dB, power in mW, year of publication. */
  datatype Row = Row(fs: real, sndr: real, power: real, year: int)

  type Part = r: Row | r.fs > 0.0 witness Row(1.0, 0.0, 0.0, 0)

  const GIGA := 1000000000.0
  const RATE_KEPT := 0.1
  const RANK := 5

  /** The SNDR of an ideal converter of that many bits. */
  function SndrDb(bits: real): real {
    6.02 * bits + 1.76
  }

  /** Joules a sample. */
  function SampleJ(r: Part): real {
    r.power * 0.001 / (r.fs * GIGA)
  }

  predicate Cheaper(a: Part, b: Part) {
    SampleJ(a) <= SampleJ(b)
  }

  predicate MeetsBits(r: Part, bits: real) {
    r.sndr >= SndrDb(bits) - 0.000001
  }

  predicate FastEnough(r: Part, fsHz: real) {
    r.fs * GIGA >= fsHz * (1.0 - 0.000000001)
  }

  predicate CanDo(r: Part, bits: real, fsHz: real, year: Option<int>) {
    MeetsBits(r, bits) && FastEnough(r, fsHz) && (year.None? || r.year <= year.value)
  }

  function Filter(table: seq<Part>, bits: real, fsHz: real, year: Option<int>): seq<Part> {
    if table == [] then []
    else (if CanDo(table[0], bits, fsHz, year) then [table[0]] else []) + Filter(table[1..], bits, fsHz, year)
  }

  /** The parts that can do the job, cheapest sample first. */
  function Able(bits: real, fsHz: real, table: seq<Part>, year: Option<int>): seq<Part> {
    Sort(Filter(table, bits, fsHz, year), Cheaper)
  }

  /** Best and fifth-best joules a sample, or the last there is; fails when no part can do the job. */
  function PriceJ(bits: real, fsHz: real, table: seq<Part>): Option<(real, real)> {
    var rows := Able(bits, fsHz, table, None);
    if rows == [] then None
    else Some((SampleJ(rows[0]), SampleJ(rows[(if |rows| < RANK then |rows| else RANK) - 1])))
  }

  lemma CheaperTotal()
    ensures TotalPreorder(Cheaper)
  {
  }

  lemma {:induction false} FilterElems(table: seq<Part>, bits: real, fsHz: real, year: Option<int>, r: Part)
    ensures r in Filter(table, bits, fsHz, year) <==> r in table && CanDo(r, bits, fsHz, year)
  {
    if table != [] {
      FilterElems(table[1..], bits, fsHz, year, r);
      assert table == [table[0]] + table[1..];
    }
  }

  /** Exactly the parts that can do the job, each as often as listed, cheapest first, ties in table order. */
  lemma AbleSpec(bits: real, fsHz: real, table: seq<Part>, year: Option<int>)
    ensures forall r :: r in Able(bits, fsHz, table, year) <==> r in table && CanDo(r, bits, fsHz, year)
    ensures multiset(Able(bits, fsHz, table, year)) == multiset(Filter(table, bits, fsHz, year))
    ensures SortedBy(Able(bits, fsHz, table, year), Cheaper)
    ensures forall e :: Ties(Able(bits, fsHz, table, year), e, Cheaper) == Ties(Filter(table, bits, fsHz, year), e, Cheaper)
  {
    var f := Filter(table, bits, fsHz, year);
    CheaperTotal();
    SortSorted(f, Cheaper);
    SortMultiset(f, Cheaper);
    forall e
      ensures Ties(Sort(f, Cheaper), e, Cheaper) == Ties(f, e, Cheaper)
    {
      SortStable(f, e, Cheaper);
    }
    forall r
      ensures r in Sort(f, Cheaper) <==> r in table && CanDo(r, bits, fsHz, year)
    {
      SortElems(f, Cheaper, r);
      FilterElems(table, bits, fsHz, year, r);
    }
  }

  /** An able part by its effective bits, its rate and its year, in figures. */
  lemma AbleIff(bits: real, fsHz: real, table: seq<Part>, year: Option<int>, r: Part)
    ensures r in Able(bits, fsHz, table, year)
       <==> (&& r in table
             && (r.sndr + 0.000001 - 1.76) / 6.02 >= bits
             && r.fs * 1000000000.0 >= fsHz * (1.0 - 0.000000001)
             && (year.None? || r.year <= year.value))
  {
    AbleSpec(bits, fsHz, table, year);
    var e := (r.sndr + 0.000001 - 1.76) / 6.02;
    assert e * 6.02 == r.sndr + 0.000001 - 1.76;
  }

  /** Energy a sample, in joules, times samples a second is the power, in watts. */
  lemma SampleJIsPower(r: Part)
    ensures SampleJ(r) * (r.fs * 1000000000.0) == r.power / 1000.0
  {
    var d := r.fs * GIGA;
    assert (r.power * 0.001) / d * d == r.power * 0.001;
  }

  /** The two prices: the first able part's, and the fifth's or the last one's. */
  lemma PriceRanks(bits: real, fsHz: real, table: seq<Part>)
    ensures
      var rows, price := Able(bits, fsHz, table, None), PriceJ(bits, fsHz, table);
      && (price.None? <==> rows == [])
      && (price.Some? ==> price.value.0 == SampleJ(rows[0]))
      && (|rows| >= 5 ==> price.value.1 == SampleJ(rows[4]))
      && (0 < |rows| < 5 ==> price.value.1 == SampleJ(rows[|rows| - 1]))
  {
  }

  // ---- a dearer job never has a cheaper k-th best part ----

  function Below(e: real): Part -> nat {
    (r: Part) => if SampleJ(r) < e then 1 else 0
  }

  ghost predicate Harder(bits: real, fsHz: real, bits': real, fsHz': real) {
    bits <= bits' && fsHz <= fsHz'
  }

  lemma {:induction false} FilterShrinks(table: seq<Part>, b: real, f: real, b': real, f': real, y: Option<int>, e: real)
    requires Harder(b, f, b', f')
    ensures |Filter(table, b', f', y)| <= |Filter(table, b, f, y)|
    ensures Sum(Filter(table, b', f', y), Below(e)) <= Sum(Filter(table, b, f, y), Below(e))
  {
    if table != [] {
      var r := table[0];
      FilterShrinks(table[1..], b, f, b', f', y, e);
      assert CanDo(r, b', f', y) ==> CanDo(r, b, f, y);
      ConsSum(r, Filter(table[1..], b, f, y), e);
      ConsSum(r, Filter(table[1..], b', f', y), e);
      assert [] + Filter(table[1..], b, f, y) == Filter(table[1..], b, f, y);
      assert [] + Filter(table[1..], b', f', y) == Filter(table[1..], b', f', y);
    }
  }

  lemma ConsSum(r: Part, s: seq<Part>, e: real)
    ensures Sum([r] + s, Below(e)) == Below(e)(r) + Sum(s, Below(e))
  {
    assert ([r] + s)[1..] == s;
  }

  lemma {:induction false} CountAtLeast(s: seq<Part>, k: nat, e: real)
    requires SortedBy(s, Cheaper) && k < |s| && SampleJ(s[k]) < e
    ensures Sum(s, Below(e)) >= k + 1
  {
    assert k > 0 ==> Cheaper(s[0], s[k]);
    if k > 0 {
      CountAtLeast(s[1..], k - 1, e);
    }
  }

  lemma {:induction false} CountAtMost(s: seq<Part>, k: nat, e: real)
    requires SortedBy(s, Cheaper) && k < |s| && e <= SampleJ(s[k])
    ensures Sum(s, Below(e)) <= k
  {
    if k > 0 {
      CountAtMost(s[1..], k - 1, e);
    } else if |s| > 1 {
      assert Cheaper(s[0], s[1]);
      CountAtMost(s[1..], 0, e);
    }
  }

  /** Raising the bits or the rate never lowers the energy of the k-th cheapest able part, for any k. */
  lemma HarderJobCostsMore(table: seq<Part>, b: real, f: real, b': real, f': real, y: Option<int>, k: nat)
    requires Harder(b, f, b', f') && k < |Able(b', f', table, y)|
    ensures k < |Able(b, f, table, y)|
    ensures SampleJ(Able(b, f, table, y)[k]) <= SampleJ(Able(b', f', table, y)[k])
  {
    var F, F' := Filter(table, b, f, y), Filter(table, b', f', y);
    var A, A' := Sort(F, Cheaper), Sort(F', Cheaper);
    SortMultiset(F, Cheaper);
    SortMultiset(F', Cheaper);
    FilterShrinks(table, b, f, b', f', y, 0.0);
    var e := SampleJ(A[k]);
    if SampleJ(A'[k]) < e {
      CheaperTotal();
      SortSorted(F, Cheaper);
      SortSorted(F', Cheaper);
      CountAtMost(A, k, e);
      CountAtLeast(A', k, e);
      SortSum(F, Cheaper, Below(e));
      SortSum(F', Cheaper, Below(e));
      FilterShrinks(table, b, f, b', f', y, e);
    }
  }

  /** The price: the best never falls, nor the fifth-best while five parts, or all there were, still qualify. */
  lemma PriceMonotone(table: seq<Part>, b: real, f: real, b': real, f': real)
    requires Harder(b, f, b', f') && PriceJ(b', f', table).Some?
    ensures PriceJ(b, f, table).Some? && PriceJ(b, f, table).value.0 <= PriceJ(b', f', table).value.0
    ensures
      var n, n' := |Able(b, f, table, None)|, |Able(b', f', table, None)|;
      n' >= RANK || n' >= n ==> PriceJ(b, f, table).value.1 <= PriceJ(b', f', table).value.1
  {
    var n' := |Able(b', f', table, None)|;
    HarderJobCostsMore(table, b, f, b', f', None, 0);
    HarderJobCostsMore(table, b, f, b', f', None, n' - 1);
    if n' >= RANK {
      HarderJobCostsMore(table, b, f, b', f', None, RANK - 1);
    }
  }

  /**
   Exactly when the fifth-best does not fall: five parts still qualify, or one that costs at least
   the old fifth-best does.
   */
  lemma FifthBestIff(table: seq<Part>, b: real, f: real, b': real, f': real)
    requires Harder(b, f, b', f') && PriceJ(b', f', table).Some?
    ensures PriceJ(b, f, table).Some?
    ensures PriceJ(b, f, table).value.1 <= PriceJ(b', f', table).value.1
       <==> (|Able(b', f', table, None)| >= RANK
             || exists r :: r in table && CanDo(r, b', f', None) && PriceJ(b, f, table).value.1 <= SampleJ(r))
  {
    PriceMonotone(table, b, f, b', f');
    AbleSpec(b', f', table, None);
    var rows := Able(b', f', table, None);
    if |rows| < RANK {
      assert rows[|rows| - 1] in rows;
      forall r | r in table && CanDo(r, b', f', None)
        ensures SampleJ(r) <= SampleJ(rows[|rows| - 1])
      {
        LastAtLeast(rows, r);
      }
    }
  }

  // ---- the staircase ----

  function NextRate(fs: real): real {
    fs * GIGA * (1.0 + 0.000001)
  }

  /** The rate a step was looked up at. */
  function QueryRate(out: seq<(real, Part)>, i: nat): real
    requires i <= |out|
  {
    if i == 0 then RATE_KEPT * GIGA else NextRate(out[i - 1].0)
  }

  /** The lookups in figures: the first at 0.1 GS/s, each later one a millionth above the rate before. */
  lemma QueryRates(out: seq<(real, Part)>, i: nat)
    requires i <= |out|
    ensures QueryRate(out, 0) == 100000000.0
    ensures i > 0 ==> QueryRate(out, i) == out[i - 1].0 * 1000001000.0
  {
  }

  /** Moving past a part's rate leaves that part behind and brings nothing back. */
  lemma StepPast(table: seq<Part>, bits: real, rate: real, r: Part)
    requires rate >= 0.0 && r in table && CanDo(r, bits, rate, None)
    ensures rate <= NextRate(r.fs) && !CanDo(r, bits, NextRate(r.fs), None)
    ensures |Filter(table, bits, NextRate(r.fs), None)| < |Filter(table, bits, rate, None)|
  {
    LosesOne(table, bits, rate, NextRate(r.fs), r);
  }

  lemma {:induction false} LosesOne(table: seq<Part>, bits: real, f: real, f': real, r: Part)
    requires f <= f' && r in table && CanDo(r, bits, f, None) && !CanDo(r, bits, f', None)
    ensures |Filter(table, bits, f', None)| < |Filter(table, bits, f, None)|
  {
    var t := table[0];
    assert CanDo(t, bits, f', None) ==> CanDo(t, bits, f, None);
    if t == r {
      FilterShrinks(table[1..], bits, f, bits, f', None, 0.0);
    } else {
      LosesOne(table[1..], bits, f, f', r);
    }
  }

  lemma {:induction false} FilterLength(table: seq<Part>, bits: real, f: real)
    ensures |Filter(table, bits, f, None)| <= |table|
  {
    if table != [] {
      FilterLength(table[1..], bits, f);
    }
  }

  /** A step: the cheapest part at its query rate, listed with the rate it stops at. */
  ghost predicate StepOk(bits: real, table: seq<Part>, out: seq<(real, Part)>, i: nat)
    requires i < |out|
  {
    var rows := Able(bits, QueryRate(out, i), table, None);
    rows != [] && out[i] == (rows[0].fs, rows[0])
  }

  ghost predicate IsStaircase(bits: real, table: seq<Part>, out: seq<(real, Part)>) {
    forall i :: 0 <= i < |out| ==> StepOk(bits, table, out, i)
  }

  lemma {:induction false} StepOkAppend(bits: real, table: seq<Part>, out: seq<(real, Part)>, x: (real, Part), i: nat)
    requires i < |out|
    ensures StepOk(bits, table, out + [x], i) <==> StepOk(bits, table, out, i)
  {
    assert (out + [x])[i] == out[i];
    assert QueryRate(out + [x], i) == QueryRate(out, i);
  }

  /** The loop ends, after at most as many steps as there are parts. */
  method Staircase(bits: real, table: seq<Part>) returns (out: seq<(real, Part)>)
    ensures |out| <= |table|
    ensures IsStaircase(bits, table, out)
    ensures Able(bits, QueryRate(out, |out|), table, None) == []
  {
    out := [];
    var rate := RATE_KEPT * GIGA;
    FilterLength(table, bits, rate);
    while true
      invariant rate == QueryRate(out, |out|) && rate >= 0.0
      invariant IsStaircase(bits, table, out)
      invariant |out| + |Filter(table, bits, rate, None)| <= |table|
      decreases |Filter(table, bits, rate, None)|
    {
      var rows := Able(bits, rate, table, None);
      if rows == [] {
        return;
      }
      var r := rows[0];
      AbleSpec(bits, rate, table, None);
      assert r in rows;
      StepPast(table, bits, rate, r);
      ghost var before := out;
      out := out + [(r.fs, r)];
      rate := NextRate(r.fs);
      forall i | 0 <= i < |out|
        ensures StepOk(bits, table, out, i)
      {
        if i < |before| {
          StepOkAppend(bits, table, before, (r.fs, r), i);
        } else {
          assert QueryRate(out, i) == QueryRate(before, i);
        }
      }
    }
  }

  lemma StepFacts(bits: real, table: seq<Part>, out: seq<(real, Part)>, i: nat)
    requires IsStaircase(bits, table, out) && i < |out|
    ensures QueryRate(out, i) > 0.0 && out[i].0 == out[i].1.fs
    ensures out[i].1 in table && CanDo(out[i].1, bits, QueryRate(out, i), None)
    ensures forall r :: r in table && CanDo(r, bits, QueryRate(out, i), None) ==> Cheaper(out[i].1, r)
  {
    assert StepOk(bits, table, out, i);
    assert i > 0 ==> StepOk(bits, table, out, i - 1);
    var rate := QueryRate(out, i);
    var rows := Able(bits, rate, table, None);
    AbleSpec(bits, rate, table, None);
    assert rows[0] in rows;
    forall r | r in table && CanDo(r, bits, rate, None)
      ensures Cheaper(rows[0], r)
    {
      assert r in rows;
      var k :| 0 <= k < |rows| && rows[k] == r;
      assert k > 0 ==> Cheaper(rows[0], rows[k]);
    }
  }

  /** Along the stairs the rates strictly rise and the energies never fall. */
  lemma StairsRise(bits: real, table: seq<Part>, out: seq<(real, Part)>, i: nat)
    requires IsStaircase(bits, table, out) && i + 1 < |out|
    ensures out[i].0 < out[i + 1].0 && SampleJ(out[i].1) <= SampleJ(out[i + 1].1)
  {
    StepFacts(bits, table, out, i);
    StepFacts(bits, table, out, i + 1);
    var r := out[i + 1].1;
    assert QueryRate(out, i + 1) == NextRate(out[i].1.fs);
    assert FastEnough(r, QueryRate(out, i));
    assert CanDo(r, bits, QueryRate(out, i), None);
  }

  /** From its query rate up to its own rate, a step's part is the cheapest that can do the job. */
  lemma StairIsCheapest(bits: real, table: seq<Part>, out: seq<(real, Part)>, i: nat, q: real)
    requires IsStaircase(bits, table, out) && i < |out|
    requires QueryRate(out, i) <= q <= out[i].0 * GIGA
    ensures CanDo(out[i].1, bits, q, None)
    ensures forall r :: r in table && CanDo(r, bits, q, None) ==> Cheaper(out[i].1, r)
  {
    StepFacts(bits, table, out, i);
    forall r | r in table && CanDo(r, bits, q, None)
      ensures CanDo(r, bits, QueryRate(out, i), None)
    {
    }
  }

  /** A part too slow for the step's query rate but fast enough for q. */
  ghost predicate InGap(r: Part, bits: real, q: real, rate: real) {
    CanDo(r, bits, q, None) && !FastEnough(r, rate)
  }

  /**
   Between the previous step's rate and this step's query rate, this step's part is the cheapest
   exactly when none of the parts that are fast enough for q but not for the query rate is cheaper.
   The previous step's own part is one of them for q within its tolerance.
   */
  lemma StairInGapIff(bits: real, table: seq<Part>, out: seq<(real, Part)>, i: nat, q: real)
    requires IsStaircase(bits, table, out) && i < |out| && q < QueryRate(out, i)
    ensures (forall r :: r in table && CanDo(r, bits, q, None) ==> Cheaper(out[i].1, r))
       <==> (forall r :: r in table && InGap(r, bits, q, QueryRate(out, i)) ==> Cheaper(out[i].1, r))
  {
    StepFacts(bits, table, out, i);
    forall r | r in table && CanDo(r, bits, q, None) && !InGap(r, bits, q, QueryRate(out, i))
      ensures CanDo(r, bits, QueryRate(out, i), None)
    {
    }
  }

  /**
   Just above a step's rate its part is still able, by the tolerance, so wherever the energy rises the
   next step's part is not the cheapest there.
   */
  lemma PreviousStillAble(bits: real, table: seq<Part>, out: seq<(real, Part)>, i: nat, q: real)
    requires IsStaircase(bits, table, out) && 1 <= i < |out| && SampleJ(out[i - 1].1) < SampleJ(out[i].1)
    requires out[i - 1].0 * GIGA < q && q * (1.0 - 0.000000001) <= out[i - 1].0 * GIGA
    ensures out[i - 1].1 in table && CanDo(out[i - 1].1, bits, q, None) && !Cheaper(out[i].1, out[i - 1].1)
    ensures q < QueryRate(out, i)
  {
    StepFacts(bits, table, out, i - 1);
  }

  /** Step k is the first whose own rate reaches q; for the first step, q is not below the lowest rate kept. */
  ghost predicate Reaches(out: seq<(real, Part)>, k: nat, q: real) {
    && k < |out| && q <= out[k].0 * GIGA && (k == 0 ==> RATE_KEPT * GIGA <= q)
    && forall j :: 0 <= j < k ==> out[j].0 * GIGA < q
  }

  /** The part can do the job at q, and none whose own rate reaches q is cheaper. */
  ghost predicate Best(bits: real, table: seq<Part>, p: Part, q: real) {
    CanDo(p, bits, q, None) && forall r :: r in table && MeetsBits(r, bits) && r.fs * GIGA >= q ==> Cheaper(p, r)
  }

  /** A part faster than p but too slow for the lookup past p. */
  ghost predicate SteppedOver(table: seq<Part>, bits: real, p: Part, r: Part) {
    r in table && MeetsBits(r, bits) && p.fs < r.fs && !FastEnough(r, NextRate(p.fs))
  }

  /** Some part found by the lookup past p costs no more than r. */
  ghost predicate Replaced(table: seq<Part>, bits: real, p: Part, r: Part) {
    exists s :: s in table && CanDo(s, bits, NextRate(p.fs), None) && Cheaper(s, r)
  }

  /** Every part stepped over behind p is made good by the lookup past p. */
  ghost predicate MadeGood(table: seq<Part>, bits: real, p: Part) {
    forall r :: SteppedOver(table, bits, p, r) ==> Replaced(table, bits, p, r)
  }

  lemma {:induction false} StairsRiseTo(bits: real, table: seq<Part>, out: seq<(real, Part)>, i: nat, j: nat)
    requires IsStaircase(bits, table, out) && j <= i < |out|
    ensures out[j].0 <= out[i].0
    decreases i
  {
    if j < i {
      StairsRise(bits, table, out, i - 1);
      StairsRiseTo(bits, table, out, i - 1, j);
    }
  }

  lemma BestIfReplaced(bits: real, table: seq<Part>, out: seq<(real, Part)>, k: nat, q: real)
    requires IsStaircase(bits, table, out) && Reaches(out, k, q)
    requires k > 0 ==> MadeGood(table, bits, out[k - 1].1)
    ensures Best(bits, table, out[k].1, q)
  {
    StepFacts(bits, table, out, k);
    if k > 0 {
      StepFacts(bits, table, out, k - 1);
    }
    forall r | r in table && MeetsBits(r, bits) && r.fs * GIGA >= q
      ensures Cheaper(out[k].1, r)
    {
      if !CanDo(r, bits, QueryRate(out, k), None) {
        assert SteppedOver(table, bits, out[k - 1].1, r);
        var s :| s in table && CanDo(s, bits, NextRate(out[k - 1].1.fs), None) && Cheaper(s, r);
      }
    }
  }

  lemma ReplacedIfBest(bits: real, table: seq<Part>, out: seq<(real, Part)>, k: nat, r: Part)
    requires IsStaircase(bits, table, out) && 0 < k < |out| && SteppedOver(table, bits, out[k - 1].1, r)
    requires forall q :: Reaches(out, k, q) ==> Best(bits, table, out[k].1, q)
    ensures Replaced(table, bits, out[k - 1].1, r)
  {
    StepFacts(bits, table, out, k);
    StepFacts(bits, table, out, k - 1);
    StairsRise(bits, table, out, k - 1);
    var q := r.fs * GIGA;
    forall j | 0 <= j < k
      ensures out[j].0 * GIGA < q
    {
      StairsRiseTo(bits, table, out, k - 1, j);
    }
    assert Reaches(out, k, q);
    assert Cheaper(out[k].1, r);
  }

  /**
   The staircase's promise over its whole range, exactly: the first step that reaches a rate names the
   best part for it, at every rate, iff every part stepped over behind some step is made good by one
   that the next lookup finds.
   */
  lemma StaircaseCoversIff(bits: real, table: seq<Part>, out: seq<(real, Part)>)
    requires IsStaircase(bits, table, out)
    ensures (forall k: nat, q :: Reaches(out, k, q) ==> Best(bits, table, out[k].1, q))
       <==> (forall i :: 0 <= i < |out| - 1 ==> MadeGood(table, bits, out[i].1))
  {
    if forall k: nat, q :: Reaches(out, k, q) ==> Best(bits, table, out[k].1, q) {
      forall i, r | 0 <= i < |out| - 1 && SteppedOver(table, bits, out[i].1, r)
        ensures Replaced(table, bits, out[i].1, r)
      {
        ReplacedIfBest(bits, table, out, i + 1, r);
      }
    }
    if forall i :: 0 <= i < |out| - 1 ==> MadeGood(table, bits, out[i].1) {
      forall k: nat, q | Reaches(out, k, q)
        ensures Best(bits, table, out[k].1, q)
      {
        BestIfReplaced(bits, table, out, k, q);
      }
    }
  }

  /** Of two parts that meet the bits, the faster one is fast enough for the lookup past the slower. */
  ghost predicate Spaced(table: seq<Part>, bits: real) {
    forall r, s :: r in table && s in table && MeetsBits(r, bits) && MeetsBits(s, bits) && r.fs < s.fs ==>
      FastEnough(s, NextRate(r.fs))
  }

  /** The first step whose own rate reaches q. */
  lemma StepReaching(out: seq<(real, Part)>, q: real) returns (k: nat)
    requires out != [] && RATE_KEPT * GIGA <= q <= out[|out| - 1].0 * GIGA
    ensures Reaches(out, k, q)
  {
    k := 0;
    while out[k].0 * GIGA < q
      invariant k < |out| && forall j :: 0 <= j < k ==> out[j].0 * GIGA < q
      decreases |out| - k
    {
      assert k != |out| - 1;
      k := k + 1;
    }
  }

  /**
   A table whose parts are spaced steps over none, so there the promise holds at every rate from the
   lowest one kept up to the last step's.
   */
  lemma StaircaseCovers(bits: real, table: seq<Part>, out: seq<(real, Part)>, q: real) returns (k: nat)
    requires IsStaircase(bits, table, out) && out != [] && Spaced(table, bits)
    requires RATE_KEPT * GIGA <= q <= out[|out| - 1].0 * GIGA
    ensures Reaches(out, k, q) && Best(bits, table, out[k].1, q)
  {
    k := StepReaching(out, q);
    if k > 0 {
      StepFacts(bits, table, out, k - 1);
    }
    BestIfReplaced(bits, table, out, k, q);
  }

  /** The first able part is the given one if every other able part costs strictly more. */
  lemma FirstAble(bits: real, rate: real, table: seq<Part>, r: Part)
    requires r in table && CanDo(r, bits, rate, None)
    requires forall t :: t in table && t != r && CanDo(t, bits, rate, None) ==> !Cheaper(t, r)
    ensures Able(bits, rate, table, None) != [] && Able(bits, rate, table, None)[0] == r
  {
    var rows := Able(bits, rate, table, None);
    AbleSpec(bits, rate, table, None);
    assert r in rows;
    var k :| 0 <= k < |rows| && rows[k] == r;
    assert rows[0] in rows;
    assert k > 0 ==> Cheaper(rows[0], rows[k]);
  }

  /** Such parts exist: of two rates within a millionth of each other the staircase steps over one. */
  lemma StairSkips(a: Part, b: Part, c: Part, q: real)
    requires a == Row(1.0, 50.0, 1.0, 2020) && b == Row(1.0000005, 50.0, 2.0, 2020) && c == Row(2.0, 50.0, 20.0, 2020)
    requires q == 1000000200.0
    ensures IsStaircase(7.0, [a, b, c], [(1.0, a), (2.0, c)])
    ensures a.fs * GIGA < q < c.fs * GIGA && CanDo(b, 7.0, q, None) && !Cheaper(c, b)
  {
    var table, out := [a, b, c], [(1.0, a), (2.0, c)];
    assert SampleJ(a) < SampleJ(b) < SampleJ(c);
    FirstAble(7.0, QueryRate(out, 0), table, a);
    assert !CanDo(a, 7.0, QueryRate(out, 1), None) && !CanDo(b, 7.0, QueryRate(out, 1), None);
    FirstAble(7.0, QueryRate(out, 1), table, c);
    assert StepOk(7.0, table, out, 0) && StepOk(7.0, table, out, 1);
  }

  /** With fewer than five parts left the fifth-best is the last there is, and that can fall. */
  lemma FifthBestCanFall(a: Part, b: Part)
    requires a == Row(2.0, 50.0, 1.0, 2020) && b == Row(1.0, 50.0, 1.0, 2020)
    ensures PriceJ(7.0, 1500000000.0, [a, b]).Some? && PriceJ(7.0, 500000000.0, [a, b]).Some?
    ensures PriceJ(7.0, 1500000000.0, [a, b]).value.1 < PriceJ(7.0, 500000000.0, [a, b]).value.1
  {
    var table := [a, b];
    assert SampleJ(a) < SampleJ(b);
    assert table[1..] == [b] && [b][1..] == [];
    AbleSpec(7.0, 1500000000.0, table, None);
    AbleSpec(7.0, 500000000.0, table, None);
    var one, two := Able(7.0, 1500000000.0, table, None), Able(7.0, 500000000.0, table, None);
    FirstAble(7.0, 1500000000.0, table, a);
    assert !CanDo(b, 7.0, 1500000000.0, None);
    LastIs(one, a);
    assert b in two;
    LastAtLeast(two, b);
    FewParts(7.0, 1500000000.0, table);
    FewParts(7.0, 500000000.0, table);
  }

  lemma LastIs(s: seq<Part>, a: Part)
    requires s != [] && forall r :: r in s ==> r == a
    ensures s[|s| - 1] == a
  {
    assert s[|s| - 1] in s;
  }

  lemma LastAtLeast(s: seq<Part>, b: Part)
    requires SortedBy(s, Cheaper) && b in s
    ensures Cheaper(b, s[|s| - 1])
  {
    var k :| 0 <= k < |s| && s[k] == b;
  }

  lemma FewParts(bits: real, f: real, table: seq<Part>)
    ensures |Able(bits, f, table, None)| <= |table|
  {
    FilterLength(table, bits, f);
    SortMultiset(Filter(table, bits, f, None), Cheaper);
  }
}
