/**
 The canary's declared-format arithmetic: rescaled hidden layers, activation codes, the converter and
 the classifier, over unbounded integers with every shift a floor division.
 */
module CanaryArithmetic {
  import opened Arithmetic
  import opened Options

  const LIM := 128  // an 8-bit converter's codes are -LIM..LIM-1
  const SHIFT := 9  // FC1's and FC2's rescale, and the converter's step 2^SHIFT of operand sums
  const HEAD := 2   // bits taken off an activation, and off a weight

  function Pow2(n: nat): (p: nat)
    ensures p >= 1
  {
    if n == 0 then 1 else 2 * Pow2(n - 1)
  }

  /** Python's v >> s, which floors. */
  function Shr(v: int, s: nat): int {
    v / Pow2(s)
  }

  function Max(a: int, b: int): int { if a < b then b else a }

  function Min(a: int, b: int): int { if a < b then a else b }

  // ---- rounding ----

  function Rescale(v: int, s: nat): int {
    var u := Max(v, 0);
    Min(if s > 0 then Shr(u + Pow2(s - 1), s) else u, 127)
  }

  /** q is x/d rounded, half up. */
  ghost predicate RoundsTo(x: int, d: int, q: int) {
    2 * (d * q) <= 2 * x + d < 2 * (d * q) + 2 * d
  }

  lemma FloorBounds(x: int, d: int)
    requires d >= 1
    ensures d * (x / d) <= x < d * (x / d) + d
  {
  }

  /** Multiples of d in between leave no room: rounding half up is monotone and unique. */
  lemma RoundsMonotone(x: int, y: int, d: int, q: int, r: int)
    requires d >= 1 && x <= y && RoundsTo(x, d, q) && RoundsTo(y, d, r)
    ensures q <= r
  {
    assert d * (r + 1) == d * r + d;
    if q >= r + 1 {
      MulMono(d, r + 1, q);
    }
  }

  /** A hidden output is the ReLU's value over 2^s, rounded half up and held at 127. */
  lemma RescaleRounds(v: int, s: nat, q: int)
    requires RoundsTo(Max(v, 0), Pow2(s), q)
    ensures Rescale(v, s) == Min(q, 127) && 0 <= Rescale(v, s) <= 127
  {
    var u, d := Max(v, 0), Pow2(s);
    if s > 0 {
      var h := Pow2(s - 1);
      FloorBounds(u + h, d);
      var t := (u + h) / d;
      RoundsMonotone(u, u, d, q, t);
      RoundsMonotone(u, u, d, t, q);
      NonNegativeRound(u, d, t);
    }
  }

  lemma NonNegativeRound(u: int, d: int, t: int)
    requires u >= 0 && d >= 1 && RoundsTo(u, d, t)
    ensures t >= 0
  {
    assert t <= -1 ==> d * t <= -d;
  }

  lemma RoundExists(x: int, d: int) returns (q: int)
    requires d >= 1
    ensures RoundsTo(x, d, q)
  {
    q := (2 * x + d) / (2 * d);
    FloorBounds(2 * x + d, 2 * d);
    assert (2 * d) * q == 2 * (d * q);
  }

  lemma RescaleMonotone(v: int, w: int, s: nat)
    requires v <= w
    ensures 0 <= Rescale(v, s) <= Rescale(w, s) <= 127
  {
    var q := RoundExists(Max(v, 0), Pow2(s));
    var r := RoundExists(Max(w, 0), Pow2(s));
    RescaleRounds(v, s, q);
    RescaleRounds(w, s, r);
    RoundsMonotone(Max(v, 0), Max(w, 0), Pow2(s), q, r);
  }

  function ActCode(x: int): int {
    Min(Shr(x + 2, 2), 31)
  }

  /** An activation code is the value over 4, rounded half up and held at 31. */
  lemma ActCodeRounds(x: int, q: int)
    requires RoundsTo(x, 4, q)
    ensures ActCode(x) == Min(q, 31)
    ensures 0 <= x ==> 0 <= ActCode(x) <= 31
  {
    assert Pow2(2) == 4;
  }

  // ---- the converter ----

  function ConverterRaw(s: int, S: nat, hA: nat, hW: nat): int {
    Shr(Shr(s * Pow2(hA + hW) * 256, S) + 128, 8)
  }

  function Clamp(t: int): int {
    Max(-LIM, Min(LIM - 1, t))
  }

  /** The code, and whether it was held. */
  function Converter(s: int, S: nat, hA: nat, hW: nat): (int, bool) {
    var t := ConverterRaw(s, S, hA, hW);
    (Clamp(t), !(-LIM <= t <= LIM - 1))
  }

  /** Two floored shifts with a half in between are one rounding: the 8 guard bits lose nothing. */
  lemma ConverterRounds(s: int, S: nat, hA: nat, hW: nat)
    ensures RoundsTo(s * Pow2(hA + hW), Pow2(S), ConverterRaw(s, S, hA, hW))
  {
    var a, d := s * Pow2(hA + hW), Pow2(S);
    var x := (a * 256) / d;
    var t := (x + 128) / 256;
    assert Pow2(8) == 256;
    FloorBounds(a * 256, d);
    GuardBits(a, d, x, t);
  }

  lemma GuardBits(a: int, d: int, x: int, t: int)
    requires d >= 1 && d * x <= a * 256 < d * x + d
    requires 256 * t <= x + 128 <= 256 * t + 255
    ensures RoundsTo(a, d, t)
  {
    MulMono(d, 256 * t, x + 128);
    MulMono(d, x + 128, 256 * t + 255);
    assert d * (x + 128) == d * x + 128 * d;
    assert d * (256 * t) == 256 * (d * t);
    assert d * (256 * t + 255) == 256 * (d * t) + 255 * d;
  }

  /** The converter is that rounding, clamped; it says it held exactly when clamping changed the code. */
  lemma ConverterSpec(s: int, S: nat, hA: nat, hW: nat, q: int)
    requires RoundsTo(s * Pow2(hA + hW), Pow2(S), q)
    ensures Converter(s, S, hA, hW) == (Max(-128, Min(127, q)), !(-128 <= q <= 127))
  {
    var a, d, t := s * Pow2(hA + hW), Pow2(S), ConverterRaw(s, S, hA, hW);
    ConverterRounds(s, S, hA, hW);
    RoundsMonotone(a, a, d, q, t);
    RoundsMonotone(a, a, d, t, q);
  }

  lemma ConverterMonotone(s: int, t: int, S: nat, hA: nat, hW: nat)
    requires s <= t
    ensures -128 <= Converter(s, S, hA, hW).0 <= Converter(t, S, hA, hW).0 <= 127
  {
    ConverterRounds(s, S, hA, hW);
    ConverterRounds(t, S, hA, hW);
    var p := Pow2(hA + hW);
    assert s * p <= t * p;
    RoundsMonotone(s * p, t * p, Pow2(S), ConverterRaw(s, S, hA, hW), ConverterRaw(t, S, hA, hW));
  }

  function Code(s: int): int { Converter(s, SHIFT, HEAD, HEAD).0 }

  predicate Held(s: int) { Converter(s, SHIFT, HEAD, HEAD).1 }

  /** At the board's constants a code that was not held is within half a step of 32 of its sum. */
  lemma CodeNearSum(s: int)
    ensures !Held(s) <==> -4112 <= s <= 4079
    ensures !Held(s) ==> s - 16 < 32 * Code(s) <= s + 16
  {
    ConverterRounds(s, SHIFT, HEAD, HEAD);
    assert Pow2(4) == 16 && Pow2(5) == 32 && Pow2(9) == 512;
  }

  // ---- the class ----

  function Score(c: int, b: int): int {
    c * Pow2(SHIFT) + b
  }

  /** The largest score, the lowest index on a tie. */
  ghost predicate IsClass(codes: seq<int>, b: seq<int>, o: nat) {
    o < |codes| <= |b| && forall j :: 0 <= j < |codes| ==>
      if j < o then Score(codes[j], b[j]) < Score(codes[o], b[o]) else Score(codes[j], b[j]) <= Score(codes[o], b[o])
  }

  /** Fails with no codes at all, and with fewer biases than codes. */
  method Classify(codes: seq<int>, b: seq<int>) returns (r: Option<nat>)
    ensures r.Some? <==> 0 < |codes| <= |b|
    ensures r.Some? ==> IsClass(codes, b, r.value)
  {
    var best: Option<(int, nat)> := None;
    for o := 0 to |codes|
      invariant o <= |b|
      invariant best.None? <==> o == 0
      invariant best.Some? ==> best.value.1 < o && best.value.0 == Score(codes[best.value.1], b[best.value.1])
                               && IsClass(codes[..o], b, best.value.1)
    {
      if o >= |b| {
        return None;
      }
      var v := Score(codes[o], b[o]);
      if best.None? || v > best.value.0 {
        best := Some((v, o));
      }
    }
    if best.None? {
      return None;
    }
    assert codes[..|codes|] == codes;
    return Some(best.value.1);
  }

  lemma ClassUnique(codes: seq<int>, b: seq<int>, o: nat, p: nat)
    requires IsClass(codes, b, o) && IsClass(codes, b, p)
    ensures o == p
  {
    var v := Score(codes[o], b[o]);
    var w := Score(codes[p], b[p]);
  }

  /** The score of the sum itself, before the converter rounds it. */
  function Exact(s: int, b: int): int {
    16 * s + b
  }

  function Codes(sums: seq<int>): (codes: seq<int>)
    ensures |codes| == |sums|
  {
    seq(|sums|, i requires 0 <= i < |sums| => Code(sums[i]))
  }

  /** Rounding moves one output past another by at most 496 units of score. */
  lemma ScoreGap(s: int, b: int, t: int, c: int)
    requires !Held(s) && !Held(t)
    ensures Score(Code(s), b) - Score(Code(t), c) >= Exact(s, b) - Exact(t, c) - 496
  {
    CodeNearSum(s);
    CodeNearSum(t);
    assert Pow2(9) == 512;
  }

  /** An output that leads by more than that on the exact sums is the class of the rounded codes. */
  lemma ClassStable(sums: seq<int>, b: seq<int>, k: nat)
    requires k < |sums| <= |b| && forall i :: 0 <= i < |sums| ==> !Held(sums[i])
    requires forall j :: 0 <= j < |sums| && j != k ==>
               Exact(sums[k], b[k]) - Exact(sums[j], b[j]) >= if j < k then 497 else 496
    ensures IsClass(Codes(sums), b, k)
  {
    forall j | 0 <= j < |sums| && j != k
      ensures Score(Code(sums[k]), b[k]) - Score(Code(sums[j]), b[j]) >= if j < k then 1 else 0
    {
      ScoreGap(sums[k], b[k], sums[j], b[j]);
    }
  }

  /** A lead of d on the exact sums is always kept by the rounded codes. */
  ghost predicate KeepsLead(d: int) {
    forall s, b, t, c :: !Held(s) && !Held(t) && Exact(s, b) - Exact(t, c) >= d ==> Score(Code(s), b) > Score(Code(t), c)
  }

  /** 497 is sharp. */
  lemma LeadThreshold(d: int)
    ensures KeepsLead(d) <==> d >= 497
  {
    if d >= 497 {
      forall s, b, t, c | !Held(s) && !Held(t) && Exact(s, b) - Exact(t, c) >= d
        ensures Score(Code(s), b) > Score(Code(t), c)
      {
        ScoreGap(s, b, t, c);
      }
    } else {
      CodeNearSum(15);
      CodeNearSum(-16);
      assert Exact(15, 0) - Exact(-16, 0) == 496;
      assert !(Score(Code(15), 0) > Score(Code(-16), 0));
    }
  }

  // ---- the network ----

  /** Products summed pairwise, as far as the shorter list goes. */
  function Dot(x: seq<int>, w: seq<int>): int {
    if x == [] || w == [] then 0 else x[0] * w[0] + Dot(x[1..], w[1..])
  }

  /** Seen from the other end: one more pair adds its product, and an unpaired tail adds nothing. */
  lemma {:induction false} DotLast(x: seq<int>, w: seq<int>, a: int, b: int, tail: seq<int>)
    requires |x| == |w|
    ensures Dot(x + [a], w + [b]) == Dot(x, w) + a * b
    ensures Dot(x + tail, w) == Dot(x, w + tail) == Dot(x, w)
  {
    if x == [] {
      assert x + [a] == [a] && w + [b] == [b] && [a][1..] == [];
    } else {
      assert (x + [a])[1..] == x[1..] + [a] && (w + [b])[1..] == w[1..] + [b];
      assert (x + tail)[1..] == x[1..] + tail && (w + tail)[1..] == w[1..] + tail;
      DotLast(x[1..], w[1..], a, b, tail);
    }
  }

  function Layer(x: seq<int>, w: seq<seq<int>>, b: seq<int>, s: nat): (y: seq<int>)
    ensures |y| == Min(|w|, |b|)
  {
    seq(Min(|w|, |b|), i requires 0 <= i < |w| && i < |b| => Rescale(Dot(x, w[i]) + b[i], s))
  }

  ghost predicate Within(x: seq<int>, lo: int, hi: int) {
    forall i :: 0 <= i < |x| ==> lo <= x[i] <= hi
  }

  lemma {:induction false} DotBound(x: seq<int>, w: seq<int>, A: int, B: int)
    requires A >= 0 && B >= 0 && Within(x, 0, A) && Within(w, -B, B)
    ensures -(|x| * (A * B)) <= Dot(x, w) <= |x| * (A * B)
  {
    if x != [] {
      assert |x| * (A * B) == (|x| - 1) * (A * B) + A * B;
      assert (|x| - 1) * (A * B) >= 0;
      if w != [] {
        DotBound(x[1..], w[1..], A, B);
        ProductBound(x[0], w[0], A, B);
      }
    }
  }

  lemma ProductBound(x: int, w: int, A: int, B: int)
    requires 0 <= x <= A && -B <= w <= B
    ensures -(A * B) <= x * w <= A * B
  {
    assert x * w <= x * B && x * B <= A * B;
    assert x * w >= x * (-B) && x * B >= 0;
  }

  datatype Net = Net(w1: seq<seq<int>>, b1: seq<int>, w2: seq<seq<int>>, b2: seq<int>, w3: seq<seq<int>>, b3: seq<int>)

  /** What the script asserts of the bundle: the shapes, 6-bit FC3 weights, and room for int32 sums. */
  ghost predicate Checked(net: Net) {
    |net.w1| == |net.b1| == |net.w2| == |net.b2| == 64 && |net.w3| == |net.b3| == 16 &&
    (forall i :: 0 <= i < 64 ==> |net.w1[i]| == 64 && Within(net.w1[i], -128, 127)) &&
    (forall i :: 0 <= i < 64 ==> |net.w2[i]| == 64 && Within(net.w2[i], -128, 127)) &&
    (forall i :: 0 <= i < 16 ==> |net.w3[i]| == 64 && Within(net.w3[i], -32, 31)) &&
    (forall i :: 0 <= i < 64 ==> Fits(net.b1[i], 64 * 127 * 128) && Fits(net.b2[i], 64 * 127 * 128))
  }

  /** Room for sums of up to `sum` in magnitude beside v in an int32. */
  predicate Fits(v: int, sum: nat) {
    -0x8000_0000 < v - sum && v + sum < 0x8000_0000
  }

  /** A hidden layer's accumulator never leaves int32, wherever the summation stops. */
  lemma PartialSumsFit(x: seq<int>, w: seq<int>, b: int, k: nat)
    requires |x| <= 64 && k <= |x| && k <= |w| && Within(x, 0, 127) && Within(w, -128, 127)
    requires Fits(b, 64 * 127 * 128)
    ensures Fits(Dot(x[..k], w[..k]), 0) && Fits(Dot(x[..k], w[..k]) + b, 0)
  {
    DotBound(x[..k], w[..k], 127, 128);
    assert k * (127 * 128) <= 64 * 127 * 128;
  }

  datatype Trace = Trace(a1: seq<int>, a2: seq<int>, act: seq<int>, sums: seq<int>, codes: seq<int>)

  /** One vector through the three layers. */
  function Forward(net: Net, x: seq<int>): Trace {
    var a1 := Layer(x, net.w1, net.b1, SHIFT);
    var a2 := Layer(a1, net.w2, net.b2, SHIFT);
    var act := seq(|a2|, i requires 0 <= i < |a2| => ActCode(a2[i]));
    var sums := seq(|net.w3|, i requires 0 <= i < |net.w3| => Dot(act, net.w3[i]));
    Trace(a1, a2, act, sums, Codes(sums))
  }

  lemma LayerRange(x: seq<int>, w: seq<seq<int>>, b: seq<int>, s: nat)
    ensures Within(Layer(x, w, b, s), 0, 127)
  {
    forall i | 0 <= i < Min(|w|, |b|)
      ensures 0 <= Layer(x, w, b, s)[i] <= 127
    {
      var v := Dot(x, w[i]) + b[i];
      RescaleMonotone(v, v, s);
    }
  }

  lemma ActRange(x: int)
    requires 0 <= x
    ensures 0 <= ActCode(x) <= 31
  {
    var q := RoundExists(x, 4);
    ActCodeRounds(x, q);
  }

  /** Every stage stays in its declared format, whatever the inputs. */
  lemma EndToEndRanges(net: Net, x: seq<int>)
    requires Checked(net)
    ensures
      var t := Forward(net, x);
      && |t.a1| == |t.a2| == |t.act| == 64 && |t.sums| == |t.codes| == 16
      && Within(t.a1, 0, 127) && Within(t.a2, 0, 127) && Within(t.act, 0, 31)
      && Within(t.sums, -63488, 63488) && Within(t.codes, -128, 127)
  {
    var t := Forward(net, x);
    LayerRange(x, net.w1, net.b1, SHIFT);
    LayerRange(t.a1, net.w2, net.b2, SHIFT);
    forall i | 0 <= i < 64
      ensures 0 <= t.act[i] <= 31
    {
      ActRange(t.a2[i]);
    }
    forall i | 0 <= i < 16
      ensures -63488 <= t.sums[i] <= 63488
    {
      DotBound(t.act, net.w3[i], 31, 32);
    }
    forall i | 0 <= i < 16
      ensures -128 <= t.codes[i] <= 127
    {
      ConverterMonotone(t.sums[i], t.sums[i], SHIFT, HEAD, HEAD);
    }
  }

  lemma CodeRounds(s: int, c: int)
    requires RoundsTo(s, 32, c)
    ensures Code(s) == Max(-128, Min(127, c))
  {
    assert Pow2(4) == 16 && Pow2(5) == 32 && Pow2(9) == 512;
    ConverterSpec(s, SHIFT, HEAD, HEAD, c);
  }

  /** What each stage of the network is, in terms of the stage before and of rounding alone. */
  lemma ForwardSpec(net: Net, x: seq<int>, i: nat, q: int)
    requires Checked(net) && i < 64
    ensures
      var t := Forward(net, x);
      && |t.a1| == |t.a2| == |t.act| == 64 && |t.sums| == |t.codes| == 16
      && (RoundsTo(Max(Dot(x, net.w1[i]) + net.b1[i], 0), 512, q) ==> t.a1[i] == Min(q, 127))
      && (RoundsTo(Max(Dot(t.a1, net.w2[i]) + net.b2[i], 0), 512, q) ==> t.a2[i] == Min(q, 127))
      && (RoundsTo(t.a2[i], 4, q) ==> t.act[i] == Min(q, 31))
      && (i < 16 ==> t.sums[i] == Dot(t.act, net.w3[i]))
      && (i < 16 && RoundsTo(t.sums[i], 32, q) ==> t.codes[i] == Max(-128, Min(127, q)))
  {
    var t := Forward(net, x);
    HiddenSpec(x, net.w1, net.b1, i, q);
    HiddenSpec(t.a1, net.w2, net.b2, i, q);
    if RoundsTo(t.a2[i], 4, q) {
      ActCodeRounds(t.a2[i], q);
    }
    if i < 16 && RoundsTo(t.sums[i], 32, q) {
      CodeRounds(t.sums[i], q);
    }
  }

  lemma HiddenSpec(x: seq<int>, w: seq<seq<int>>, b: seq<int>, i: nat, q: int)
    requires i < |w| && i < |b|
    ensures RoundsTo(Max(Dot(x, w[i]) + b[i], 0), 512, q) ==> Layer(x, w, b, SHIFT)[i] == Min(q, 127)
  {
    var v := Dot(x, w[i]) + b[i];
    assert Pow2(5) == 32 && Pow2(9) == 512;
    if RoundsTo(Max(v, 0), 512, q) {
      RescaleRounds(v, SHIFT, q);
    }
  }

  /** Wherever a summation of the network stops, it is within int32, and FC3's within 63,488. */
  lemma ForwardSumsFit(net: Net, x: seq<int>, i: nat, k: nat)
    requires Checked(net) && |x| == 64 && Within(x, 0, 127) && i < 64 && k <= 64
    ensures
      var t := Forward(net, x);
      && Fits(Dot(x[..k], net.w1[i][..k]), 0) && Fits(Dot(x[..k], net.w1[i][..k]) + net.b1[i], 0)
      && |t.a1| == 64 && Fits(Dot(t.a1[..k], net.w2[i][..k]), 0) && Fits(Dot(t.a1[..k], net.w2[i][..k]) + net.b2[i], 0)
      && |t.act| == 64 && (i < 16 ==> -63488 <= Dot(t.act[..k], net.w3[i][..k]) <= 63488)
  {
    var t := Forward(net, x);
    EndToEndRanges(net, x);
    PartialSumsFit(x, net.w1[i], net.b1[i], k);
    PartialSumsFit(t.a1, net.w2[i], net.b2[i], k);
    if i < 16 {
      DotBound(t.act[..k], net.w3[i][..k], 31, 32);
    }
  }

  /** No output of the vector was held. */
  ghost predicate NoneHeld(sums: seq<int>) {
    forall i :: 0 <= i < |sums| ==> !Held(sums[i])
  }

  /** How many of the outputs were held. */
  ghost function HeldCount(sums: seq<int>): nat {
    if sums == [] then 0
    else var n := |sums| - 1; HeldCount(sums[..n]) + (if Held(sums[n]) then 1 else 0)
  }

  lemma {:induction false} HeldCountZero(sums: seq<int>)
    ensures HeldCount(sums) == 0 <==> NoneHeld(sums)
  {
    if sums != [] {
      var n := |sums| - 1;
      HeldCountZero(sums[..n]);
      assert sums == sums[..n] + [sums[n]];
    }
  }

  ghost function HeldAt(sums: seq<int>): set<int> {
    set i | 0 <= i < |sums| && Held(sums[i])
  }

  /** The count is the number of positions that were held. */
  lemma {:induction false} HeldCountIsNumber(sums: seq<int>)
    ensures HeldCount(sums) == |HeldAt(sums)|
  {
    if sums != [] {
      var n := |sums| - 1;
      HeldCountIsNumber(sums[..n]);
      assert HeldAt(sums) == HeldAt(sums[..n]) + (if Held(sums[n]) then {n} else {});
    }
  }

  ghost function TotalHeld(ts: seq<Trace>): nat {
    if ts == [] then 0 else var n := |ts| - 1; TotalHeld(ts[..n]) + HeldCount(ts[n].sums)
  }

  /** Every vector's codes, one vector after another. */
  ghost function AllCodes(ts: seq<Trace>): seq<int> {
    if ts == [] then [] else var n := |ts| - 1; AllCodes(ts[..n]) + ts[n].codes
  }

  /** Code o of vector v stands at place v*n + o, with n codes to a vector. */
  lemma {:induction false} AllCodesAt(ts: seq<Trace>, n: nat, v: nat, o: nat)
    requires forall u :: 0 <= u < |ts| ==> |ts[u].codes| == n
    requires v < |ts| && o < n
    ensures |AllCodes(ts)| == |ts| * n && v * n + o < |ts| * n && AllCodes(ts)[v * n + o] == ts[v].codes[o]
  {
    var last := |ts| - 1;
    AllCodesLength(ts[..last], n);
    MulSucc(|ts|, n);
    MulMono(n, v, last);
    if v < last {
      AllCodesAt(ts[..last], n, v, o);
    }
  }

  lemma {:induction false} AllCodesLength(ts: seq<Trace>, n: nat)
    requires forall u :: 0 <= u < |ts| ==> |ts[u].codes| == n
    ensures |AllCodes(ts)| == |ts| * n
  {
    if ts != [] {
      AllCodesLength(ts[..|ts| - 1], n);
      MulSucc(|ts|, n);
    }
  }

  /** The whole run is free of held outputs exactly when every vector is. */
  lemma {:induction false} TotalHeldZero(ts: seq<Trace>)
    ensures TotalHeld(ts) == 0 <==> forall v :: 0 <= v < |ts| ==> NoneHeld(ts[v].sums)
  {
    if ts != [] {
      var n := |ts| - 1;
      TotalHeldZero(ts[..n]);
      HeldCountZero(ts[n].sums);
      assert ts == ts[..n] + [ts[n]];
      assert forall v :: 0 <= v < n ==> ts[..n][v] == ts[v];
    }
  }

  lemma Prefixes<T>(s: seq<T>, n: nat)
    requires n < |s|
    ensures s[..n + 1] == s[..n] + [s[n]] && s[..n + 1][..n] == s[..n]
  {
  }

  method CountHeld(sums: seq<int>) returns (h: nat)
    ensures h == HeldCount(sums)
  {
    h := 0;
    for i := 0 to |sums|
      invariant h == HeldCount(sums[..i])
    {
      Prefixes(sums, i);
      if Held(sums[i]) {
        h := h + 1;
      }
    }
    assert sums[..|sums|] == sums;
  }

  /** The least and the greatest code; with no codes yet, the limits the wrong way round. */
  ghost predicate Extremes(codes: seq<int>, lo: int, hi: int) {
    if codes == [] then lo == 128 && hi == -128 else lo in codes && hi in codes && Within(codes, lo, hi)
  }

  method Extend(all: seq<int>, codes: seq<int>, lo: int, hi: int) returns (lo': int, hi': int)
    requires Extremes(all, lo, hi) && Within(codes, -128, 127)
    ensures Extremes(all + codes, lo', hi')
  {
    lo', hi' := lo, hi;
    for i := 0 to |codes|
      invariant Extremes(all + codes[..i], lo', hi')
    {
      Prefixes(codes, i);
      ExtremesSnoc(all + codes[..i], codes[i], lo', hi');
      assert all + codes[..i + 1] == all + codes[..i] + [codes[i]];
      lo', hi' := Min(lo', codes[i]), Max(hi', codes[i]);
    }
    assert codes[..|codes|] == codes;
  }

  lemma ExtremesSnoc(all: seq<int>, c: int, lo: int, hi: int)
    requires Extremes(all, lo, hi) && -128 <= c <= 127
    ensures Extremes(all + [c], Min(lo, c), Max(hi, c))
  {
    assert (all + [c])[|all|] == c;
    assert forall x :: x in all ==> x in all + [c];
  }

  /** What one trace must have for its class to be taken. */
  ghost predicate Shaped(t: Trace, b3: seq<int>) {
    0 < |t.codes| <= |b3| && Within(t.codes, -128, 127)
  }

  ghost predicate ClassesOf(ts: seq<Trace>, b3: seq<int>, classes: seq<nat>) {
    |classes| == |ts| && forall v :: 0 <= v < |ts| ==> IsClass(ts[v].codes, b3, classes[v])
  }

  lemma ClassesSnoc(ts: seq<Trace>, t: Trace, b3: seq<int>, classes: seq<nat>, c: nat)
    requires ClassesOf(ts, b3, classes) && IsClass(t.codes, b3, c)
    ensures ClassesOf(ts + [t], b3, classes + [c])
  {
  }

  /** The acceptance vectors' codes and classes, how many outputs were held, and the codes' range. */
  method Tally(ts: seq<Trace>, b3: seq<int>) returns (codes: seq<int>, classes: seq<nat>, held: nat, lo: int, hi: int)
    requires forall v :: 0 <= v < |ts| ==> Shaped(ts[v], b3)
    ensures codes == AllCodes(ts) && ClassesOf(ts, b3, classes) && held == TotalHeld(ts) && Extremes(codes, lo, hi)
  {
    codes, classes, held, lo, hi := [], [], 0, LIM, -LIM;
    for n := 0 to |ts|
      invariant codes == AllCodes(ts[..n]) && held == TotalHeld(ts[..n])
      invariant ClassesOf(ts[..n], b3, classes) && Extremes(codes, lo, hi)
    {
      var t := ts[n];
      Prefixes(ts, n);
      var h := CountHeld(t.sums);
      held := held + h;
      lo, hi := Extend(codes, t.codes, lo, hi);
      codes := codes + t.codes;
      var c := Classify(t.codes, b3);
      ClassesSnoc(ts[..n], t, b3, classes, c.value);
      classes := classes + [c.value];
    }
    assert ts[..|ts|] == ts;
  }

  /** The calibration vectors: their codes and how many outputs were held. */
  method TallyHeld(ts: seq<Trace>) returns (codes: seq<int>, held: nat)
    ensures codes == AllCodes(ts) && held == TotalHeld(ts)
  {
    codes, held := [], 0;
    for n := 0 to |ts|
      invariant codes == AllCodes(ts[..n]) && held == TotalHeld(ts[..n])
    {
      Prefixes(ts, n);
      var h := CountHeld(ts[n].sums);
      codes, held := codes + ts[n].codes, held + h;
    }
    assert ts[..|ts|] == ts;
  }

  ghost predicate TracesOf(net: Net, xs: seq<seq<int>>, ts: seq<Trace>) {
    |ts| == |xs| && forall v :: 0 <= v < |xs| ==> ts[v] == Forward(net, xs[v])
  }

  /** Both sets of vectors through the network; held counts over both, the rest over the first. */
  method RunVectors(net: Net, acc: seq<seq<int>>, cal: seq<seq<int>>)
    returns (ts: seq<Trace>, cs: seq<Trace>, codes: seq<int>, calCodes: seq<int>, classes: seq<nat>,
             held: nat, lo: int, hi: int)
    requires Checked(net)
    ensures TracesOf(net, acc, ts) && TracesOf(net, cal, cs)
    ensures codes == AllCodes(ts) && calCodes == AllCodes(cs)
    ensures ClassesOf(ts, net.b3, classes) && Extremes(codes, lo, hi)
    ensures held == TotalHeld(ts) + TotalHeld(cs)
  {
    ts := seq(|acc|, v requires 0 <= v < |acc| => Forward(net, acc[v]));
    cs := seq(|cal|, v requires 0 <= v < |cal| => Forward(net, cal[v]));
    forall v | 0 <= v < |ts|
      ensures Shaped(ts[v], net.b3)
    {
      EndToEndRanges(net, acc[v]);
    }
    codes, classes, held, lo, hi := Tally(ts, net.b3);
    var h;
    calCodes, h := TallyHeld(cs);
    held := held + h;
  }

  /** With nothing held and a clear lead, the class of the codes is the class of the exact sums. */
  lemma DeclaredClass(net: Net, x: seq<int>, k: nat, r: nat)
    requires Checked(net) && k < 16
    requires forall i :: 0 <= i < 16 ==> !Held(Forward(net, x).sums[i])
    requires forall j :: 0 <= j < 16 && j != k ==>
               Exact(Forward(net, x).sums[k], net.b3[k]) - Exact(Forward(net, x).sums[j], net.b3[j]) >= 497
    requires IsClass(Forward(net, x).codes, net.b3, r)
    ensures r == k
  {
    ClassStable(Forward(net, x).sums, net.b3, k);
    ClassUnique(Forward(net, x).codes, net.b3, r, k);
  }
}
