/** The factor k between LRU or FIFO and MIN cannot be improved: a cycle of one set more than the banks. */
module CompetitiveSharp {
  import opened Schedules
  import opened Policies
  import opened TileStream
  import opened CyclicMisses

  /** n references of a cycle. */
  function Cycle(P: nat, n: nat): (refs: seq<int>)
    requires P >= 1
    ensures Cyclic(refs, P, n)
  {
    seq(n, i => i % P)
  }

  /** With one set too many, LRU and FIFO miss every reference and MIN one in W. */
  lemma OneSetTooMany(W: nat, q: nat)
    requires W >= 1
    ensures q * W >= 0
    ensures
      var refs := Cycle(W + 1, W + 1 + q * W);
      && LruMisses(W, [], refs) == FifoMisses(W, [], refs) == W + 1 + q * W
      && Opt(W, {}, refs) == W + 1 + q
  {
    HitsByBlocks(W + 1, W, q, W, 0);
    var n := W + 1 + q * W;
    var refs := Cycle(W + 1, n);
    CyclicThrash(refs, W + 1, n, W);
    MinOnCycle(refs, W + 1, n, W);
    assert q * (W - 1) == q * W - q;
  }

  /** No smaller factor will do, whatever constant is added to it. */
  lemma FactorIsSharp(W: nat, c: real, a: real) returns (refs: seq<int>)
    requires W >= 1 && 0.0 <= c < W as real
    ensures LruMisses(W, [], refs) as real > c * (Opt(W, {}, refs) as real) + a
    ensures FifoMisses(W, [], refs) as real > c * (Opt(W, {}, refs) as real) + a
  {
    var w := W as real;
    var q := Enough(w - c, c * (w + 1.0) + a);
    OneSetTooMany(W, q);
    refs := Cycle(W + 1, W + 1 + q * W);
    Exceeds(W, q, c, a, LruMisses(W, [], refs), Opt(W, {}, refs));
  }

  lemma Exceeds(W: nat, q: nat, c: real, a: real, misses: nat, best: nat)
    requires W >= 1 && misses == W + 1 + q * W && best == W + 1 + q
    requires (q as real) * (W as real - c) >= c * (W as real + 1.0) + a
    ensures misses as real > c * (best as real) + a
  {
    var w, x := W as real, q as real;
    assert (q * W) as real == x * w;
    assert misses as real == w + 1.0 + x * w && best as real == w + 1.0 + x;
    Outgrows(w, c, a, x);
  }

  lemma Enough(d: real, t: real) returns (q: nat)
    requires d > 0.0
    ensures (q as real) * d >= t
  {
    var x := t / d;
    assert x * d == t;
    q := if x <= 0.0 then 0 else x.Floor + 1;
    ScaleReal(d, x, q as real);
  }

  lemma ScaleReal(d: real, x: real, y: real)
    requires d > 0.0 && x <= y
    ensures x * d <= y * d
  {
  }

  lemma Outgrows(w: real, c: real, a: real, q: real)
    requires q * (w - c) >= c * (w + 1.0) + a && w >= 1.0
    ensures w + 1.0 + q * w > c * (w + 1.0 + q) + a
  {
    assert q * (w - c) == q * w - q * c;
    assert c * (w + 1.0 + q) == c * (w + 1.0) + q * c;
  }
}
