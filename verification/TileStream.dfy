/** The tile's weight-set reference streams, for any list of layers and any tile. */
module TileStream {
  import opened Arithmetic

  datatype Layer = Layer(kin: nat, nout: nat)

  /** Python's -(-a // b): the least q with q*b >= a. */
  function CeilDiv(a: int, b: int): (q: int)
    requires b >= 1
    ensures (q - 1) * b < a <= q * b
    ensures a >= 0 ==> q >= 0
  {
    CeilDivFacts(a, b);
    -((-a) / b)
  }

  lemma CeilDivFacts(a: int, b: int)
    requires b >= 1
    ensures var q := -((-a) / b); (q - 1) * b < a <= q * b && (a >= 0 ==> q >= 0)
  {
    var d := (-a) / b;
    assert -a == d * b + (-a) % b;
    assert (-d - 1) * b == -(d * b) - b && (-d) * b == -(d * b);
  }

  /** The weight sets one layer needs: K tiles times N tiles. */
  function LayerSets(l: Layer, R: nat, C: nat): nat
    requires R >= 1 && C >= 1
  {
    CeilDiv(l.kin, R) * CeilDiv(l.nout, C)
  }

  /** The tiles a layer's weights fall in: weight (i, j) lies in K tile i/R of N tile j/C. */
  ghost function Tiles(l: Layer, R: nat, C: nat): set<(int, int)>
    requires R >= 1 && C >= 1
  {
    set i, j | 0 <= i < l.kin && 0 <= j < l.nout :: (i / R, j / C)
  }

  /** The n pairs (x, y) with y below n. */
  lemma Column(x: int, n: nat) returns (K: set<(int, int)>)
    ensures |K| == n && forall p :: p in K <==> p.0 == x && 0 <= p.1 < n
  {
    K := {};
    for y := 0 to n
      invariant |K| == y && forall p :: p in K <==> p.0 == x && 0 <= p.1 < y
    {
      K := K + {(x, y)};
    }
  }

  /** The m*n pairs (x, y) with x below m and y below n. */
  lemma Grid(m: nat, n: nat) returns (G: set<(int, int)>)
    ensures |G| == m * n && forall p :: p in G <==> 0 <= p.0 < m && 0 <= p.1 < n
  {
    G := {};
    var size := 0;
    for x := 0 to m
      invariant |G| == size == x * n && forall p :: p in G <==> 0 <= p.0 < x && 0 <= p.1 < n
    {
      var K := Column(x, n);
      assert forall p :: p in G ==> p !in K;
      assert G !! K;
      MulSucc(x + 1, n);
      G, size := G + K, size + n;
    }
  }

  /** Position i of a dimension of length d lies in one of its tiles. */
  lemma TileOfPosition(d: nat, b: nat, i: nat)
    requires b >= 1 && i < d
    ensures 0 <= i / b < CeilDiv(d, b)
  {
    var q, t := CeilDiv(d, b), i / b;
    assert i == b * t + i % b;
    assert t >= q ==> b * t >= b * q;
  }

  /** Tile a holds a position. */
  lemma PositionOfTile(d: nat, b: nat, a: nat)
    requires b >= 1 && a < CeilDiv(d, b)
    ensures 0 <= a * b < d && (a * b) / b == a
  {
    MulMono(b, a, CeilDiv(d, b) - 1);
    DivExact(a, b);
  }

  lemma DivExact(a: nat, b: nat)
    requires b >= 1
    ensures a * b >= 0 && (a * b) / b == a
  {
    var x := a * b;
    var e := a - x / b;
    assert e * b == x - (x / b) * b == x % b;
    assert e >= 1 ==> e * b >= b;
    assert e <= -1 ==> e * b + b <= 0;
  }

  lemma TilesIff(l: Layer, R: nat, C: nat, p: (int, int))
    requires R >= 1 && C >= 1
    ensures p in Tiles(l, R, C) <==> 0 <= p.0 < CeilDiv(l.kin, R) && 0 <= p.1 < CeilDiv(l.nout, C)
  {
    if p in Tiles(l, R, C) {
      var i, j :| 0 <= i < l.kin && 0 <= j < l.nout && p == (i / R, j / C);
      TileOfPosition(l.kin, R, i);
      TileOfPosition(l.nout, C, j);
    }
    if 0 <= p.0 < CeilDiv(l.kin, R) && 0 <= p.1 < CeilDiv(l.nout, C) {
      PositionOfTile(l.kin, R, p.0);
      PositionOfTile(l.nout, C, p.1);
      var i, j := p.0 * R, p.1 * C;
      assert 0 <= i < l.kin && 0 <= j < l.nout && p == (i / R, j / C);
    }
  }

  /** A layer has as many weight sets as tiles its weights fall in. */
  lemma LayerSetsAreTiles(l: Layer, R: nat, C: nat)
    requires R >= 1 && C >= 1
    ensures |Tiles(l, R, C)| == LayerSets(l, R, C)
  {
    var kt, nt := CeilDiv(l.kin, R), CeilDiv(l.nout, C);
    var T := Tiles(l, R, C);
    var G := Grid(kt, nt);
    forall p | p in T
      ensures p in G
    {
      TilesIff(l, R, C, p);
    }
    forall p | p in G
      ensures p in T
    {
      TilesIff(l, R, C, p);
    }
    assert T == G;
  }

  /** The weight sets of every layer. */
  function LayerSizes(layers: seq<Layer>, R: nat, C: nat): (ns: seq<nat>)
    requires R >= 1 && C >= 1
    ensures |ns| == |layers|
  {
    seq(|layers|, i requires 0 <= i < |layers| => LayerSets(layers[i], R, C))
  }

  /** The weight sets of a whole forward pass: the stream's period. */
  function Total(ns: seq<nat>): nat {
    if ns == [] then 0 else Total(ns[..|ns| - 1]) + ns[|ns| - 1]
  }

  /** The network the scripts fix, at the 8 x 8 tile: 1274 and 26 sets, a period of 1300. */
  lemma FixedNetwork()
    ensures LayerSizes([Layer(784, 100), Layer(100, 10)], 8, 8) == [1274, 26]
    ensures Total([1274, 26]) == 1300
  {
    assert CeilDiv(784, 8) == 98 && CeilDiv(100, 8) == 13 && CeilDiv(10, 8) == 2;
    var ns: seq<nat> := [1274, 26];
    TotalSnoc(ns, 0);
    TotalSnoc(ns, 1);
    assert ns[..2] == ns && ns[..0] == [];
  }

  /** n references of the cycle 0, 1, ..., P-1, 0, 1, ... */
  ghost predicate Cyclic(refs: seq<int>, P: nat, n: nat) {
    |refs| == n && (n > 0 ==> P > 0) && forall i :: 0 <= i < n ==> refs[i] == i % P
  }

  lemma TotalSnoc(ns: seq<nat>, i: nat)
    requires i < |ns|
    ensures Total(ns[..i + 1]) == Total(ns[..i]) + ns[i]
  {
    assert ns[..i + 1][..i] == ns[..i];
  }

  lemma {:induction false} TotalMono(ns: seq<nat>, i: nat)
    requires i <= |ns|
    ensures Total(ns[..i]) <= Total(ns)
    decreases |ns| - i
  {
    if i == |ns| {
      assert ns[..i] == ns;
    } else {
      TotalMono(ns, i + 1);
      TotalSnoc(ns, i);
    }
  }

  /** The base id of every layer. */
  method Bases(ns: seq<nat>) returns (bases: seq<nat>)
    ensures |bases| == |ns|
    ensures forall i :: 0 <= i < |ns| ==> bases[i] == Total(ns[..i])
  {
    bases := [];
    var base := 0;
    for li := 0 to |ns|
      invariant |bases| == li && base == Total(ns[..li])
      invariant forall i :: 0 <= i < li ==> bases[i] == Total(ns[..i])
    {
      bases := bases + [base];
      TotalSnoc(ns, li);
      base := base + ns[li];
    }
  }

  lemma ModShift(q: int, P: nat, j: nat)
    requires j < P
    ensures (q * P + j) % P == j
  {
    var x := q * P + j;
    var d := q - x / P;
    assert d * P == q * P - (x / P) * P == x % P - j;
    assert d >= 1 ==> d * P >= P;
    assert d <= -1 ==> d * P + P <= 0;
  }

  /** The ids of n consecutive sets from base on. */
  function Run(base: nat, n: nat): seq<int> {
    seq(n, i => base + i)
  }

  lemma CyclicExtend(refs: seq<int>, P: nat, b: nat, base: nat, n: nat)
    requires Cyclic(refs, P, b * P + base) && base + n <= P
    ensures Cyclic(refs + Run(base, n), P, b * P + base + n)
  {
    forall i | |refs| <= i < |refs| + n
      ensures (refs + Run(base, n))[i] == i % P
    {
      ModShift(b, P, i - b * P);
    }
  }

  /** One layer's references: N tile outer, K tile inner. */
  method EmitLayer(out: seq<int>, base: nat, kt: nat, nt: nat) returns (out': seq<int>)
    ensures out' == out + Run(base, kt * nt)
  {
    out' := out;
    for nc := 0 to nt
      invariant out' == out + Run(base, nc * kt)
    {
      for kr := 0 to kt
        invariant out' == out + Run(base, nc * kt + kr)
      {
        out' := out' + [base + nc * kt + kr];
      }
      assert (nc + 1) * kt == nc * kt + kt;
    }
    assert nt * kt == kt * nt;
  }

  /** `batch` forward passes one after another are exactly `batch` turns of the cycle. */
  method Stream(layers: seq<Layer>, R: nat, C: nat, batch: nat) returns (out: seq<int>)
    requires R >= 1 && C >= 1
    ensures var P := Total(LayerSizes(layers, R, C)); Cyclic(out, P, batch * P)
  {
    out := [];
    var ns := LayerSizes(layers, R, C);
    ghost var P := Total(ns);
    var bases := Bases(ns);
    for b := 0 to batch
      invariant Cyclic(out, P, b * P)
    {
      for li := 0 to |layers|
        invariant Cyclic(out, P, b * P + Total(ns[..li]))
      {
        TotalSnoc(ns, li);
        TotalMono(ns, li + 1);
        CyclicExtend(out, P, b, bases[li], ns[li]);
        out := EmitLayer(out, bases[li], CeilDiv(layers[li].kin, R), CeilDiv(layers[li].nout, C));
      }
      assert ns[..|ns|] == ns;
      assert (b + 1) * P == b * P + P;
    }
  }

  /** With the batch inside the weight set, each set is visited once, in the same order. */
  method StreamBatched(layers: seq<Layer>, R: nat, C: nat) returns (out: seq<int>)
    requires R >= 1 && C >= 1
    ensures out == Run(0, Total(LayerSizes(layers, R, C)))
  {
    ghost var ns := LayerSizes(layers, R, C);
    var base := 0;
    out := [];
    for li := 0 to |layers|
      invariant base == Total(ns[..li])
      invariant out == Run(0, base)
    {
      out := EmitLayer(out, base, CeilDiv(layers[li].kin, R), CeilDiv(layers[li].nout, C));
      TotalSnoc(ns, li);
      base := base + LayerSets(layers[li], R, C);
    }
    assert ns[..|ns|] == ns;
  }
}
