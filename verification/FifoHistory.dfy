/** FIFO from its loads alone: the banks hold the last W sets loaded, and a hit leaves no trace. */
module FifoHistory {
  import opened Policies
  import opened LruStack

  /** FIFO's bank list after the references, from the list q. */
  function FifoBanks(W: nat, q: seq<int>, refs: seq<int>): seq<int>
    decreases |refs|
  {
    if refs == [] then q else FifoBanks(W, FifoStep(W, q, refs[0]), refs[1..])
  }

  /** The sets loaded so far, in order: each reference that is not among the last W loads is added. */
  ghost function Loads(W: nat, loads: seq<int>, refs: seq<int>): seq<int>
    decreases |refs|
  {
    if refs == [] then loads
    else Loads(W, if refs[0] in Keep(loads, W) then loads else loads + [refs[0]], refs[1..])
  }

  lemma PushKeep(W: nat, loads: seq<int>, r: int)
    ensures Push(W, Keep(loads, W), r) == Keep(loads + [r], W)
  {
    var top := Keep(loads, W);
    assert loads == loads[..|loads| - |top|] + top;
  }

  lemma {:induction false} LoadsFrom(W: nat, loads: seq<int>, refs: seq<int>)
    ensures FifoBanks(W, Keep(loads, W), refs) == Keep(Loads(W, loads, refs), W)
    ensures |loads| + FifoMisses(W, Keep(loads, W), refs) == |Loads(W, loads, refs)|
    decreases |refs|
  {
    if refs != [] {
      var r := refs[0];
      if r in Keep(loads, W) {
        LoadsFrom(W, loads, refs[1..]);
      } else {
        PushKeep(W, loads, r);
        LoadsFrom(W, loads + [r], refs[1..]);
      }
    }
  }

  /** FIFO holds exactly the last W sets it loaded, oldest first, and its misses are its loads. */
  lemma FifoHoldsLastLoads(W: nat, refs: seq<int>)
    ensures FifoBanks(W, [], refs) == Keep(Loads(W, [], refs), W)
    ensures FifoMisses(W, [], refs) == |Loads(W, [], refs)|
  {
    LoadsFrom(W, [], refs);
  }
}
