/** The flooding simulation of the routing binary: nodes with a fixed list of
    neighbours, one of them full at the start; in every round each full node
    sends to each of its neighbours, and a neighbour that was already full
    counts as wasted bandwidth. */
module Routing {

  datatype SimNode = SimNode(neighbors: seq<nat>, full: bool)

  datatype Network = Network(nodes: seq<SimNode>, timestamp: nat, wastedBandwidth: nat, fullNodes: nat)

  /** Every neighbour index names a node. */
  ghost predicate WellFormed(nodes: seq<SimNode>) {
    forall i, m :: 0 <= i < |nodes| && 0 <= m < |nodes[i].neighbors| ==> nodes[i].neighbors[m] < |nodes|
  }

  /** The number of full nodes. */
  function CountFull(nodes: seq<SimNode>): nat {
    if |nodes| == 0 then 0 else CountFull(nodes[..|nodes| - 1]) + (if nodes[|nodes| - 1].full then 1 else 0)
  }

  /** `Network::create_nodes`: `meshSize` neighbours per node, each a random
      draw (given as `draws`) reduced modulo the number of nodes; only node 0
      starts full. Rust reduces modulo `numNodes` and indexes node 0, so there
      is at least one node. */
  function CreateNodes(numNodes: nat, meshSize: nat, draws: seq<seq<nat>>): (nodes: seq<SimNode>)
    requires numNodes > 0
    requires |draws| == numNodes && forall i :: 0 <= i < numNodes ==> |draws[i]| == meshSize
    ensures |nodes| == numNodes && WellFormed(nodes)
    ensures forall i :: 0 <= i < numNodes ==> (nodes[i].full <==> i == 0)
    ensures forall i :: 0 <= i < numNodes ==> |nodes[i].neighbors| == meshSize
    ensures forall i, m :: 0 <= i < numNodes && 0 <= m < meshSize ==> nodes[i].neighbors[m] == draws[i][m] % numNodes
    ensures CountFull(nodes) == 1
  {
    var nodes := seq(numNodes, i requires 0 <= i < numNodes =>
      SimNode(seq(meshSize, m requires 0 <= m < meshSize => draws[i][m] % numNodes), i == 0));
    CountOnlyFirst(nodes);
    nodes
  }

  lemma {:induction false} CountOnlyFirst(nodes: seq<SimNode>)
    requires |nodes| > 0 && forall i :: 0 <= i < |nodes| ==> (nodes[i].full <==> i == 0)
    ensures CountFull(nodes) == 1
  {
    if |nodes| > 1 {
      CountOnlyFirst(nodes[..|nodes| - 1]);
    }
  }

  /** `Network::new`: the counters start at zero and one full node. */
  function NewNetwork(numNodes: nat, meshSize: nat, draws: seq<seq<nat>>): (net: Network)
    requires numNodes > 0
    requires |draws| == numNodes && forall i :: 0 <= i < numNodes ==> |draws[i]| == meshSize
    ensures net.timestamp == 0 && net.wastedBandwidth == 0
    ensures net.fullNodes == CountFull(net.nodes)
    ensures WellFormed(net.nodes) && |net.nodes| == numNodes
    ensures net.nodes == CreateNodes(numNodes, meshSize, draws) && net.fullNodes == 1
    ensures forall i :: 0 <= i < numNodes ==> (net.nodes[i].full <==> i == 0)
  {
    Network(CreateNodes(numNodes, meshSize, draws), 0, 0, 1)
  }

  /** Node i is full and lists k (other than itself) as a neighbour. */
  ghost predicate Informs(nodes: seq<SimNode>, i: int, k: nat) {
    0 <= i < |nodes| && nodes[i].full && k != i && k in nodes[i].neighbors
  }

  /** Some full node sends to k this round. */
  ghost predicate Informed(nodes: seq<SimNode>, k: nat) {
    exists i :: Informs(nodes, i, k)
  }

  /** One of the nodes before i informs k. */
  ghost predicate InformedBefore(nodes: seq<SimNode>, i: nat, k: nat) {
    exists i' :: 0 <= i' < i && Informs(nodes, i', k)
  }

  /** Among the first t neighbours of node i, those other than i that are full. */
  function WastedAt(nodes: seq<SimNode>, i: nat, t: nat): nat
    requires WellFormed(nodes) && i < |nodes| && t <= |nodes[i].neighbors|
  {
    if t == 0 then 0
    else
      var j := nodes[i].neighbors[t - 1];
      WastedAt(nodes, i, t - 1) + (if j != i && nodes[j].full then 1 else 0)
  }

  /** Over the first n nodes that are full, the sends to neighbours already full. */
  function WastedUpTo(nodes: seq<SimNode>, n: nat): nat
    requires WellFormed(nodes) && n <= |nodes|
  {
    if n == 0 then 0
    else WastedUpTo(nodes, n - 1) + (if nodes[n - 1].full then WastedAt(nodes, n - 1, |nodes[n - 1].neighbors|) else 0)
  }

  /** Setting one more flag raises the count of full nodes by one. */
  lemma {:induction false} CountFullSet(nodes: seq<SimNode>, j: nat)
    requires j < |nodes| && !nodes[j].full
    ensures CountFull(nodes[j := nodes[j].(full := true)]) == CountFull(nodes) + 1
  {
    var after := nodes[j := nodes[j].(full := true)];
    if j < |nodes| - 1 {
      assert after[..|after| - 1] == nodes[..|nodes| - 1][j := nodes[j].(full := true)];
      CountFullSet(nodes[..|nodes| - 1], j);
    } else {
      assert after[..|after| - 1] == nodes[..|nodes| - 1];
    }
  }

  /** `Network::round`. The first pass collects the destinations of all full
      nodes and counts sends to nodes already full; the second marks the
      destinations full, counting each node once. */
  method Round(net: Network) returns (next: Network)
    requires WellFormed(net.nodes)
    ensures next.timestamp == net.timestamp + 10
    ensures |next.nodes| == |net.nodes| && WellFormed(next.nodes)
    ensures forall k :: 0 <= k < |net.nodes| ==> next.nodes[k].neighbors == net.nodes[k].neighbors
    ensures forall k :: 0 <= k < |net.nodes| ==>
      (next.nodes[k].full <==> net.nodes[k].full || Informed(net.nodes, k))
    ensures next.wastedBandwidth == net.wastedBandwidth + 10 * WastedUpTo(net.nodes, |net.nodes|)
    ensures net.fullNodes == CountFull(net.nodes) ==> next.fullNodes == CountFull(next.nodes)
  {
    var nodes := net.nodes;
    var wasted := net.wastedBandwidth;
    var destinations: seq<nat> := [];
    var i := 0;
    while i < |nodes|
      invariant 0 <= i <= |nodes|
      invariant wasted == net.wastedBandwidth + 10 * WastedUpTo(nodes, i)
      invariant forall d :: d in destinations ==> d < |nodes|
      invariant forall k :: 0 <= k < |nodes| ==>
        (k in destinations <==> !nodes[k].full && InformedBefore(nodes, i, k))
    {
      if nodes[i].full {
        var neighbors := nodes[i].neighbors;
        var t := 0;
        while t < |neighbors|
          invariant 0 <= t <= |neighbors|
          invariant wasted == net.wastedBandwidth + 10 * (WastedUpTo(nodes, i) + WastedAt(nodes, i, t))
          invariant forall d :: d in destinations ==> d < |nodes|
          invariant forall k :: 0 <= k < |nodes| ==>
            (k in destinations <==>
              !nodes[k].full && (InformedBefore(nodes, i, k) || (k != i && k in neighbors[..t])))
        {
          var j := neighbors[t];
          assert neighbors[..t + 1] == neighbors[..t] + [j];
          if j != i {
            if nodes[j].full {
              wasted := wasted + 10;
            } else {
              destinations := destinations + [j];
            }
          }
          t := t + 1;
        }
        assert neighbors[..t] == neighbors;
        forall k | 0 <= k < |nodes|
          ensures InformedBefore(nodes, i + 1, k) <==> InformedBefore(nodes, i, k) || (k != i && k in neighbors)
        {
          if k != i && k in neighbors {
            assert Informs(nodes, i, k);
          }
        }
      } else {
        forall k | 0 <= k < |nodes|
          ensures InformedBefore(nodes, i + 1, k) <==> InformedBefore(nodes, i, k)
        {
          if InformedBefore(nodes, i + 1, k) {
            var i' :| 0 <= i' < i + 1 && Informs(nodes, i', k);
            assert i' != i;
          }
        }
      }
      i := i + 1;
    }

    var marked := nodes;
    var fullNodes: nat := net.fullNodes;
    var t := 0;
    while t < |destinations|
      invariant 0 <= t <= |destinations|
      invariant |marked| == |nodes|
      invariant forall d :: d in destinations ==> d < |nodes|
      invariant forall k :: 0 <= k < |nodes| ==> marked[k].neighbors == nodes[k].neighbors
      invariant forall k :: 0 <= k < |nodes| ==> (marked[k].full <==> nodes[k].full || k in destinations[..t])
      invariant fullNodes - CountFull(marked) == net.fullNodes - CountFull(nodes)
    {
      var j := destinations[t];
      assert j in destinations;
      assert destinations[..t + 1] == destinations[..t] + [j];
      if !marked[j].full {
        CountFullSet(marked, j);
        marked := marked[j := marked[j].(full := true)];
        fullNodes := fullNodes + 1;
      }
      t := t + 1;
    }
    assert destinations[..t] == destinations;
    assert forall k :: 0 <= k < |nodes| ==> (InformedBefore(nodes, |nodes|, k) <==> Informed(nodes, k));
    next := Network(marked, net.timestamp + 10, wasted, fullNodes);
  }
}
