/** The nearest-neighbour tour over a built graph, and the mapping of the
    tour's node indices to warehouse names. */
module Routes {
  import opened Common
  import opened Warehouses
  import opened Graphs

  /** Every node not yet visited can be reached from `current` by an edge, so
      its weight can be looked up. */
  ghost predicate Reachable(nodes: seq<nat>, visited: seq<nat>, current: nat, w: map<(nat, nat), real>)
  {
    forall n :: n in nodes && n !in visited ==> (current, n) in w
  }

  /** One step of Python's `min` over the generator of unvisited nodes, keyed
      by the weight from `current`: a visited node is skipped, and an
      unvisited one replaces the best so far only when its weight is STRICTLY
      smaller, so the first minimum is kept. */
  function ScanStep(nodes: seq<nat>, visited: seq<nat>, current: nat, w: map<(nat, nat), real>,
                    i: nat, best: Option<nat>): (r: Option<nat>)
    requires i < |nodes|
    requires Reachable(nodes, visited, current, w)
    requires best.Some? ==> (current, best.value) in w
    ensures r.Some? ==> (current, r.value) in w
  {
    if nodes[i] in visited then best
    else if best.None? || w[(current, nodes[i])] < w[(current, best.value)] then Some(nodes[i])
    else best
  }

  /** The whole of `min`: walk `nodes` from position i in order. `None` stands
      for the empty generator. */
  function MinScan(nodes: seq<nat>, visited: seq<nat>, current: nat, w: map<(nat, nat), real>,
                   i: nat, best: Option<nat>): Option<nat>
    requires i <= |nodes|
    requires Reachable(nodes, visited, current, w)
    requires best.Some? ==> (current, best.value) in w
    decreases |nodes| - i
  {
    if i == |nodes| then best
    else MinScan(nodes, visited, current, w, i + 1, ScanStep(nodes, visited, current, w, i, best))
  }

  /** What the scan knows after reading `nodes[..i]`: `best` is absent only if
      every node read so far is visited, and otherwise it is an unvisited node
      read so far whose weight is no larger than any unvisited node read so
      far and strictly smaller than that of every unvisited node before it. */
  ghost predicate ScanInv(nodes: seq<nat>, visited: seq<nat>, current: nat, w: map<(nat, nat), real>,
                          i: nat, best: Option<nat>)
    requires i <= |nodes|
    requires Reachable(nodes, visited, current, w)
  {
    && (best.None? ==> forall p :: 0 <= p < i ==> nodes[p] in visited)
    && (best.Some? ==>
          && best.value in nodes[..i] && best.value !in visited
          && (forall p :: 0 <= p < i && nodes[p] !in visited ==>
                w[(current, best.value)] <= w[(current, nodes[p])])
          && (forall p, q :: 0 <= p < q < i && nodes[q] == best.value && nodes[p] !in visited ==>
                w[(current, nodes[p])] > w[(current, best.value)]))
  }

  /** One step of the scan keeps ScanInv. */
  lemma ScanStepCorrect(nodes: seq<nat>, visited: seq<nat>, current: nat, w: map<(nat, nat), real>,
                        i: nat, best: Option<nat>)
    requires Distinct(nodes)
    requires i < |nodes|
    requires Reachable(nodes, visited, current, w)
    requires ScanInv(nodes, visited, current, w, i, best)
    ensures ScanInv(nodes, visited, current, w, i + 1, ScanStep(nodes, visited, current, w, i, best))
  {
    var x := nodes[i];
    assert nodes[..i + 1] == nodes[..i] + [x];
    if x in visited {
    } else if best.None? || w[(current, x)] < w[(current, best.value)] {
      forall p, q | 0 <= p < q < i + 1 && nodes[q] == x && nodes[p] !in visited
        ensures w[(current, nodes[p])] > w[(current, x)]
      {
        assert q == i;
      }
    } else {
      assert x != best.value by {
        var q :| 0 <= q < i && nodes[q] == best.value;
      }
    }
  }

  /** The scan keeps ScanInv from position i to the end of `nodes`. */
  lemma {:induction false} MinScanCorrect(nodes: seq<nat>, visited: seq<nat>, current: nat, w: map<(nat, nat), real>,
                                          i: nat, best: Option<nat>)
    requires Distinct(nodes)
    requires i <= |nodes|
    requires Reachable(nodes, visited, current, w)
    requires ScanInv(nodes, visited, current, w, i, best)
    ensures ScanInv(nodes, visited, current, w, |nodes|, MinScan(nodes, visited, current, w, i, best))
    decreases |nodes| - i
  {
    if i < |nodes| {
      ScanStepCorrect(nodes, visited, current, w, i, best);
      MinScanCorrect(nodes, visited, current, w, i + 1, ScanStep(nodes, visited, current, w, i, best));
    }
  }

  /** The node `min` picks next: an unvisited node at the smallest weight from
      `current`, and among those at that weight the one that comes first in
      `nodes`. It is absent exactly when every node is visited. */
  function Nearest(nodes: seq<nat>, visited: seq<nat>, current: nat, w: map<(nat, nat), real>): (r: Option<nat>)
    requires Distinct(nodes)
    requires Reachable(nodes, visited, current, w)
    ensures r.None? <==> forall n :: n in nodes ==> n in visited
    ensures r.Some? ==> r.value in nodes && r.value !in visited
    ensures r.Some? ==> forall n :: n in nodes && n !in visited ==> w[(current, r.value)] <= w[(current, n)]
    ensures r.Some? ==> forall p, q :: 0 <= p < q < |nodes| && nodes[q] == r.value && nodes[p] !in visited ==>
              w[(current, nodes[p])] > w[(current, r.value)]
  {
    MinScanCorrect(nodes, visited, current, w, 0, None);
    var r := MinScan(nodes, visited, current, w, 0, None);
    assert nodes[..|nodes|] == nodes;
    r
  }

  /** Step k of `route` (k >= 1) went from `route[k-1]` to a nearest node among
      those not in `route[..k]`, and every such node that comes earlier in
      `nodes` is strictly farther. */
  ghost predicate GreedyStep(nodes: seq<nat>, w: map<(nat, nat), real>, route: seq<nat>, k: nat)
    requires 1 <= k < |route|
  {
    && (route[k - 1], route[k]) in w
    && (forall m :: m in nodes && m !in route[..k] ==>
          (route[k - 1], m) in w && w[(route[k - 1], route[k])] <= w[(route[k - 1], m)])
    && (forall p, q :: 0 <= p < q < |nodes| && nodes[q] == route[k] && nodes[p] !in route[..k] ==>
          (route[k - 1], nodes[p]) in w && w[(route[k - 1], nodes[p])] > w[(route[k - 1], route[k])])
  }

  /** `nearest_neighbor_path`: start at `start`, repeatedly move to the nearest
      unvisited node until every node is visited, then return to `start`. */
  method NearestNeighborPath(g: Graph, start: nat) returns (route: seq<nat>)
    requires g.Valid() && g.Complete() && start in g.nodes
    ensures |route| == |g.nodes| + 1
    ensures route[0] == start && route[|g.nodes|] == start
    ensures Distinct(route[..|g.nodes|])
    ensures forall x :: x in route[..|g.nodes|] <==> x in g.nodes
    ensures forall k :: 1 <= k < |g.nodes| ==> route[k] !in route[..k] && GreedyStep(g.nodes, g.weight, route, k)
  {
    var visited := [start];
    var current := start;
    while |visited| < |g.nodes|
      invariant 1 <= |visited| <= |g.nodes|
      invariant visited[0] == start && current == visited[|visited| - 1]
      invariant Distinct(visited)
      invariant forall x :: x in visited ==> x in g.nodes
      invariant forall k :: 1 <= k < |visited| ==> GreedyStep(g.nodes, g.weight, visited, k)
      decreases |g.nodes| - |visited|
    {
      ShorterSubsetMisses(visited, g.nodes);
      var next := Nearest(g.nodes, visited, current, g.weight);
      var x := next.value;
      ExtendGreedy(g.nodes, g.weight, visited, x);
      visited := visited + [x];
      current := x;
    }
    SameLengthSubsetCovers(visited, g.nodes);
    route := visited + [start];
    assert route[..|g.nodes|] == visited;
    forall k | 1 <= k < |g.nodes| ensures route[k] !in route[..k] && GreedyStep(g.nodes, g.weight, route, k) {
      assert route[..k] == visited[..k];
      assert route[k] == visited[k] && route[k - 1] == visited[k - 1];
      assert GreedyStep(g.nodes, g.weight, visited, k);
    }
  }

  /** Appending a node keeps the earlier steps, and the new step holds when the
      node is what Nearest picks. */
  lemma ExtendGreedy(nodes: seq<nat>, w: map<(nat, nat), real>, visited: seq<nat>, x: nat)
    requires |visited| >= 1
    requires forall k :: 1 <= k < |visited| ==> GreedyStep(nodes, w, visited, k)
    requires Distinct(nodes) && Reachable(nodes, visited, visited[|visited| - 1], w)
    requires Nearest(nodes, visited, visited[|visited| - 1], w) == Some(x)
    ensures forall k :: 1 <= k < |visited| + 1 ==> GreedyStep(nodes, w, visited + [x], k)
  {
    var v := visited + [x];
    forall k | 1 <= k < |v| ensures GreedyStep(nodes, w, v, k) {
      assert v[..k] == visited[..k] || k == |visited|;
      if k == |visited| {
        assert v[..k] == visited;
      } else {
        assert v[..k] == visited[..k];
        assert GreedyStep(nodes, w, visited, k);
      }
    }
  }

  /** The list comprehension that turns a route of row indices into names:
      position k holds the name of row `route[k]`. */
  function RouteNames(ws: seq<Warehouse>, route: seq<nat>): (names: seq<string>)
    requires forall k :: 0 <= k < |route| ==> route[k] < |ws|
    ensures |names| == |route|
    ensures forall k :: 0 <= k < |route| ==> names[k] == ws[route[k]].name
  {
    if route == [] then [] else [ws[route[0]].name] + RouteNames(ws, route[1..])
  }
}
