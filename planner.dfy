/** The page's route step: with at least two warehouses, build the graph,
    run the nearest-neighbour tour from row 0 and name its stops. */
module Planner {
  import opened Common
  import opened Warehouses
  import opened Graphs
  import opened Routes

  /** The computed route: row indices in visiting order and their names. */
  datatype Plan = Plan(indices: seq<nat>, names: seq<string>)

  /** `r` is the closed nearest-neighbour tour over the rows of `ws` from row
      0: it visits every row exactly once, returns to row 0, each step goes to
      a nearest row not yet visited (weights as the graph stores them), and a
      tie goes to the lowest row index. */
  ghost predicate NearestNeighborTour(ws: seq<Warehouse>, dist: Distance, r: seq<nat>)
  {
    var n := |ws|;
    && |r| == n + 1
    && (forall k :: 0 <= k < |r| ==> r[k] < n)
    && r[0] == 0 && r[n] == 0
    && Distinct(r[..n])
    && (forall x: nat :: x < n ==> x in r[..n])
    && (forall k :: 1 <= k < n ==> RowStepGreedy(ws, dist, r, k))
  }

  /** The route step of the page: no route for fewer than two warehouses;
      otherwise the tour from row 0 and, position by position, the names of
      its rows. */
  method PlanRoute(ws: seq<Warehouse>, dist: Distance) returns (plan: Option<Plan>)
    ensures plan.Some? <==> |ws| >= 2
    ensures plan.Some? ==> NearestNeighborTour(ws, dist, plan.value.indices)
    ensures plan.Some? ==> |plan.value.names| == |plan.value.indices|
    ensures plan.Some? ==> forall k :: 0 <= k < |plan.value.indices| ==>
              plan.value.indices[k] < |ws| && plan.value.names[k] == ws[plan.value.indices[k]].name
  {
    plan := None;
    if |ws| > 0 {
      var g := BuildGraph(ws, dist);
      if |ws| >= 2 {
        assert Iota(|ws|)[0] == 0;
        var route := NearestNeighborPath(g, 0);
        TourFromPath(ws, dist, g, route);
        plan := Some(Plan(route, RouteNames(ws, route)));
      }
    }
  }

  /** What NearestNeighborPath promises on the built graph, restated over row
      indices and EdgeWeight. */
  lemma TourFromPath(ws: seq<Warehouse>, dist: Distance, g: Graph, route: seq<nat>)
    requires |ws| >= 2 && g.nodes == Iota(|ws|)
    requires forall a: nat, b: nat :: a < |ws| && b < |ws| && a != b ==>
               (a, b) in g.weight && g.weight[(a, b)] == EdgeWeight(ws, dist, a, b)
    requires |route| == |g.nodes| + 1
    requires route[0] == 0 && route[|g.nodes|] == 0
    requires Distinct(route[..|g.nodes|])
    requires forall x :: x in route[..|g.nodes|] <==> x in g.nodes
    requires forall k :: 1 <= k < |g.nodes| ==> route[k] !in route[..k] && GreedyStep(g.nodes, g.weight, route, k)
    ensures NearestNeighborTour(ws, dist, route)
  {
    var n := |ws|;
    RowsOfRoute(n, g.nodes, route);
    forall k | 1 <= k < n ensures RowStepGreedy(ws, dist, route, k) {
      StepOverRows(ws, dist, g, route, k);
    }
  }

  /** A route whose first n entries are exactly the nodes 0..n-1 and whose
      last entry is 0 holds only row indices and covers every row. */
  lemma RowsOfRoute(n: nat, nodes: seq<nat>, route: seq<nat>)
    requires n >= 1 && nodes == Iota(n) && |route| == n + 1 && route[n] == 0
    requires forall x :: x in route[..n] <==> x in nodes
    ensures forall k :: 0 <= k < |route| ==> route[k] < n
    ensures forall x: nat :: x < n ==> x in route[..n]
  {
    forall k | 0 <= k < |route| ensures route[k] < n {
      if k < n {
        assert route[k] in route[..n];
      } else {
        assert nodes[0] == 0;
        assert 0 in route[..n];
      }
    }
    forall x: nat | x < n ensures x in route[..n] {
      assert nodes[x] == x;
    }
  }

  /** Step k of `r` goes to a nearest unvisited row, and every unvisited row
      with a lower index is strictly farther. */
  ghost predicate RowStepGreedy(ws: seq<Warehouse>, dist: Distance, r: seq<nat>, k: nat)
    requires 1 <= k < |r| && r[k - 1] < |ws| && r[k] < |ws|
  {
    && (forall m: nat :: m < |ws| && m !in r[..k] ==>
          EdgeWeight(ws, dist, r[k - 1], r[k]) <= EdgeWeight(ws, dist, r[k - 1], m))
    && (forall m: nat :: m < r[k] && m !in r[..k] ==>
          EdgeWeight(ws, dist, r[k - 1], m) > EdgeWeight(ws, dist, r[k - 1], r[k]))
  }

  /** One greedy step over graph nodes is a greedy step over row indices. */
  lemma StepOverRows(ws: seq<Warehouse>, dist: Distance, g: Graph, route: seq<nat>, k: nat)
    requires |ws| >= 2 && g.nodes == Iota(|ws|)
    requires forall a: nat, b: nat :: a < |ws| && b < |ws| && a != b ==>
               (a, b) in g.weight && g.weight[(a, b)] == EdgeWeight(ws, dist, a, b)
    requires 1 <= k < |ws| < |route|
    requires route[k - 1] < |ws| && route[k] < |ws|
    requires route[k] !in route[..k] && GreedyStep(g.nodes, g.weight, route, k)
    ensures RowStepGreedy(ws, dist, route, k)
  {
    assert route[k - 1] in route[..k];
    forall m: nat | m < |ws| && m !in route[..k]
      ensures EdgeWeight(ws, dist, route[k - 1], route[k]) <= EdgeWeight(ws, dist, route[k - 1], m)
    {
      assert g.nodes[m] == m;
    }
    forall m: nat | m < route[k] && m !in route[..k]
      ensures EdgeWeight(ws, dist, route[k - 1], m) > EdgeWeight(ws, dist, route[k - 1], route[k])
    {
      assert g.nodes[m] == m && g.nodes[route[k]] == route[k];
    }
  }

  /** The greedy rule and its tie-break leave no choice: two tours that both
      satisfy NearestNeighborTour for the same warehouses and distance are
      the same sequence, so recomputing the route gives the same answer. */
  lemma {:induction false} TourDeterministic(ws: seq<Warehouse>, dist: Distance, r1: seq<nat>, r2: seq<nat>)
    requires NearestNeighborTour(ws, dist, r1) && NearestNeighborTour(ws, dist, r2)
    ensures r1 == r2
  {
    var n := |ws|;
    var k := 1;
    while k < n
      invariant 1 <= k <= n || n == 0
      invariant k <= |r1| && r1[..k] == r2[..k]
    {
      SameStep(ws, dist, r1, r2, k);
      assert r1[..k + 1] == r1[..k] + [r1[k]];
      assert r2[..k + 1] == r2[..k] + [r2[k]];
      k := k + 1;
    }
    assert r1 == r1[..n] + [0] && r2 == r2[..n] + [0];
  }

  /** Two tours that agree before step k agree at step k. */
  lemma SameStep(ws: seq<Warehouse>, dist: Distance, r1: seq<nat>, r2: seq<nat>, k: nat)
    requires NearestNeighborTour(ws, dist, r1) && NearestNeighborTour(ws, dist, r2)
    requires 1 <= k < |ws| && r1[..k] == r2[..k]
    ensures r1[k] == r2[k]
  {
    var n := |ws|;
    assert r1[k - 1] == r1[..k][k - 1] == r2[k - 1];
    var x, y := r1[k], r2[k];
    assert RowStepGreedy(ws, dist, r1, k) && RowStepGreedy(ws, dist, r2, k);
    assert x !in r1[..k] by { DistinctStep(r1[..n], k); assert r1[..n][k] == x; assert r1[..n][..k] == r1[..k]; }
    assert y !in r2[..k] by { DistinctStep(r2[..n], k); assert r2[..n][k] == y; assert r2[..n][..k] == r2[..k]; }
    // each of x and y was open when the other was chosen, so a difference
    // would make one of them strictly farther and yet no farther
  }

  /** With two warehouses the only tour is row 0, row 1, back to row 0. */
  lemma TwoWarehouseTour(ws: seq<Warehouse>, dist: Distance, r: seq<nat>)
    requires |ws| == 2 && NearestNeighborTour(ws, dist, r)
    ensures r == [0, 1, 0]
  {
    assert 1 in r[..2];
  }

  /** In a distinct sequence, position k holds nothing that occurs before it. */
  lemma DistinctStep(s: seq<nat>, k: nat)
    requires Distinct(s) && k < |s|
    ensures s[k] !in s[..k]
  {
  }
}
