/** The complete weighted graph over the warehouse list, built the way the
    networkx `Graph` is filled: a double loop over row indices that adds an
    edge for every ordered pair of distinct indices. */
module Graphs {
  import opened Common
  import opened Warehouses

  /** The distance between two coordinate pairs in kilometres. The geodesic
      computation itself is not modelled; any total function may stand in. */
  type Distance = (Coord, Coord) -> real

  ghost predicate Symmetric(dist: Distance)
  {
    forall c, d :: dist(c, d) == dist(d, c)
  }

  /** The node list after `add_edge` touches `x`: a node not yet present is
      appended, so nodes are kept in first-touch order. */
  function AddNode(ns: seq<nat>, x: nat): (r: seq<nat>)
  {
    if x in ns then ns else ns + [x]
  }

  /** An undirected weighted graph: `nodes` in insertion order and, for every
      edge {u, v}, its one weight stored under both (u, v) and (v, u). */
  class Graph {
    var nodes: seq<nat>
    var weight: map<(nat, nat), real>

    /** Nodes are distinct, every edge joins two nodes, and the two
        orientations of an edge carry the same weight. */
    ghost predicate Valid()
      reads this
    {
      && Distinct(nodes)
      && (forall a, b :: (a, b) in weight ==>
            a in nodes && b in nodes && (b, a) in weight && weight[(b, a)] == weight[(a, b)])
    }

    /** Every two distinct nodes are joined by an edge. */
    ghost predicate Complete()
      reads this
    {
      forall a, b :: a in nodes && b in nodes && a != b ==> (a, b) in weight
    }

    constructor ()
      ensures Valid() && nodes == [] && weight == map[]
    {
      nodes := [];
      weight := map[];
    }

    /** `add_edge(u, v, weight=w)`: adds the endpoints that are missing, u
        before v, and sets the edge's single weight, replacing any earlier one. */
    method AddEdge(u: nat, v: nat, w: real)
      requires Valid()
      modifies this
      ensures Valid()
      ensures nodes == AddNode(AddNode(old(nodes), u), v)
      ensures weight == old(weight)[(u, v) := w][(v, u) := w]
    {
      nodes := AddNode(AddNode(nodes, u), v);
      weight := weight[(u, v) := w][(v, u) := w];
    }
  }

  /** The node order of the finished graph: an isolated row never becomes a
      node, so fewer than two warehouses give no nodes at all, and otherwise
      row 0 touches 0, 1, ..., n-1 in that order. */
  function NodeOrder(n: nat): (r: seq<nat>)
  {
    if n >= 2 then Iota(n) else []
  }

  /** The weight that the finished graph holds for the edge {a, b}: the pair is
      added twice, as (a, b) and as (b, a), and the later call, the one whose
      row is the larger index, wins. */
  function EdgeWeight(ws: seq<Warehouse>, dist: Distance, a: nat, b: nat): real
    requires a < |ws| && b < |ws|
  {
    dist(ws[Max(a, b)].Position(), ws[Min(a, b)].Position())
  }

  // ---- loop state of BuildGraph ----

  /** The call for the ordered pair (x, y) precedes the loop cursor (i, j). */
  predicate Done(x: nat, y: nat, i: nat, j: nat)
  {
    x < i || (x == i && y < j)
  }

  /** The weight stored for {a, b} once the calls before cursor (i, j) ran. */
  function StoredWeight(ws: seq<Warehouse>, dist: Distance, a: nat, b: nat, i: nat, j: nat): real
    requires a < |ws| && b < |ws|
  {
    var hi, lo := Max(a, b), Min(a, b);
    if Done(hi, lo, i, j) then dist(ws[hi].Position(), ws[lo].Position())
    else dist(ws[lo].Position(), ws[hi].Position())
  }

  /** The node list once the calls before cursor (i, j) ran. */
  function NodesAt(n: nat, i: nat, j: nat): seq<nat>
  {
    if i == 0 then (if j >= 2 then Iota(j) else []) else NodeOrder(n)
  }

  /** The edges present once the calls before cursor (i, j) ran: exactly the
      ordered pairs of distinct indices one of whose two calls already ran,
      each with the weight that call left behind. */
  ghost predicate WeightsAt(w: map<(nat, nat), real>, ws: seq<Warehouse>, dist: Distance, i: nat, j: nat)
  {
    && (forall a, b :: (a, b) in w ==>
          && a < |ws| && b < |ws| && a != b
          && (Done(a, b, i, j) || Done(b, a, i, j))
          && w[(a, b)] == StoredWeight(ws, dist, a, b, i, j))
    && (forall a: nat, b: nat :: a < |ws| && b < |ws| && a != b && (Done(a, b, i, j) || Done(b, a, i, j)) ==> (a, b) in w)
  }

  /** One call of the inner loop moves the edge map from cursor (i, j) to (i, j+1). */
  lemma WeightsStep(w: map<(nat, nat), real>, ws: seq<Warehouse>, dist: Distance, i: nat, j: nat)
    requires i < |ws| && j < |ws|
    requires WeightsAt(w, ws, dist, i, j)
    ensures i == j ==> WeightsAt(w, ws, dist, i, j + 1)
    ensures i != j ==> WeightsAt(w[(i, j) := dist(ws[i].Position(), ws[j].Position())]
                                  [(j, i) := dist(ws[i].Position(), ws[j].Position())], ws, dist, i, j + 1)
  {
    var d := dist(ws[i].Position(), ws[j].Position());
    if i != j {
      var u := w[(i, j) := d][(j, i) := d];
      forall a, b | (a, b) in u
        ensures && a < |ws| && b < |ws| && a != b
                && (Done(a, b, i, j + 1) || Done(b, a, i, j + 1))
                && u[(a, b)] == StoredWeight(ws, dist, a, b, i, j + 1)
      {
        if (a, b) != (i, j) && (a, b) != (j, i) {
          assert (a, b) in w;
        }
      }
    }
  }

  /** One call of the inner loop moves the node list from cursor (i, j) to (i, j+1). */
  lemma NodesStep(n: nat, i: nat, j: nat)
    requires i < n && j < n
    ensures i != j ==> AddNode(AddNode(NodesAt(n, i, j), i), j) == NodesAt(n, i, j + 1)
    ensures i == j ==> NodesAt(n, i, j) == NodesAt(n, i, j + 1)
  {
    if i == 0 && j >= 2 {
      assert Iota(j)[0] == 0;
      assert j !in Iota(j);
      assert Iota(j + 1) == Iota(j) + [j];
    } else if i == 0 && j == 1 {
      assert Iota(2) == [0, 1];
    } else if i > 0 {
      assert Iota(n)[i] == i && Iota(n)[j] == j;
    }
  }

  /** Finishing a row is the same as standing at the start of the next one. */
  lemma RowStep(w: map<(nat, nat), real>, ws: seq<Warehouse>, dist: Distance, i: nat)
    requires i < |ws|
    requires WeightsAt(w, ws, dist, i, |ws|)
    ensures WeightsAt(w, ws, dist, i + 1, 0)
    ensures NodesAt(|ws|, i, |ws|) == NodesAt(|ws|, i + 1, 0)
  {
  }

  /** After the last row every ordered pair of distinct indices holds the
      weight written by the larger row. */
  lemma BuildDone(g: Graph, ws: seq<Warehouse>, dist: Distance)
    requires g.nodes == NodeOrder(|ws|)
    requires WeightsAt(g.weight, ws, dist, |ws|, 0)
    ensures g.Complete()
    ensures forall e :: e in g.weight ==> e.0 != e.1 && e.0 < |ws| && e.1 < |ws|
    ensures forall a: nat, b: nat :: a < |ws| && b < |ws| && a != b ==>
              (a, b) in g.weight && g.weight[(a, b)] == EdgeWeight(ws, dist, a, b)
    ensures Symmetric(dist) ==> forall a: nat, b: nat :: a < |ws| && b < |ws| && a != b ==>
              (a, b) in g.weight && g.weight[(a, b)] == dist(ws[a].Position(), ws[b].Position())
  {
    forall a, b | a in g.nodes && b in g.nodes && a != b ensures (a, b) in g.weight {
      assert a < |ws| && b < |ws|;
    }
  }

  /** The graph-building double loop: for every ordered pair of distinct row
      indices (i, j), in row-major order, add the edge (i, j) weighted by the
      distance from row i to row j. */
  method BuildGraph(ws: seq<Warehouse>, dist: Distance) returns (g: Graph)
    ensures fresh(g) && g.Valid() && g.Complete()
    ensures g.nodes == NodeOrder(|ws|)
    ensures forall e :: e in g.weight ==> e.0 != e.1 && e.0 < |ws| && e.1 < |ws|
    ensures forall a: nat, b: nat :: a < |ws| && b < |ws| && a != b ==>
              (a, b) in g.weight && g.weight[(a, b)] == EdgeWeight(ws, dist, a, b)
    ensures Symmetric(dist) ==> forall a: nat, b: nat :: a < |ws| && b < |ws| && a != b ==>
              (a, b) in g.weight && g.weight[(a, b)] == dist(ws[a].Position(), ws[b].Position())
  {
    var n := |ws|;
    g := new Graph();
    var i := 0;
    while i < n
      invariant 0 <= i <= n
      invariant g.Valid()
      invariant g.nodes == NodesAt(n, i, 0)
      invariant WeightsAt(g.weight, ws, dist, i, 0)
    {
      var j := 0;
      while j < n
        invariant 0 <= j <= n
        invariant g.Valid()
        invariant g.nodes == NodesAt(n, i, j)
        invariant WeightsAt(g.weight, ws, dist, i, j)
      {
        NodesStep(n, i, j);
        WeightsStep(g.weight, ws, dist, i, j);
        if i != j {
          var d := dist(ws[i].Position(), ws[j].Position());
          g.AddEdge(i, j, d);
        }
        j := j + 1;
      }
      RowStep(g.weight, ws, dist, i);
      i := i + 1;
    }
    BuildDone(g, ws, dist);
  }
}
