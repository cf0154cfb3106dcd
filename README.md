# Supply-chain route planner: a Dafny model of its route heuristic

The page keeps a list of warehouses (name, latitude, longitude) entered
through a form. A submitted point is stored only when its coordinates are in
range. The page then builds a complete weighted graph over the stored rows,
with the geodesic distance as the weight. When there are at least two rows it
computes a nearest-neighbour visiting order that starts at row 0 and returns
to it, and shows that order as warehouse names.

This project models that core in Dafny and proves what it guarantees:

- `common.dfy` (`Common`): `Option`, `Distinct`, the index sequence `Iota`,
  and cardinality lemmas about distinct sequences.
- `warehouses.dfy` (`Warehouses`): the `Warehouse` row, the range check, and
  the session's warehouse list as a class whose `Submit` appends or rejects.
- `graph.dfy` (`Graphs`): the networkx graph as a class. It has the node list
  in insertion order and one weight per edge, stored under both orientations.
  `AddEdge` models `add_edge`. `BuildGraph` models the double loop.
- `route.dfy` (`Routes`): Python's `min` over the unvisited nodes as a pure
  left fold (`MinScan`, `Nearest`), `nearest_neighbor_path` as a method with
  a `while` loop, and the index-to-name mapping.
- `planner.dfy` (`Planner`): the two-row gate and the whole route step. The
  tour is stated as a predicate over row indices. Lemmas show that this
  predicate fixes the route uniquely and that two rows give `[0, 1, 0]`.

The distance is a parameter `dist: (Coord, Coord) -> real`. It can be any
total function. Nothing in the proofs assumes the distance is symmetric or
non-negative. Where symmetry matters, the statement says so with `Symmetric(dist) ==>`.

Two facts fix the behaviour on ties and come from how the code is written:

- Node order. networkx adds a node only when an edge first touches it. Row 0
  touches 1, 2, ..., n-1 in that order, so `G.nodes` is `0, 1, ..., n-1`
  when there are at least two rows. With one row no edge is added, so the
  graph has no nodes at all.
- Edge weight. An undirected edge has one weight. The call for `(j, i)`
  comes after the call for `(i, j)` and overwrites it. So the stored weight
  of `{a, b}` is `dist(row max(a,b), row min(a,b))`. This equals
  `dist(row a, row b)` when the distance is symmetric.

`min` replaces its candidate only on a strictly smaller key, so it keeps the
first minimum in node order. A tie therefore goes to the lowest row index.

## Model

| member | source | states |
|---|---|---|
| `Warehouses.Session.constructor` | app.py:14-15 | the session starts with an empty warehouse list |
| `Warehouses.Session.Submit` | app.py:26-30 | the row is appended exactly when -90 <= lat <= 90 and -180 <= lon <= 180, and the list is unchanged otherwise; every stored row stays in range |
| `Graphs.Graph.constructor` | app.py:62 | a new graph has no nodes and no edges |
| `Graphs.Graph.AddEdge` | app.py:70 | missing endpoints are appended in order u then v; the edge's single weight is set under both orientations, replacing an earlier one; the graph stays valid (distinct nodes, symmetric weights) |
| `Graphs.BuildGraph` | app.py:62-70 | the graph is complete with no self-loops, every key is a row pair, nodes are `0..n-1` for n >= 2 and none for n <= 1, the weight of (a, b) is the distance written by the larger row, and it is the distance from a to b when `dist` is symmetric |
| `Routes.ScanStepCorrect` | app.py:77-80 | reading one more node keeps the scan's invariant: a visited node is skipped, and a strictly lighter unvisited node replaces the best so far |
| `Routes.MinScanCorrect` | app.py:77-80 | the left-to-right `min` scan ends with nothing exactly when every node is visited, and otherwise with an unvisited node of least weight that is strictly lighter than every unvisited node before it |
| `Routes.Nearest` | app.py:77-80 | `Nearest` (via `MinScan`/`ScanStep`, the left fold that models `min`): the chosen node is absent iff all nodes are visited, and otherwise it is unvisited, its weight from the current node is minimal, and every earlier unvisited node in node order is strictly farther |
| `Routes.ExtendGreedy` | app.py:81-82 | appending the node `Nearest` picks keeps every earlier greedy step and adds a greedy step for the new position |
| `Routes.NearestNeighborPath` | app.py:73-83 | the route has N+1 entries, starts and ends at `start`, its first N entries are distinct and are exactly the graph's nodes, and each step moves to a nearest unvisited node, taking the earliest one in node order on ties |
| `Routes.RouteNames` | app.py:87 | the names list is as long as the route, and name k is the name of row `route[k]` |
| `Planner.PlanRoute` | app.py:85-87 | a plan exists iff there are at least two warehouses; its indices form the nearest-neighbour tour from row 0 with ties going to the lowest row index, and its names match the indices position by position |
| `Planner.TourFromPath` | app.py:63-83 | on the built graph, the route's node-order properties become properties over row indices and stored edge weights |
| `Planner.SameStep` | app.py:77-81 | two greedy tours that agree before step k choose the same row at step k |
| `Planner.TourDeterministic` | app.py:73-83 | the tour predicate has at most one solution, so the route is fully determined by the rows and the distance |
| `Planner.TwoWarehouseTour` | app.py:83-86 | with exactly two warehouses the route is `[0, 1, 0]` |

## Left out

- The Streamlit page, form widgets, success, error and info messages, and
  persistence of the list across reruns (app.py:8-13, 16-24, 28, 30, 88-99) are UI.
  Only the append-or-reject step is modelled.
- Parsing the text fields with `float(...)` and the `ValueError` message
  (app.py:25, 31-32) are not modelled. `Submit` takes numbers that are
  already parsed.
- Coordinates and weights are `real`. The floating-point NaN and infinity
  values that `float` can produce are not represented. The range check would
  reject them.
- The geodesic distance (app.py:66-69) is the opaque parameter `dist`. Its
  formula, non-negativity and triangle inequality are not modelled.
- Only the networkx behaviour the code relies on is modelled: node insertion
  order and one shared weight per edge. Node and edge attribute dictionaries
  are left out.
- The DataFrame, its display, the mean map centre, markers, polylines and map
  rendering (app.py:35-56, 91-97) are presentation.
- The code computes no total tour length and raises no errors of its own
  from the route step, so the model has neither.
- `Routes.NearestNeighborPath`: requires `start` to be a node and the graph
  to be complete. On a graph with at most one node, Python returns
  `[start, start]` even when `start` is not a node, because the loop never
  runs. With two or more nodes, Python raises `KeyError` when `start` is not
  a node or when the graph is incomplete. The only caller passes 0 under the
  two-row gate, where both requirements hold.
- Three behaviours of the code shape the model:
  - A single row gives a graph with no nodes, because nodes only come from
    edges.
  - The stored weight of an edge is the distance from the larger row to the
    smaller one.
  - The route step produces only the ordered names.
