# Graph-Cities graph engine in Dafny

A verified model of the graph engine of Graph-Cities: `src/Graph.py` with its two records
`src/Node.py` and `src/Edge.py`. A `Graph` owns its nodes and edges. It builds them by
`insert_node` and `insert_edge`, exports them as an edge list, an adjacency list and an
adjacency matrix, and traverses them depth-first and breadth-first by marking `visited` flags.
It also computes shortest distances with Dijkstra's algorithm, rebuilds one shortest path,
and reports connectivity, connected components, cycles, node degrees, density and summary
statistics.

The graph is held as arenas in the class `Graphs.Graph`:

- `nodes` is a sequence of `Node(value, edges)`. Each node lists the positions of its incident edges.
- `index` maps a node value to its position, like `_node_map`.
- `edges` is a sequence of `Edge(value, from, to)`, with the endpoints stored as node values.
- `visited` holds the nodes' `visited` flags, in node order.
- `names` holds `node_names`.

`Valid()` says that:

- `index` is the inverse of the node values, so the values are distinct;
- every edge joins stored nodes;
- every node lists exactly its incident edges, in insertion order, and a self-loop twice.

Every operation that changes the graph or its flags is a method with a `modifies` frame. The
properties are stated against specification functions:

- undirected reachability by walks (`Walks`);
- traversal orders (`Traversals`);
- shortest distances over walk weights (`Distances`);
- a partition into components (`Components`);
- circuits (`Cycles`);
- out-lists and last-write-wins matrix cells (`Representations`);
- degree sums (`Statistics`).

`Scenarios` carries out two test fixtures of the repository on the model and derives their
expected outcomes.

Module layout: `common.dfy` (Option, Result, errors), `node.dfy`, `edge.dfy`, `walks.dfy`,
`store.dfy` (the arena invariant), `traversals.dfy`, `representations.dfy`, `components.dfy`,
`cycles.dfy`, `distances.dfy`, `stats.dfy`, `graph.dfy` (the class) and `scenarios.dfy`.

Three small definitions are used by the contracts rather than stated as properties:
`Representations.Named` replaces node values by their names (`dfs_names`, `bfs_names`),
`Representations.NamePairs` does the same for `(to, weight)` pairs
(`get_adjacency_list_names`), and `Graphs.Zip` pairs the distance and predecessor
dictionaries of `dijkstra` into one table.

Python's exceptions become `Err` results. The `ValueError` for a missing node becomes
`NodeNotFound`, `StartNotFound` or `EndNotFound`. The one for "no path" becomes
`NoPathExists`, and the one for missing names becomes `MissingNames`. An `IndexError` from an
out-of-range list index becomes `IndexOutOfRange`, and the error of `get_other_node` becomes
`NotAnEndpoint`.

## Model

| member | source | states |
|---|---|---|
| Nodes.EqualsIsValueEquivalence | src/Node.py:27-31 | node equality is reflexive, symmetric and transitive, and holds exactly when two fresh nodes with those values would be equal: it looks at the value only |
| Nodes.NeverEqualsForeign | src/Node.py:29-30 | a node never equals an object that is not a node |
| Nodes.HashRespectsEquals | src/Node.py:33-35 | equal nodes hash equally |
| Nodes.SetOfDeduplicates | src/Node.py:33-35 | a set of `Node(5), Node(5), Node(10)` has two elements |
| Edges.Edge.GetOtherNode | src/Edge.py:37-54 | succeeds exactly when the node is an endpoint, and then returns a node the edge joins it to; otherwise the error names the node |
| Edges.OtherOfFrom | src/Edge.py:49-50 | the other node of `node_from` is `node_to` |
| Edges.OtherOfTo | src/Edge.py:51-52 | with distinct endpoints, the other node of `node_to` is `node_from` |
| Edges.OtherIsInvolution | src/Edge.py:49-52 | taking the other node twice gives back the node; on a self-loop the other node is the node itself |
| Edges.JoinsOther | src/Edge.py:37-54 | an edge joining `a` and `b` gives `b` as the other node of `a`, in either direction |
| Edges.EqualsIsFieldEquality | src/Edge.py:29-35 | edges are equal exactly when weight, from and to are equal; direction matters unless it is a self-loop; never equal to a non-edge |
| Edges.MakeRespectsNodeEquality | src/Edge.py:9-19 | the constructor keeps the endpoints' values, so edges built from equal nodes are equal whatever the nodes' incident lists |
| Graphs.Graph.constructor | src/Graph.py:14-24 | a new graph is empty and valid |
| Graphs.Graph.SetNodeNames | src/Graph.py:26-32 | the names become the given sequence |
| Graphs.Graph.InsertNode | src/Graph.py:34-49 | idempotent: a present value leaves nodes, flags and index unchanged; a new value appends one fresh, unvisited node and indexes it; the result is the node with that value; validity is kept |
| Graphs.Graph.InsertEdge | src/Graph.py:51-71 | appends the edge once to the edge list; creates only the missing endpoints, once for a self-loop; the incidence lists stay exact |
| Graphs.Graph.Attach | src/Graph.py:66-70 | registering an edge at both endpoints and in the edge list keeps every incidence list exact and every node value in place |
| Graphs.DegreeAfterInsert | src/Graph.py:484-488 | inserting an edge adds one to the degree of each endpoint, two to a self-loop's node, and nothing elsewhere |
| Graphs.Graph.FindNode | src/Graph.py:179-188 | finds a node exactly when one holds the value, and returns a stored node with that value |
| Graphs.Graph.FindMaxIndex | src/Graph.py:165-177 | the number of names when set; otherwise 0 exactly for an empty graph, else one more than the largest value, which is attained |
| Graphs.MaxValue | src/Graph.py:174-177 | the largest node value: no value exceeds it and some node holds it |
| Representations.EdgeList | src/Graph.py:73-79 | built edge by edge, it has one entry per stored edge, and entry `k` is the `(weight, from, to)` triple of the `k`-th inserted edge |
| Representations.EdgeListNames | src/Graph.py:81-96 | fails without names; otherwise succeeds exactly when every endpoint indexes a name, and then holds the named triples in order |
| Representations.OutListMatchesEdgeList | src/Graph.py:98-115 | `(to, w)` is in slot `i` of the adjacency list exactly when `(w, i, to)` is in the edge list |
| Representations.CellMatchesEdgeList | src/Graph.py:147-163 | a matrix cell is 0 when no triple goes from `i` to `j`, else the weight of the last such triple |
| Graphs.Graph.AdjacencyList | src/Graph.py:98-115 | `find_max_index` slots; slot `i` is `None` when no edge leaves `i`, else that out-list; fails exactly when a source lies past the last slot |
| Graphs.Graph.AdjacencyListNames | src/Graph.py:117-145 | fails without names; else succeeds exactly when every endpoint indexes a name, and then slot `i` holds the renamed out-list of `i`, or `None` |
| Representations.NameSlots | src/Graph.py:134-145 | over the adjacency-list slots, fails exactly when an edge from a slot has a target without a name; otherwise slot `i` becomes `None` for an empty out-list and the renamed out-list otherwise |
| Graphs.Graph.AdjacencyMatrix | src/Graph.py:147-163 | a square matrix of side `find_max_index` holding the last-write-wins cells; fails exactly when an endpoint lies outside it |
| Graphs.Graph.ClearVisited | src/Graph.py:190-193 | every flag is false afterwards, and nothing else changes |
| Graphs.Graph.DfsHelper | src/Graph.py:195-216 | from an unvisited node, returns the nodes it newly marks, starting with that node, each once and each adjacent to one listed before it, in depth-first order: each next node is the first unmarked far end along the incidence list of the latest listed node that still has one; every neighbour of a returned node ends up marked; from a visited node, returns nothing and changes nothing |
| Graphs.Graph.Dfs | src/Graph.py:218-236 | fails for a missing start with all flags cleared; otherwise returns the start first, no duplicates, exactly the nodes reachable from the start, in depth-first order from nothing marked; those are the marked nodes afterwards |
| Graphs.Graph.DfsNames | src/Graph.py:238-253 | fails without names (flags untouched) or for a missing start (flags cleared); otherwise the names, in order, of the depth-first traversal from the start, whose nodes are exactly the marked ones afterwards |
| Graphs.Graph.Bfs | src/Graph.py:255-292 | fails for a missing start; otherwise a traversal of exactly the start's component, in breadth-first order: nodes are listed by the position of their earliest listed neighbour, and the children of one node follow that node's incidence list; exactly the listed nodes are marked afterwards |
| Graphs.Graph.BfsNames | src/Graph.py:294-309 | fails without names or start, flags untouched; otherwise the names, in order, of a breadth-first traversal from the start whose siblings follow their parent's incidence list, and whose nodes are exactly the marked ones afterwards |
| Traversals.DiscoveredReachable | src/Graph.py:195-216 | every node of a traversal is reachable from its first node |
| Traversals.LayeredOrder | src/Graph.py:273-290 | the queue discipline yields a breadth-first order |
| Traversals.SiblingsEnqueue | src/Graph.py:286-290 | appending the other end of the current incidence entry keeps the children of the node being expanded in incidence-list order |
| Traversals.SiblingsFromBookkeeping | src/Graph.py:278-290 | when each queued node's parent is its earliest listed neighbour and children sharing a parent were queued in incidence order, the order lists every node's children in its incidence-list order |
| Traversals.BreadthFirstUnique | src/Graph.py:255-292 | two traversals from the same start, both breadth-first with siblings in incidence order, are the same sequence |
| Graphs.Graph.Dijkstra | src/Graph.py:319-371 | fails for a missing start; otherwise a table over every node: the start `(0, None)`, each node its shortest distance (infinite when unreachable, then no predecessor), and each other reachable node a predecessor settled earlier that is joined to it by an edge of matching weight. The nodes are ranked in the order they are settled: distances never decrease along the ranking, and a tie goes to the smaller value unless its entry was not yet queued. Each predecessor is the first settled node to reach its node's distance across one edge |
| Graphs.Graph.DijkstraRound | src/Graph.py:344-368 | one round pops the least `(distance, value)` entry, settles its node and relaxes its edges; the loop state is kept |
| Distances.SettleByDistance | src/Graph.py:344-350 | the node popped from the queue, when settled, lies at or beyond the distance of every settled node and no later than any queued entry |
| Distances.TieLast | src/Graph.py:344-350 | a node settled after another at the same distance but with a smaller value had its predecessor settled no earlier than that other node, so its entry was not yet queued |
| Distances.UpdateEarliest | src/Graph.py:357-368 | when a strictly shorter distance replaces a predecessor, every node settled before the new predecessor still offers a strictly longer route |
| Distances.PopShortest | src/Graph.py:344-350 | the least unsettled queue entry carries the shortest distance of its node |
| Distances.ShortestUnique | src/Graph.py:319-371 | the shortest distance is unique |
| Distances.ShortestByPotential | src/Graph.py:319-371 | a walk whose weight equals a feasible potential at its end is a shortest walk |
| Distances.TableLink | src/Graph.py:398-402 | in the table, a reachable node other than the start has a predecessor that is ranked earlier and reachable, and the start has none |
| Graphs.Graph.ShortestPath | src/Graph.py:373-405 | fails for a missing start or end, or when the end is unreachable; otherwise returns a walk from start to end whose weight is the reported distance, and that distance is the shortest; start equal to end gives `([start], 0)` |
| Walks.ReachableSymmetric | src/Edge.py:37-54 | edges are crossed in either direction, so reachability is symmetric |
| Walks.ReachableTransitive | src/Graph.py:195-216 | reachability is transitive |
| Graphs.Graph.IsConnectedAsWritten | src/Graph.py:407-421 | true exactly when no flag was set beforehand and every node is reachable from every other; all flags are false afterwards |
| Graphs.Graph.IsConnected | src/Graph.py:407-421 | true exactly when every node is reachable from every other (an empty graph is connected); all flags false afterwards |
| Components.ExploredCount | src/Graph.py:416-421 | an exploration reaches as many nodes as the graph holds exactly when nothing was marked before and every node is reachable from the start |
| Graphs.Graph.ConnectedComponents | src/Graph.py:423-438 | lists that partition the node values: each list starts at the first unvisited node in storage order and holds exactly the nodes reachable from it, in the depth-first order `dfs` gives from that node; all flags false afterwards |
| Components.SameComponent | src/Graph.py:423-438 | within a component, a node belongs to it exactly when it is reachable from any member |
| Components.ComponentsDisjoint | src/Graph.py:423-438 | no node lies in two components |
| Components.ConnectedIffOneComponent | src/Graph.py:407-438 | the graph is connected exactly when it has at most one component |
| Traversals.DepthFirstExtend | src/Graph.py:209-213 | appending the depth-first order of a recursive call, entered through the next unmarked far end of the current node, keeps the whole order depth-first |
| Traversals.DepthFirstUnique | src/Graph.py:195-236 | two traversals from the same start, both in depth-first order from nothing marked, are the same sequence |
| Traversals.DepthFirstAlone | src/Graph.py:431-435 | a depth-first order over a set closed under adjacency stays depth-first when the marks left by earlier components are dropped |
| Components.ComponentIsDfs | src/Graph.py:423-438 | each component list is exactly the sequence `dfs` returns from its first node |
| Graphs.Graph.HasCycle | src/Graph.py:440-470 | true exactly when some closed trail of at least one edge exists, so a pair of parallel edges counts; all flags false on both returns |
| Graphs.Graph.CycleCheck | src/Graph.py:448-460 | the recursive check returns what the search function `CheckFrom` computes, flags included |
| Cycles.SearchCorrect | src/Graph.py:462-470 | the search over all nodes finds a back edge exactly when the edges contain a circuit |
| Cycles.CheckSound | src/Graph.py:448-460 | a reported back edge closes a circuit; otherwise the search extends a spanning forest over the nodes it marked |
| Cycles.AllFinishedNoCircuit | src/Graph.py:462-470 | once every node is finished without a back edge, no circuit exists |
| Graphs.Graph.Degree | src/Graph.py:472-488 | fails for a missing node; otherwise the number of incident edges, a self-loop counted twice |
| Statistics.PairsClosedForm | src/Graph.py:497-498 | `n(n-1)/2` counts the unordered pairs of different nodes |
| Statistics.Density | src/Graph.py:490-503 | 0 below two nodes; otherwise half the stored edges over the number of node pairs, with a positive denominator |
| Statistics.Handshake | src/Graph.py:472-488 | over distinct node values covering every endpoint, the degrees add up to twice the number of edges |
| Statistics.DegreeSummary | src/Graph.py:519-526 | nothing exactly for no nodes; otherwise the count, the sum, and a least and greatest degree that bound every degree and are attained |
| Graphs.Graph.Stats | src/Graph.py:505-528 | node count, stored edges halved, connectivity, cycle, density and the number of components; connected exactly when at most one component; degrees summing to twice the stored edges, with min and max bounds that are attained |
| Graphs.StoredValues | src/Graph.py:34-71 | the stored values are distinct and include every edge endpoint |
| Scenarios.WeightedDistances | tests/test_algorithms.py:145-168 | in the weighted fixture the shortest distances from A are 0, 1, 3 and 2 |
| Scenarios.WeightedTableUnique | tests/test_algorithms.py:160-168 | any valid Dijkstra table from A on the weighted fixture is exactly `{A: (0, None), B: (1, A), C: (3, D), D: (2, B)}` |
| Scenarios.WeightedDijkstra | tests/test_algorithms.py:145-168 | building the weighted fixture and running Dijkstra from A gives exactly that table |
| Scenarios.DiamondTableUnique | src/Graph.py:344-368 | on the diamond A-B, A-C, B-D, C-D (all weight 1), any valid Dijkstra table from A is `{A: (0, None), B: (1, A), C: (1, A), D: (2, B)}`. B, queued with C at the same distance, is settled first, and C's equal route to D does not replace it |
| Scenarios.DiamondDijkstra | src/Graph.py:319-371 | building the diamond and running Dijkstra from A gives exactly that table |
| Scenarios.FanMembers | src/Graph.py:255-292 | a traversal of the two-edge fan `0-1`, `0-2` from 0 is `[0, 1, 2]` or `[0, 2, 1]` |
| Scenarios.FanTie | src/Graph.py:286-290 | `[0, 2, 1]` puts 2 before 1 although node 0's incidence list meets 1 first |
| Scenarios.FanOrder | src/Graph.py:255-292 | on the fan, the only breadth-first traversal from 0 with siblings in incidence order is `[0, 1, 2]` |
| Scenarios.FanBfs | src/Graph.py:255-292 | adding the edges `0-1` and `0-2` and running BFS from 0 gives exactly `[0, 1, 2]` |
| Scenarios.SampleSlotsAndCells | tests/test_graph.py:200-251 | the sample graph's out-lists are `[(1,10),(2,30)]`, `[(2,20)]` and empty, and its matrix rows are `[0,10,30]`, `[0,0,20]`, `[0,0,0]` |
| Scenarios.SampleAdjacencyList | tests/test_graph.py:234-240 | building the sample graph and exporting it gives `[[(1,10),(2,30)], [(2,20)], None]` |
| Scenarios.SampleAdjacencyMatrix | tests/test_graph.py:242-251 | building the sample graph and exporting it gives the 3 by 3 matrix with 10, 20 and 30 in place |
| Graphs.StaleFlagCounterexample | src/Graph.py:407-421 | on a one-node graph after `dfs(0)`, `is_connected` as written answers false while the corrected one answers true |

## Left out

- Graphs.Graph.Dfs: the contract pins the order completely, ties included, through `DepthFirst` and the insertion order of incidence lists, and `DepthFirstUnique` shows there is one such order. The concrete sequences printed by `main.py` are not derived.
- Graphs.Graph.Bfs: the contract pins the order completely through `BreadthFirst` (earliest listed neighbour) and `SiblingsInOrder` (incidence order among children), and `BreadthFirstUnique` shows there is one such order. The concrete sequences printed by `main.py` are not derived.
- Graphs.Graph.Dijkstra: `SettleOrder` and `FirstReached` fix the settle order and the predecessors, ties included. Uniqueness of the whole table is proved only for the weighted fixture and the diamond (`WeightedTableUnique`, `DiamondTableUnique`); no general uniqueness lemma is stated.
- Graphs.Graph.ShortestPath: the contract gives a shortest walk, not a concrete path. It does not derive the fixture's expected path `[0, 1, 3]`.
- Graphs.Graph.Stats: the connectivity figure uses the corrected `is_connected` (see Findings). The degree figures are gathered before the searches, which change only flags.
- Weights and node values are natural numbers. Python accepts any comparable value, and a negative weight would break Dijkstra.
- `float('inf')` is the `Inf` distance. The density and the average degree are kept as exact numerators and denominators (`Fraction`, and a degree sum with a count); no floating-point division is modelled.
- `heapq` is a sequence with extract-min by `(distance, value)`, and `deque` is a sequence used first-in first-out. Their internal layout is not modelled.
- The dictionary returned by `dijkstra` is a map, so it does not keep Python's insertion order of keys.
- The `find_node(...) is None` guard inside `dijkstra` cannot fire, because every queued value is stored. The model has no such branch.
- In `get_graph_density`, the `max_edges > 0` fallback cannot fire at two or more nodes, so the model has no such branch.
- The constructor's optional `nodes` and `edges` arguments skip `_node_map`. The model always starts from an empty graph.
- `__str__` and `__repr__` of Node, Edge and Graph only format text.
- Python's recursion depth limit in `dfs_helper` and `dfs_cycle_check` is not modelled.
- `main.py` and the `examples/` scripts only build sample graphs and print results. `src/__init__.py` only re-exports names.

## Findings

| source | as written | input that shows it | evidently intended | confidence | as-written member | corrected member |
|---|---|---|---|---|---|---|
| src/Graph.py:407-421 | `is_connected` explores from `nodes[0]` without clearing the `visited` flags first. `dfs` and `bfs` leave their flags set, so nodes they marked are not counted. | insert node 0, call `dfs(0)`, then `is_connected()`: the exploration returns `[]`, 0 differs from 1, and the answer is False | True: every node is reachable from every other, whatever flags an earlier traversal left | not executed | Graphs.Graph.IsConnectedAsWritten, Graphs.StaleFlagCounterexample | Graphs.Graph.IsConnected |
