/**
 * Concrete outcomes the repository's tests fix, derived from the general contracts: the
 * Dijkstra table and shortest path of the weighted four-node graph of
 * tests/test_algorithms.py, and the adjacency list and matrix of the three-edge sample
 * graph of tests/test_graph.py, the breadth-first order on two edges leaving one node, and
 * the predecessor `dijkstra` keeps when two routes to a node weigh the same.
 */
module Scenarios {
  import opened Common
  import opened Edges
  import opened Walks
  import opened Traversals
  import opened Stores
  import opened Distances
  import opened Representations
  import opened Graphs

  /** The weighted test graph: A-B 1, A-C 10, B-D 1, C-D 1, with A, B, C, D numbered 0 to 3. */
  function Weighted(): seq<Edge> {
    [Edge(1, 0, 1), Edge(10, 0, 2), Edge(1, 1, 3), Edge(1, 2, 3)]
  }

  /** The table the test expects from `dijkstra(0)`: C is reached through D, not directly. */
  function WeightedTable(): map<nat, (Dist, Option<nat>)> {
    map[0 := (Fin(0), None), 1 := (Fin(1), Some(0)), 2 := (Fin(3), Some(3)), 3 := (Fin(2), Some(1))]
  }

  /** The distance from A of each node, as a potential. */
  function WeightedPotential(): map<nat, nat> {
    map[0 := 0, 1 := 1, 2 := 3, 3 := 2]
  }

  /** No edge of the weighted graph joins nodes whose distances differ by more than its weight. */
  lemma WeightedFeasible()
    ensures Feasible(Weighted(), WeightedPotential())
  {
    var e, pot := Weighted(), WeightedPotential();
    forall k | 0 <= k < |e|
      ensures e[k].from in pot && e[k].to in pot
      ensures pot[e[k].to] <= pot[e[k].from] + e[k].value && pot[e[k].from] <= pot[e[k].to] + e[k].value
    {
      assert k == 0 || k == 1 || k == 2 || k == 3;
    }
  }

  /** The shortest distances from A: 0, 1, 3 and 2, certified by walks and the potential. */
  lemma WeightedDistances()
    ensures ShortestIs(Weighted(), 0, 0, Fin(0))
    ensures ShortestIs(Weighted(), 0, 1, Fin(1))
    ensures ShortestIs(Weighted(), 0, 2, Fin(3))
    ensures ShortestIs(Weighted(), 0, 3, Fin(2))
  {
    ShortestToSelf(Weighted(), 0);
    WeightedShortest(Walk([0, 1], [0]), 1);
    WeightedShortestD();
    WeightedShortestC();
  }

  /** A, B, D is a shortest walk to D. */
  lemma WeightedShortestD()
    ensures ShortestIs(Weighted(), 0, 3, Fin(2))
  {
    WeightedShortest(Walk([0, 1, 3], [0, 2]), 3);
  }

  /** A, B, D, C is a shortest walk to C, cheaper than the direct edge. */
  lemma WeightedShortestC()
    ensures ShortestIs(Weighted(), 0, 2, Fin(3))
  {
    var w := Walk([0, 1, 3, 2], [0, 2, 3]);
    assert w.via[..2] == [0, 2] && Weight(Weighted(), [0, 2]) == 2;
    WeightedShortest(w, 2);
  }

  /** A walk from A to `t` weighing the potential of `t` is a shortest one. */
  lemma WeightedShortest(w: Walk, t: nat)
    requires t in WeightedPotential()
    requires WalkBetween(Weighted(), w, 0, t) && Weight(Weighted(), w.via) == WeightedPotential()[t]
    ensures ShortestIs(Weighted(), 0, t, Fin(WeightedPotential()[t]))
  {
    WeightedFeasible();
    ShortestByPotential(Weighted(), WeightedPotential(), 0, t, WeightedPotential()[t]);
  }

  /** `table` holds the shortest distances from A of the weighted graph. */
  ghost predicate WeightedDistancesIn(table: map<nat, (Dist, Option<nat>)>) {
    && table.Keys == {0, 1, 2, 3}
    && table[0].0 == Fin(0) && table[1].0 == Fin(1) && table[2].0 == Fin(3) && table[3].0 == Fin(2)
  }

  /** The only predecessor a node of the weighted graph can have, given its distance and theirs. */
  lemma WeightedPredecessor(table: map<nat, (Dist, Option<nat>)>, rank: map<nat, nat>, u: nat, v: nat)
    requires Predecessor(Weighted(), table, rank, u, v)
    requires WeightedDistancesIn(table)
    ensures v in WeightedTable() && WeightedTable()[v].1 == Some(u)
  {
    var e := Weighted();
    var k :| 0 <= k < |e| && e[k].Joins(u, v) && table[v].0.n == table[u].0.n + e[k].value;
    assert k == 0 || k == 1 || k == 2 || k == 3;
  }

  /** The distances of a table `dijkstra(0)` can return are the shortest ones. */
  lemma WeightedTableDistances(table: map<nat, (Dist, Option<nat>)>, rank: map<nat, nat>)
    requires Table(Weighted(), {0, 1, 2, 3}, 0, table, rank)
    ensures WeightedDistancesIn(table)
  {
    var e := Weighted();
    WeightedDistances();
    assert 1 in {0, 1, 2, 3} && 2 in {0, 1, 2, 3} && 3 in {0, 1, 2, 3};
    ShortestUnique(e, 0, 1, table[1].0, Fin(1));
    ShortestUnique(e, 0, 2, table[2].0, Fin(3));
    ShortestUnique(e, 0, 3, table[3].0, Fin(2));
  }

  /** Whatever ranks it comes with, a table `dijkstra(0)` can return is the one the test expects. */
  lemma WeightedTableUnique(table: map<nat, (Dist, Option<nat>)>, rank: map<nat, nat>)
    requires Table(Weighted(), {0, 1, 2, 3}, 0, table, rank)
    ensures table == WeightedTable()
  {
    WeightedTableDistances(table, rank);
    assert table[1].1.Some? && Predecessor(Weighted(), table, rank, table[1].1.value, 1);
    WeightedPredecessor(table, rank, table[1].1.value, 1);
    assert table[2].1.Some? && Predecessor(Weighted(), table, rank, table[2].1.value, 2);
    WeightedPredecessor(table, rank, table[2].1.value, 2);
    assert table[3].1.Some? && Predecessor(Weighted(), table, rank, table[3].1.value, 3);
    WeightedPredecessor(table, rank, table[3].1.value, 3);
    TableOfFour(table);
  }

  /** A map on 0, 1, 2, 3 agreeing with the expected table at each of them is that table. */
  lemma TableOfFour(table: map<nat, (Dist, Option<nat>)>)
    requires table.Keys == {0, 1, 2, 3}
    requires table[0] == (Fin(0), None) && table[1] == (Fin(1), Some(0))
    requires table[2] == (Fin(3), Some(3)) && table[3] == (Fin(2), Some(1))
    ensures table == WeightedTable()
  {
  }

  /** Builds the first two edges of the weighted test graph. */
  method BuildWeightedStart() returns (g: Graph)
    ensures fresh(g) && g.Valid()
    ensures g.edges == Weighted()[..2] && g.index.Keys == {0, 1, 2}
  {
    g := new Graph();
    AddEdge(g, 1, 0, 1);
    AddEdge(g, 10, 0, 2);
  }

  /** Builds the weighted test graph edge by edge. */
  method BuildWeighted() returns (g: Graph)
    ensures fresh(g) && g.Valid()
    ensures g.edges == Weighted() && g.index.Keys == {0, 1, 2, 3}
  {
    g := BuildWeightedStart();
    AddEdge(g, 1, 1, 3);
    AddEdge(g, 1, 2, 3);
  }

  /** `insert_edge` as a test calls it, keeping only the edge list and the stored values. */
  method AddEdge(g: Graph, w: nat, a: nat, b: nat)
    requires g.Valid()
    modifies g
    ensures g.Valid() && g.edges == old(g.edges) + [Edge(w, a, b)]
    ensures g.index.Keys == old(g.index.Keys) + {a, b} && g.names == old(g.names)
  {
    var _ := g.InsertEdge(w, a, b);
  }

  /** tests/test_algorithms.py, `dijkstra(0)` on the weighted graph: exactly the expected table. */
  method WeightedDijkstra() returns (res: Result<map<nat, (Dist, Option<nat>)>>)
    ensures res == Ok(WeightedTable())
  {
    var g := BuildWeighted();
    ghost var rank;
    res, rank := g.Dijkstra(0);
    WeightedTableUnique(res.value, rank);
  }

  /** Two routes of equal weight from A to D: A-B 1, A-C 1, B-D 1, C-D 1, with A, B, C, D numbered 0 to 3. */
  function Diamond(): seq<Edge> {
    [Edge(1, 0, 1), Edge(1, 0, 2), Edge(1, 1, 3), Edge(1, 2, 3)]
  }

  /** `dijkstra(0)` on the diamond: B is settled before C, so D keeps B, the first to reach it. */
  function DiamondTable(): map<nat, (Dist, Option<nat>)> {
    map[0 := (Fin(0), None), 1 := (Fin(1), Some(0)), 2 := (Fin(1), Some(0)), 3 := (Fin(2), Some(1))]
  }

  /** The distance from A of each node of the diamond, as a potential. */
  function DiamondPotential(): map<nat, nat> {
    map[0 := 0, 1 := 1, 2 := 1, 3 := 2]
  }

  /** A walk from A to `t` weighing the potential of `t` is a shortest one. */
  lemma DiamondShortest(w: Walk, t: nat)
    requires t in DiamondPotential()
    requires WalkBetween(Diamond(), w, 0, t) && Weight(Diamond(), w.via) == DiamondPotential()[t]
    ensures ShortestIs(Diamond(), 0, t, Fin(DiamondPotential()[t]))
  {
    var e, pot := Diamond(), DiamondPotential();
    forall k | 0 <= k < |e|
      ensures e[k].from in pot && e[k].to in pot
      ensures pot[e[k].to] <= pot[e[k].from] + e[k].value && pot[e[k].from] <= pot[e[k].to] + e[k].value
    {
      assert k == 0 || k == 1 || k == 2 || k == 3;
    }
    ShortestByPotential(e, pot, 0, t, pot[t]);
  }

  /** The shortest distances from A on the diamond: 0, 1, 1 and 2. */
  lemma DiamondDistances()
    ensures ShortestIs(Diamond(), 0, 1, Fin(1))
    ensures ShortestIs(Diamond(), 0, 2, Fin(1))
    ensures ShortestIs(Diamond(), 0, 3, Fin(2))
  {
    DiamondShortest(Walk([0, 1], [0]), 1);
    DiamondShortest(Walk([0, 2], [1]), 2);
    var w := Walk([0, 1, 3], [0, 2]);
    assert w.via[..1] == [0];
    DiamondShortest(w, 3);
  }

  /** `table` holds the shortest distances from A of the diamond. */
  ghost predicate DiamondDistancesIn(table: map<nat, (Dist, Option<nat>)>) {
    && table.Keys == {0, 1, 2, 3}
    && table[0].0 == Fin(0) && table[1].0 == Fin(1) && table[2].0 == Fin(1) && table[3].0 == Fin(2)
  }

  /** The distances of a table `dijkstra(0)` can return on the diamond are the shortest ones. */
  lemma DiamondTableDistances(table: map<nat, (Dist, Option<nat>)>, rank: map<nat, nat>)
    requires Table(Diamond(), {0, 1, 2, 3}, 0, table, rank)
    ensures DiamondDistancesIn(table)
  {
    var e := Diamond();
    DiamondDistances();
    assert 1 in {0, 1, 2, 3} && 2 in {0, 1, 2, 3} && 3 in {0, 1, 2, 3};
    ShortestUnique(e, 0, 1, table[1].0, Fin(1));
    ShortestUnique(e, 0, 2, table[2].0, Fin(1));
    ShortestUnique(e, 0, 3, table[3].0, Fin(2));
  }

  /**
   * Whatever ranks it comes with, a table `dijkstra(0)` can return on the diamond is the one
   * above: B and C share distance 1 and are both queued by A, so B, the smaller, is settled
   * first and D keeps it as predecessor rather than C.
   */
  lemma DiamondTableUnique(table: map<nat, (Dist, Option<nat>)>, rank: map<nat, nat>)
    requires Table(Diamond(), {0, 1, 2, 3}, 0, table, rank)
    ensures table == DiamondTable()
  {
    var e := Diamond();
    DiamondTableDistances(table, rank);
    assert table[0] == (Fin(0), None);
    assert table[1].1.Some? && Predecessor(e, table, rank, table[1].1.value, 1);
    DiamondPredecessor(table, rank, table[1].1.value, 1);
    assert table[2].1.Some? && Predecessor(e, table, rank, table[2].1.value, 2);
    DiamondPredecessor(table, rank, table[2].1.value, 2);
    assert table[3].1.Some? && Predecessor(e, table, rank, table[3].1.value, 3);
    DiamondPredecessor(table, rank, table[3].1.value, 3);
    assert 0 in rank && 1 in rank && 2 in rank;
    assert rank[0] != rank[1] && rank[0] != rank[2] && rank[1] != rank[2];
    assert !(rank[1] < rank[0]) && !(rank[2] < rank[0]);
    assert !(rank[2] < rank[1]);
    assert 0 <= 2 < |e| && e[2].Joins(1, 3) && table[3].0 == Fin(table[1].0.n + e[2].value);
    assert rank[table[3].1.value] <= rank[1];
    DiamondOfFour(table);
  }

  /** On the diamond, B and C can only have A as predecessor, and D only B or C. */
  lemma DiamondPredecessor(table: map<nat, (Dist, Option<nat>)>, rank: map<nat, nat>, u: nat, v: nat)
    requires Predecessor(Diamond(), table, rank, u, v)
    requires DiamondDistancesIn(table)
    ensures v == 1 || v == 2 ==> u == 0
    ensures v == 3 ==> u == 1 || u == 2
  {
    var e := Diamond();
    var k :| 0 <= k < |e| && e[k].Joins(u, v) && table[v].0.n == table[u].0.n + e[k].value;
    assert k == 0 || k == 1 || k == 2 || k == 3;
  }

  /** A map on 0, 1, 2, 3 agreeing with the diamond's table at each of them is that table. */
  lemma DiamondOfFour(table: map<nat, (Dist, Option<nat>)>)
    requires table.Keys == {0, 1, 2, 3}
    requires table[0] == (Fin(0), None) && table[1] == (Fin(1), Some(0))
    requires table[2] == (Fin(1), Some(0)) && table[3] == (Fin(2), Some(1))
    ensures table == DiamondTable()
  {
  }

  /** Builds the diamond edge by edge. */
  method BuildDiamond() returns (g: Graph)
    ensures fresh(g) && g.Valid()
    ensures g.edges == Diamond() && g.index.Keys == {0, 1, 2, 3}
  {
    g := BuildDiamondStart();
    AddEdge(g, 1, 1, 3);
    AddEdge(g, 1, 2, 3);
  }

  /** Builds the first two edges of the diamond. */
  method BuildDiamondStart() returns (g: Graph)
    ensures fresh(g) && g.Valid()
    ensures g.edges == Diamond()[..2] && g.index.Keys == {0, 1, 2}
  {
    g := new Graph();
    AddEdge(g, 1, 0, 1);
    AddEdge(g, 1, 0, 2);
  }

  /** `dijkstra(0)` on the diamond: exactly the table above, D reached through B. */
  method DiamondDijkstra() returns (res: Result<map<nat, (Dist, Option<nat>)>>)
    ensures res == Ok(DiamondTable())
  {
    var g := BuildDiamond();
    ghost var rank;
    res, rank := g.Dijkstra(0);
    DiamondTableUnique(res.value, rank);
  }

  /** The sample test graph: A->B 10, B->C 20, A->C 30, with A, B, C numbered 0 to 2. */
  function Sample(): seq<Edge> {
    [Edge(10, 0, 1), Edge(20, 1, 2), Edge(30, 0, 2)]
  }

  /** The slots and cells tests/test_graph.py expects of the sample graph. */
  lemma SampleSlotsAndCells()
    ensures Slot(OutList(Sample(), 0)) == Some([(1, 10), (2, 30)])
    ensures Slot(OutList(Sample(), 1)) == Some([(2, 20)])
    ensures Slot(OutList(Sample(), 2)) == None
    ensures [Cell(Sample(), 0, 0), Cell(Sample(), 0, 1), Cell(Sample(), 0, 2)] == [0, 10, 30]
    ensures [Cell(Sample(), 1, 0), Cell(Sample(), 1, 1), Cell(Sample(), 1, 2)] == [0, 0, 20]
    ensures [Cell(Sample(), 2, 0), Cell(Sample(), 2, 1), Cell(Sample(), 2, 2)] == [0, 0, 0]
  {
    var s0: seq<Edge> := [];
    var s1 := s0 + [Edge(10, 0, 1)];
    var s2 := s1 + [Edge(20, 1, 2)];
    assert Sample() == s2 + [Edge(30, 0, 2)];
    forall i: nat, j: nat
      ensures OutList(s1, i) == (if i == 0 then [(1, 10)] else [])
      ensures OutList(s2, i) == OutList(s1, i) + (if i == 1 then [(2, 20)] else [])
      ensures OutList(Sample(), i) == OutList(s2, i) + (if i == 0 then [(2, 30)] else [])
      ensures Cell(s1, i, j) == (if i == 0 && j == 1 then 10 else 0)
      ensures Cell(s2, i, j) == (if i == 1 && j == 2 then 20 else Cell(s1, i, j))
      ensures Cell(Sample(), i, j) == (if i == 0 && j == 2 then 30 else Cell(s2, i, j))
    {
      OutListAppend(s0, Edge(10, 0, 1), i);
      OutListAppend(s1, Edge(20, 1, 2), i);
      OutListAppend(s2, Edge(30, 0, 2), i);
      CellAppend(s0, Edge(10, 0, 1), i, j);
      CellAppend(s1, Edge(20, 1, 2), i, j);
      CellAppend(s2, Edge(30, 0, 2), i, j);
    }
    assert OutList(Sample(), 0) == [(1, 10)] + [(2, 30)] == [(1, 10), (2, 30)];
    assert OutList(s1, 1) == [] && OutList(s2, 1) == [] + [(2, 20)] == [(2, 20)];
    assert OutList(Sample(), 1) == [(2, 20)] + [] == [(2, 20)];
    assert OutList(s1, 2) == [] && OutList(s2, 2) == [] + [] && OutList(Sample(), 2) == [] + [];
  }

  /** Builds the sample test graph, its nodes named A, B and C. */
  method BuildSample() returns (g: Graph)
    ensures fresh(g) && g.Valid()
    ensures g.edges == Sample() && g.names == ["A", "B", "C"]
  {
    g := new Graph();
    g.SetNodeNames(["A", "B", "C"]);
    AddEdge(g, 10, 0, 1);
    AddEdge(g, 20, 1, 2);
    AddEdge(g, 30, 0, 2);
  }

  /** tests/test_graph.py, `get_adjacency_list` of the sample graph: three slots, the last `None`. */
  method SampleAdjacencyList() returns (adj: Result<seq<Option<seq<(nat, nat)>>>>)
    ensures adj == Ok([Some([(1, 10), (2, 30)]), Some([(2, 20)]), None])
  {
    var g := BuildSample();
    SampleSlotsAndCells();
    adj := g.AdjacencyList();
    var a := adj.value;
    assert a[0] == Slot(OutList(Sample(), 0)) && a[1] == Slot(OutList(Sample(), 1)) && a[2] == Slot(OutList(Sample(), 2));
    assert a == [Some([(1, 10), (2, 30)]), Some([(2, 20)]), None];
  }

  /** A 3 by 3 matrix holding the sample's cells is the one the tests expect. */
  lemma SampleMatrix(m: seq<seq<nat>>)
    requires |m| == 3 && forall i :: 0 <= i < 3 ==> |m[i]| == 3
    requires forall i, j :: 0 <= i < 3 && 0 <= j < 3 ==> m[i][j] == Cell(Sample(), i, j)
    ensures m == [[0, 10, 30], [0, 0, 20], [0, 0, 0]]
  {
    SampleSlotsAndCells();
    assert m[0] == [Cell(Sample(), 0, 0), Cell(Sample(), 0, 1), Cell(Sample(), 0, 2)];
    assert m[1] == [Cell(Sample(), 1, 0), Cell(Sample(), 1, 1), Cell(Sample(), 1, 2)];
    assert m[2] == [Cell(Sample(), 2, 0), Cell(Sample(), 2, 1), Cell(Sample(), 2, 2)];
  }

  /** tests/test_graph.py, `get_adjacency_matrix` of the sample graph: 3 by 3, the weights in place. */
  method SampleAdjacencyMatrix() returns (matrix: Result<seq<seq<nat>>>)
    ensures matrix == Ok([[0, 10, 30], [0, 0, 20], [0, 0, 0]])
  {
    var g := BuildSample();
    assert g.FindMaxIndex() == 3;
    matrix := g.AdjacencyMatrix();
    SampleMatrix(matrix.value);
  }

  /** Two edges leaving node 0, first to 1 and then to 2. */
  function Fan(): seq<Edge> {
    [Edge(1, 0, 1), Edge(1, 0, 2)]
  }

  /** A traversal of the fan from 0 lists 0 and then 1 and 2 in some order. */
  lemma FanMembers(r: seq<nat>)
    requires IsTraversal(Fan(), 0, r)
    ensures r == [0, 1, 2] || r == [0, 2, 1]
  {
    var edges := Fan();
    assert edges[0].Joins(0, 1) && edges[1].Joins(0, 2);
    StayPut(edges, 0);
    ReachableStep(edges, 0, 0, 0, 1);
    ReachableStep(edges, 0, 0, 1, 2);
    forall j | 0 < j < |r|
      ensures r[j] == 1 || r[j] == 2
    {
      assert DiscoveredAt(edges, r, j);
      assert r[j] != r[0];
    }
    assert 1 in r && 2 in r;
    DistinctCard(r);
    assert Elems(r) == {0, 1, 2};
  }

  /** The order `[0, 2, 1]` breaks the incidence order of node 0's list, which meets 1 first. */
  lemma FanTie()
    ensures !SiblingsInOrder(Fan(), [0, 2, 1])
  {
    var edges, r := Fan(), [0, 2, 1];
    assert edges[1].Joins(0, 2) && edges[0].Joins(0, 1);
    assert EarliestNeighbour(edges, r, 1, 0) && EarliestNeighbour(edges, r, 2, 0);
    assert Incident(edges, 0) == [0, 1];
    assert FirstEnd(edges, [0, 1], 0, 2) == 1 && FirstEnd(edges, [0, 1], 0, 1) == 0;
  }

  /**
   * On the two-edge fan, the only breadth-first traversal from 0 whose siblings follow the
   * incidence list is `[0, 1, 2]`.
   */
  lemma FanOrder(r: seq<nat>)
    requires IsTraversal(Fan(), 0, r) && SiblingsInOrder(Fan(), r)
    ensures r == [0, 1, 2]
  {
    FanMembers(r);
    FanTie();
  }

  /** Building the fan edge by edge and running `bfs(0)` lists 1 before 2. */
  method FanBfs() returns (res: Result<seq<nat>>)
    ensures res == Ok([0, 1, 2])
  {
    var g := new Graph();
    AddEdge(g, 1, 0, 1);
    AddEdge(g, 1, 0, 2);
    assert g.edges == Fan();
    res := g.Bfs(0);
    FanOrder(res.value);
  }
}
