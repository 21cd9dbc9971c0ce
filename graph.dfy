/**
 * The `Graph` class: nodes stored in insertion order with a value-to-node map, edges stored
 * in insertion order, per-node `visited` flags shared by the traversals, and optional node
 * names.
 *
 * Nodes and edges refer to each other in the source; here an edge names its endpoints by
 * value (a node's identity is its value) and a node lists its incident edges by their
 * position in `edges`.
 */
module Graphs {
  import opened Common
  import opened Nodes
  import opened Edges
  import opened Walks
  import opened Traversals
  import opened Representations
  import opened Stores
  import opened Components
  import opened Cycles
  import opened Distances
  import opened Statistics

  class Graph {
    /** `self.nodes`, in insertion order. */
    var nodes: seq<Node>
    /** `self._node_map`: node value to its position in `nodes`. */
    var index: map<nat, nat>
    /** `self.edges`, in insertion order. */
    var edges: seq<Edge>
    /** `self.node_names`: the name of node number `i` is `names[i]`. */
    var names: seq<string>
    /** The `visited` flag of each node, parallel to `nodes`. */
    var visited: seq<bool>

    /** The invariant every operation keeps. */
    ghost predicate Valid()
      reads this
    {
      && |visited| == |nodes|
      && IndexOf(Values(nodes), index)
      && Endpoints(index, edges)
      && IncidenceOk(nodes, edges)
    }

    /** The values of the nodes whose `visited` flag is set. */
    ghost function Marked(): set<nat>
      reads this
    {
      MarkedOf(index, visited)
    }

    /** The empty graph. */
    constructor ()
      ensures Valid()
      ensures nodes == [] && index == map[] && edges == [] && names == [] && visited == []
    {
      nodes, index, edges, names, visited := [], map[], [], [], [];
    }

    /** `set_node_names`. */
    method SetNodeNames(ns: seq<string>)
      modifies this`names
      ensures names == ns
    {
      names := ns;
    }

    /**
     * `insert_node`: a value already present leaves the graph unchanged and yields the
     * existing node; a new value is appended as a node without edges, unvisited.
     */
    method InsertNode(v: nat) returns (h: nat)
      requires Valid()
      modifies this`nodes, this`index, this`visited
      ensures Valid() && edges == old(edges)
      ensures h < |nodes| && nodes[h].value == v && index == old(index)[v := h]
      ensures v in old(index) ==> nodes == old(nodes) && visited == old(visited)
      ensures v !in old(index) ==> nodes == old(nodes) + [New(v)]
      ensures Values(nodes) == Values(old(nodes)) + (if v in old(index) then [] else [v])
      ensures visited == old(visited) + (if v in old(index) then [] else [false])
    {
      if v in index {
        return index[v];
      }
      AppendNode(nodes, index, edges, v);
      h := |nodes|;
      nodes := nodes + [New(v)];
      index := index[v := h];
      visited := visited + [false];
    }

    /**
     * `insert_edge`: creates the missing endpoints (`from` first), then appends the edge to
     * the incidence lists of both endpoints and to the edge list.
     */
    method InsertEdge(w: nat, a: nat, b: nat) returns (e: Edge)
      requires Valid()
      modifies this`nodes, this`index, this`visited, this`edges
      ensures Valid()
      ensures e == Edge(w, a, b) && edges == old(edges) + [e]
      ensures index.Keys == old(index).Keys + {a, b}
      ensures Values(nodes) == Values(old(nodes))
        + (if a in old(index) then [] else [a]) + (if b in old(index) || b == a then [] else [b])
      ensures visited == old(visited)
        + (if a in old(index) then [] else [false]) + (if b in old(index) || b == a then [] else [false])
    {
      var ha := InsertNode(a);
      var hb := InsertNode(b);
      e := Edge(w, a, b);
      Attach(e, ha, hb);
    }

    /**
     * The second half of `insert_edge`: appends edge `e`, whose endpoints are stored at
     * `ha` and `hb`, to their incidence lists (`from` first) and to the edge list.
     */
    method Attach(e: Edge, ha: nat, hb: nat)
      requires Valid()
      requires e.from in index && e.to in index && ha == index[e.from] && hb == index[e.to]
      modifies this`nodes, this`edges
      ensures Valid()
      ensures edges == old(edges) + [e]
      ensures |nodes| == |old(nodes)|
      ensures forall i :: 0 <= i < |nodes| ==> nodes[i].value == old(nodes)[i].value
    {
      ghost var n1 := nodes;
      var k := |edges|;
      nodes := nodes[ha := nodes[ha].(edges := nodes[ha].edges + [k])];
      nodes := nodes[hb := nodes[hb].(edges := nodes[hb].edges + [k])];
      AttachBoth(n1, edges, e, ha, hb, nodes);
      edges := edges + [e];
    }

    /** `find_node`: the node with value `v`, if there is one. */
    function FindNode(v: nat): (r: Option<Node>)
      requires Valid()
      reads this
      ensures r.Some? <==> exists i :: 0 <= i < |nodes| && nodes[i].value == v
      ensures r.Some? ==> r.value in nodes && r.value.value == v
    {
      if v in index then Some(nodes[index[v]]) else None
    }

    /**
     * `find_max_index`: the number of names when names are set, otherwise one more than the
     * largest node value (0 for no nodes).
     */
    function FindMaxIndex(): (n: nat)
      reads this
      ensures names != [] ==> n == |names|
      ensures names == [] ==> (n == 0 <==> nodes == [])
      ensures names == [] ==> forall i :: 0 <= i < |nodes| ==> nodes[i].value < n
      ensures names == [] && nodes != [] ==> exists i :: 0 <= i < |nodes| && nodes[i].value == n - 1
    {
      if names != [] then |names|
      else if nodes == [] then 0
      else MaxValue(nodes) + 1
    }

    /**
     * `get_adjacency_list`: slot `i`, for `i` below `find_max_index()`, lists the (to, weight)
     * pairs of the edges from `i` in insertion order, or is `None` when there are none; an
     * edge from a node at or past the last slot raises `IndexError`.
     */
    method AdjacencyList() returns (res: Result<seq<Option<seq<(nat, nat)>>>>)
      requires Valid()
      ensures res.Ok? <==> forall k :: 0 <= k < |edges| ==> edges[k].from < FindMaxIndex()
      ensures res.Ok? ==> |res.value| == FindMaxIndex()
      ensures res.Ok? ==> forall i :: 0 <= i < |res.value| ==> res.value[i] == Slot(OutList(edges, i))
      ensures res.Err? ==> res.error == IndexOutOfRange
    {
      var n := FindMaxIndex();
      var adj: seq<seq<(nat, nat)>> := seq(n, _ => []);
      var t := 0;
      while t < |edges|
        invariant t <= |edges| && |adj| == n
        invariant forall k :: 0 <= k < t ==> edges[k].from < n
        invariant forall i :: 0 <= i < n ==> adj[i] == OutList(edges[..t], i)
      {
        var e := edges[t];
        if e.from >= n {
          return Err(IndexOutOfRange);
        }
        adj := adj[e.from := adj[e.from] + [(e.to, e.value)]];
        assert edges[..t + 1] == edges[..t] + [e];
        forall i | 0 <= i < n
          ensures adj[i] == OutList(edges[..t + 1], i)
        {
          OutListAppend(edges[..t], e, i);
        }
        t := t + 1;
      }
      assert edges[..t] == edges;
      res := Ok(seq(n, i requires 0 <= i < n => Slot(adj[i])));
    }

    /**
     * `get_adjacency_list_names`: fails without names; otherwise the adjacency list with each
     * `to` value replaced by its name, failing when an endpoint has no name.
     */
    method AdjacencyListNames() returns (res: Result<seq<Option<seq<(string, nat)>>>>)
      requires Valid()
      ensures res == Err(MissingNames) <==> names == []
      ensures res.Ok? <==> names != [] && forall k :: 0 <= k < |edges| ==> edges[k].from < |names| && edges[k].to < |names|
      ensures res.Err? && names != [] ==> res.error == IndexOutOfRange
      ensures res.Ok? ==> |res.value| == |names| && forall i :: 0 <= i < |names| ==> NamedSlot(names, edges, i, res.value[i])
    {
      if names == [] {
        return Err(MissingNames);
      }
      var adj := AdjacencyList();
      if adj.Err? {
        return Err(adj.error);
      }
      res := NameSlots(names, edges, adj.value);
    }

    /**
     * `get_adjacency_matrix`: a `find_max_index()`-square matrix whose cell `[i][j]` holds
     * the weight of the last edge from `i` to `j`, or 0; an endpoint at or past the size
     * raises `IndexError`.
     */
    method AdjacencyMatrix() returns (res: Result<seq<seq<nat>>>)
      requires Valid()
      ensures res.Ok? <==> forall k :: 0 <= k < |edges| ==> edges[k].from < FindMaxIndex() && edges[k].to < FindMaxIndex()
      ensures res.Ok? ==> |res.value| == FindMaxIndex()
      ensures res.Ok? ==> forall i :: 0 <= i < |res.value| ==> |res.value[i]| == FindMaxIndex()
      ensures res.Ok? ==> forall i, j :: 0 <= i < |res.value| && 0 <= j < |res.value[i]| ==> res.value[i][j] == Cell(edges, i, j)
      ensures res.Err? ==> res.error == IndexOutOfRange
    {
      var n := FindMaxIndex();
      var m: seq<seq<nat>> := seq(n, _ => seq(n, _ => 0 as nat));
      var t := 0;
      while t < |edges|
        invariant t <= |edges| && |m| == n
        invariant forall i :: 0 <= i < n ==> |m[i]| == n
        invariant forall k :: 0 <= k < t ==> edges[k].from < n && edges[k].to < n
        invariant forall i, j :: 0 <= i < n && 0 <= j < n ==> m[i][j] == Cell(edges[..t], i, j)
      {
        var e := edges[t];
        if e.from >= n || e.to >= n {
          return Err(IndexOutOfRange);
        }
        var row: seq<nat> := m[e.from][e.to := e.value];
        m := m[e.from := row];
        assert edges[..t + 1] == edges[..t] + [e];
        forall i, j | 0 <= i < n && 0 <= j < n
          ensures m[i][j] == Cell(edges[..t + 1], i, j)
        {
          CellAppend(edges[..t], e, i, j);
        }
        t := t + 1;
      }
      assert edges[..t] == edges;
      return Ok(m);
    }

    /** `_clear_visited`: clears the flag of every node. */
    method ClearVisited()
      requires Valid()
      modifies this`visited
      ensures Valid() && |visited| == |old(visited)|
      ensures forall i :: 0 <= i < |visited| ==> !visited[i]
      ensures Marked() == {}
    {
      var i := 0;
      while i < |visited|
        invariant i <= |visited| == |nodes|
        invariant forall j :: 0 <= j < i ==> !visited[j]
      {
        visited := visited[i := false];
        i := i + 1;
      }
      NoneMarked(index, visited);
    }

    /**
     * `dfs_helper`: a visited node yields nothing; otherwise the node is marked and listed,
     * then each incidence-list entry whose other end is still unvisited is explored in turn
     * and its result appended. The nodes listed are exactly the ones this call marks, each
     * once, each discovered from one listed before it, and every neighbour of a listed node
     * ends up marked.
     */
    method DfsHelper(v: nat) returns (r: seq<nat>)
      requires Valid() && v in index
      modifies this`visited
      ensures Valid()
      ensures v in old(Marked()) ==> r == [] && visited == old(visited)
      ensures v !in old(Marked()) ==> |r| > 0 && r[0] == v
      ensures Completed(edges, old(Marked()), Marked(), r)
      ensures DepthFirst(edges, old(Marked()), r)
      decreases index.Keys - Marked()
    {
      var h := index[v];
      if visited[h] {
        return [];
      }
      MarkOne(Values(nodes), index, visited, v);
      visited := visited[h := true];
      r := [v];
      IncidenceList(nodes, index, edges, v);
      var es := nodes[h].edges;
      assert Values(nodes)[h] == v;
      var t := 0;
      while t < |es|
        invariant t <= |es| && |visited| == |nodes| && es == Incident(edges, v)
        invariant forall j :: 0 <= j < |es| ==> es[j] < |edges| && edges[es[j]].Touches(v)
        invariant Explored(edges, old(Marked()), Marked(), r, v)
        invariant DepthFirst(edges, old(Marked()), r)
        invariant EndsIn(edges, v, es, t, Marked())
      {
        var o := edges[es[t]].GetOtherNode(v).value;
        ghost var m1 := Marked();
        if !visited[index[o]] {
          assert index.Keys - Marked() < index.Keys - old(Marked()) by {
            assert v in index.Keys - old(Marked()) && v !in index.Keys - Marked();
          }
          var sub := DfsHelper(o);
          DepthFirstExtend(edges, old(Marked()), m1, r, v, t, o, sub);
          ExploredExtend(edges, old(Marked()), m1, r, v, sub, Marked(), es[t], o);
          r := r + sub;
        }
        EndsInStep(edges, v, es, t, m1, Marked());
        t := t + 1;
      }
      NeighboursFromIncidence(edges, v, es, Marked());
    }

    /**
     * `dfs`: clears every flag, fails when the start node does not exist, and otherwise
     * returns the depth-first order from it, leaving exactly its nodes marked.
     */
    method Dfs(s: nat) returns (res: Result<seq<nat>>)
      requires Valid()
      modifies this`visited
      ensures Valid()
      ensures s !in index ==> res == Err(NodeNotFound(s)) && Marked() == {}
      ensures s in index ==> res.Ok? && IsTraversal(edges, s, res.value) && Marked() == Elems(res.value)
      ensures s in index ==> DepthFirst(edges, {}, res.value)
    {
      ClearVisited();
      if FindNode(s).None? {
        return Err(NodeNotFound(s));
      }
      var r := DfsHelper(s);
      TraversalFromClosed(s, r);
      return Ok(r);
    }

    /** `dfs_names`: the depth-first order with each value replaced by its name. */
    method DfsNames(s: nat) returns (res: Result<seq<string>>, ghost order: seq<nat>)
      requires Valid()
      modifies this`visited
      ensures Valid()
      ensures names == [] ==> res == Err(MissingNames) && visited == old(visited)
      ensures names != [] && s !in index ==> res == Err(NodeNotFound(s)) && Marked() == {}
      ensures names != [] && s in index ==> IsTraversal(edges, s, order) && DepthFirst(edges, {}, order)
      ensures names != [] && s in index ==> res == Named(names, order) && Marked() == Elems(order)
    {
      if names == [] {
        return Err(MissingNames), [];
      }
      var r := Dfs(s);
      if r.Err? {
        return Err(r.error), [];
      }
      return Named(names, r.value), r.value;
    }

    /**
     * Completes a traversal proof: a discovery order from `s` whose marked nodes are closed
     * under adjacency lists everything reachable from `s`.
     */
    lemma TraversalFromClosed(s: nat, r: seq<nat>)
      requires |r| > 0 && r[0] == s && Distinct(r) && Discovered(edges, r)
      requires Marked() == Elems(r)
      requires forall x :: x in r ==> NeighboursIn(edges, x, Marked())
      ensures IsTraversal(edges, s, r)
    {
      NeighboursClosed(edges, Marked());
      DiscoveredReachable(edges, r);
      forall x | Reachable(edges, s, x)
        ensures x in r
      {
        ClosedReach(edges, Marked(), s, x);
      }
    }

    /**
     * `bfs`: fails when the start node does not exist, leaving the flags alone; otherwise
     * clears every flag and returns the breadth-first order from the start node, leaving
     * exactly its nodes marked.
     */
    method Bfs(s: nat) returns (res: Result<seq<nat>>)
      requires Valid()
      modifies this`visited
      ensures Valid()
      ensures s !in index ==> res == Err(NodeNotFound(s)) && visited == old(visited)
      ensures s in index ==> res.Ok? && IsTraversal(edges, s, res.value) && BreadthFirst(edges, res.value)
      ensures s in index ==> SiblingsInOrder(edges, res.value) && Marked() == Elems(res.value)
    {
      if FindNode(s).None? {
        return Err(NodeNotFound(s));
      }
      ClearVisited();
      var result: seq<nat> := [];
      var queue := [s];
      var seen := {s};
      ghost var order := [s];
      ghost var parent: seq<nat> := [0];
      while queue != []
        invariant Valid() && BfsState(edges, index.Keys, Marked(), s, result, queue, seen, order, parent)
        decreases index.Keys - Marked()
      {
        result, queue, seen, order, parent := BfsVisit(s, result, queue, seen, order, parent);
      }
      assert order == result;
      LayeredOrder(edges, result, parent);
      SiblingsFromBookkeeping(edges, result, parent);
      assert forall x :: x in result ==> NeighboursIn(edges, x, Marked()) by {
        forall x | x in result
          ensures NeighboursIn(edges, x, Marked())
        {
          var i :| 0 <= i < |result| && result[i] == x;
        }
      }
      TraversalFromClosed(s, result);
      return Ok(result);
    }

    /**
     * One round of the `bfs` loop: dequeues the front value, which is never visited yet,
     * marks it, appends it to the result and enqueues its unseen neighbours.
     */
    method BfsVisit(ghost s: nat, result: seq<nat>, queue: seq<nat>, seen: set<nat>, ghost order: seq<nat>, ghost parent: seq<nat>)
      returns (result': seq<nat>, queue': seq<nat>, seen': set<nat>, ghost order': seq<nat>, ghost parent': seq<nat>)
      requires Valid() && queue != [] && BfsState(edges, index.Keys, Marked(), s, result, queue, seen, order, parent)
      modifies this`visited
      ensures Valid() && BfsState(edges, index.Keys, Marked(), s, result', queue', seen', order', parent')
      ensures queue[0] in index && queue[0] !in old(Marked()) && Marked() == old(Marked()) + {queue[0]}
    {
      var c := queue[0];
      BfsFront(edges, index.Keys, Marked(), s, result, queue, seen, order, parent);
      var h := index[c];
      MarkOne(Values(nodes), index, visited, c);
      visited := visited[h := true];
      IncidenceList(nodes, index, edges, c);
      var es := nodes[h].edges;
      assert es == Incident(edges, c);
      queue', seen', parent' := EnqueueNeighbours(edges, index, c, es, queue[1..], seen, result + [c], parent);
      NeighboursFromIncidence(edges, c, es, seen');
      order' := result + [c] + queue';
      BfsAdvance(edges, index.Keys, Marked(), s, result, c, queue', seen', order', parent');
      result' := result + [c];
    }

    /** `bfs_names`: the breadth-first order with each value replaced by its name. */
    method BfsNames(s: nat) returns (res: Result<seq<string>>, ghost order: seq<nat>)
      requires Valid()
      modifies this`visited
      ensures Valid()
      ensures names == [] ==> res == Err(MissingNames) && visited == old(visited)
      ensures names != [] && s !in index ==> res == Err(NodeNotFound(s)) && visited == old(visited)
      ensures names != [] && s in index ==> IsTraversal(edges, s, order) && BreadthFirst(edges, order)
      ensures names != [] && s in index ==> SiblingsInOrder(edges, order)
      ensures names != [] && s in index ==> res == Named(names, order) && Marked() == Elems(order)
    {
      if names == [] {
        return Err(MissingNames), [];
      }
      var r := Bfs(s);
      if r.Err? {
        return Err(r.error), [];
      }
      return Named(names, r.value), r.value;
    }

    /**
     * `dijkstra`: fails when the start node does not exist; otherwise maps every node to its
     * shortest distance from the start and to its predecessor on a shortest walk, `None` for
     * the start and for the nodes it does not reach. `rank` orders the reached nodes by the
     * round that settled them, so that following predecessors from any of them ends at the
     * start.
     */
    method Dijkstra(s: nat) returns (res: Result<map<nat, (Dist, Option<nat>)>>, ghost rank: map<nat, nat>)
      requires Valid()
      ensures s !in index ==> res == Err(NodeNotFound(s))
      ensures s in index ==> res.Ok? && Table(edges, index.Keys, s, res.value, rank)
    {
      rank := map[];
      if FindNode(s).None? {
        return Err(NodeNotFound(s)), rank;
      }
      var dist, prev, done;
      ghost var count;
      dist, prev, done, rank, count := DijkstraLoop(s);
      var table := Zip(index.Keys, dist, prev);
      FinishTable(edges, index.Keys, s, dist, prev, done, rank, count, table);
      return Ok(table), rank;
    }

    /**
     * The main loop of `dijkstra` from the stored node `s`: every distance starts infinite
     * but that of `s`, which starts at 0, and the queue holds `s` alone; each round pops the
     * entry `heappop` returns, skips it when its node is settled and otherwise settles the
     * node and relaxes its edges, until the queue is empty.
     */
    method DijkstraLoop(s: nat)
      returns (dist: map<nat, Dist>, prev: map<nat, Option<nat>>, done: set<nat>, ghost rank: map<nat, nat>, ghost count: nat)
      requires Valid() && s in index
      ensures LoopState(edges, index.Keys, s, dist, prev, [], done, rank, count)
    {
      dist := (map v | v in index.Keys :: Inf)[s := Fin(0)];
      prev := map v | v in index.Keys :: None;
      var pq: seq<(nat, nat)> := [(0, s)];
      done, rank, count := {}, map[], 0;
      Start(edges, index.Keys, s);
      while pq != []
        invariant LoopState(edges, index.Keys, s, dist, prev, pq, done, rank, count)
        decreases index.Keys - done, |pq|
      {
        var i := MinAt(pq);
        var (d, u) := pq[i];
        if u in done {
          PopSettled(edges, index.Keys, s, dist, prev, pq, done, rank, count, i);
          pq := Without(pq, i);
        } else {
          dist, prev, pq, done, rank, count := DijkstraRound(s, dist, prev, pq, done, rank, count, i);
        }
      }
    }

    /**
     * A round of the `dijkstra` loop that pops an unsettled node: settles it at the distance
     * popped, then relaxes each edge of its incidence list in turn.
     */
    method DijkstraRound(ghost s: nat, dist: map<nat, Dist>, prev: map<nat, Option<nat>>, pq: seq<(nat, nat)>,
                         done: set<nat>, ghost rank: map<nat, nat>, ghost count: nat, i: nat)
      returns (dist': map<nat, Dist>, prev': map<nat, Option<nat>>, pq': seq<(nat, nat)>,
               done': set<nat>, ghost rank': map<nat, nat>, ghost count': nat)
      requires Valid() && LoopState(edges, index.Keys, s, dist, prev, pq, done, rank, count)
      requires pq != [] && i == MinAt(pq) && pq[i].1 !in done
      ensures LoopState(edges, index.Keys, s, dist', prev', pq', done', rank', count')
      ensures done' == done + {pq[i].1}
    {
      var (d, u) := pq[i];
      PopFresh(edges, index.Keys, s, dist, prev, pq, done, rank, count, i);
      var es := nodes[index[u]].edges;
      IncidenceList(nodes, index, edges, u);
      Settle(edges, index.Keys, s, dist, prev, pq, done, rank, count, i, u, d, es);
      pq', done' := Without(pq, i), done + {u};
      rank', count' := rank[u := count], count + 1;
      dist', prev', pq' := RelaxNeighbours(edges, index.Keys, s, dist, prev, pq', done', rank', count', u, d, es);
      ScanDone(edges, index.Keys, s, dist', prev', pq', done', rank', count', u, d, es);
    }

    /**
     * `shortest_path`: fails when either node does not exist or no walk joins them;
     * otherwise returns the nodes of a walk from `s` to `t`, read off the predecessors
     * `dijkstra` recorded, and its weight, which no walk from `s` to `t` undercuts. `via`
     * names the edge crossed at each step.
     */
    method ShortestPath(s: nat, t: nat) returns (res: Result<(seq<nat>, nat)>, ghost via: seq<nat>)
      requires Valid()
      ensures s !in index ==> res == Err(StartNotFound(s))
      ensures s in index && t !in index ==> res == Err(EndNotFound(t))
      ensures s in index && t in index && !Reachable(edges, s, t) ==> res == Err(NoPathExists(s, t))
      ensures s in index && t in index && Reachable(edges, s, t) ==>
        && res.Ok? && WalkBetween(edges, Walk(res.value.0, via), s, t)
        && Weight(edges, via) == res.value.1 && ShortestIs(edges, s, t, Fin(res.value.1))
      ensures s in index && s == t ==> res == Ok(([s], 0))
    {
      via := [];
      if FindNode(s).None? {
        return Err(StartNotFound(s)), via;
      }
      if FindNode(t).None? {
        return Err(EndNotFound(t)), via;
      }
      ghost var rank;
      var r;
      r, rank := Dijkstra(s);
      var table := r.value;
      var distance := table[t].0;
      if distance.Inf? {
        return Err(NoPathExists(s, t)), via;
      }
      var path: seq<nat> := [];
      var current := Some(t);
      ghost var w := Walk([t], []);
      while current.Some?
        invariant current.Some? ==> current.value in index.Keys && current.value in rank && table[current.value].0.Fin?
        invariant path == [] ==> current == Some(t)
        invariant s == t && path != [] ==> path == [s] && current.None?
        invariant path != [] ==> PathBack(edges, index.Keys, table, rank, path, current, w, t, distance.n)
        decreases if current.Some? then rank[current.value] + 1 else 0
      {
        var c := current.value;
        w := PathStep(edges, index.Keys, s, table, rank, path, current, w, t, distance.n);
        TableLink(edges, index.Keys, s, table, rank, c);
        path := path + [c];
        current := table[c].1;
      }
      TableLink(edges, index.Keys, s, table, rank, path[|path| - 1]);
      ghost var back := path;
      path := Rev(path);
      if s == t {
        assert back == [s] && distance == Fin(0);
        assert path == [s];
      }
      return Ok((path, distance.n)), w.via;
    }

    /**
     * `is_connected` as written: true for no nodes; otherwise explores from the first node
     * without clearing the flags first, clears them, and compares the number of nodes
     * listed with the number of nodes. A flag left set by an earlier traversal therefore
     * makes it answer false even for a connected graph.
     */
    method IsConnectedAsWritten() returns (connected: bool)
      requires Valid()
      modifies this`visited
      ensures Valid() && Marked() == {}
      ensures connected <==> old(Marked()) == {} && Connected(edges, index.Keys)
    {
      IndexCount(Values(nodes), index);
      if |nodes| == 0 {
        return true;
      }
      var s := nodes[0].value;
      ghost var m0 := Marked();
      var r := DfsHelper(s);
      var count := |r|;
      ExploredCount(edges, index.Keys, m0, Marked(), s, r);
      ConnectedFromOne(edges, index.Keys, s);
      ClearVisited();
      connected := count == |nodes|;
    }

    /**
     * `is_connected` with the flags cleared before exploring: true exactly when every node
     * is reachable from every other.
     */
    method IsConnected() returns (connected: bool)
      requires Valid()
      modifies this`visited
      ensures Valid() && Marked() == {}
      ensures connected <==> Connected(edges, index.Keys)
    {
      ClearVisited();
      connected := IsConnectedAsWritten();
    }

    /**
     * `get_connected_components`: clears the flags, explores from each node in storage
     * order that is still unvisited, collecting one list per exploration, and clears the
     * flags again.
     */
    method ConnectedComponents() returns (comps: seq<seq<nat>>)
      requires Valid()
      modifies this`visited
      ensures Valid() && Marked() == {}
      ensures ComponentList(edges, index, comps)
    {
      ClearVisited();
      comps := [];
      var i := 0;
      while i < |nodes|
        invariant |visited| == |nodes| && CompState(edges, index, Values(nodes), i, Marked(), comps)
      {
        comps := ComponentsVisit(i, comps);
        i := i + 1;
      }
      ghost var m := Marked();
      ClearVisited();
      CompDone(edges, index, Values(nodes), m, comps);
    }

    /**
     * One round of the `get_connected_components` loop: the node at position `i` starts a
     * new component when it is unvisited, and is skipped otherwise.
     */
    method ComponentsVisit(i: nat, comps: seq<seq<nat>>) returns (comps': seq<seq<nat>>)
      requires Valid() && i < |nodes| && CompState(edges, index, Values(nodes), i, Marked(), comps)
      modifies this`visited
      ensures |visited| == |nodes| && CompState(edges, index, Values(nodes), i + 1, Marked(), comps')
    {
      assert Values(nodes)[i] == nodes[i].value && index[nodes[i].value] == i;
      if !visited[i] {
        comps' := NewComponent(i, comps);
      } else {
        CompSkip(edges, index, Values(nodes), i, Marked(), comps);
        comps' := comps;
      }
    }

    /**
     * The round for an unvisited node: the exploration from it, run by `dfs_helper`, is
     * appended as the next component.
     */
    method NewComponent(i: nat, comps: seq<seq<nat>>) returns (comps': seq<seq<nat>>)
      requires Valid() && i < |nodes| && CompState(edges, index, Values(nodes), i, Marked(), comps)
      requires nodes[i].value !in Marked()
      modifies this`visited
      ensures |visited| == |nodes| && CompState(edges, index, Values(nodes), i + 1, Marked(), comps')
    {
      var v := nodes[i].value;
      ghost var vs, es, ix := Values(nodes), edges, index;
      ghost var m1 := Marked();
      var c := DfsHelper(v);
      ghost var m2 := Marked();
      assert vs == Values(nodes) && es == edges && ix == index;
      CompStep(es, ix, vs, i, m1, comps, c, m2);
      comps' := comps + [c];
    }

    /**
     * `has_cycle`: clears the flags, runs the cycle search from each node in storage order
     * that is still unvisited, and clears the flags again before answering. The answer is
     * true exactly when the graph has a circuit; a self-loop and two parallel edges count.
     */
    method HasCycle() returns (cyclic: bool)
      requires Valid()
      modifies this`visited
      ensures Valid() && Marked() == {}
      ensures cyclic <==> HasCircuit(edges)
    {
      ClearVisited();
      IndexKeys(Values(nodes), index);
      ghost var vs := Values(nodes);
      var i := 0;
      while i < |nodes|
        invariant i <= |nodes| == |visited|
        invariant CycleSearch(edges, index.Keys, vs, i, Marked()) == CycleSearch(edges, index.Keys, vs, 0, {})
      {
        var v := nodes[i].value;
        assert vs[i] == v && index[v] == i;
        if !visited[i] {
          var found := CycleCheck(v, None);
          if found {
            ClearVisited();
            SearchCorrect(edges, index.Keys, vs);
            return true;
          }
        }
        i := i + 1;
      }
      ClearVisited();
      SearchCorrect(edges, index.Keys, vs);
      return false;
    }

    /**
     * `dfs_cycle_check`: marks `v`, then scans its incidence list; an unvisited neighbour is
     * searched with `v` as its parent and a true answer passed on, a visited neighbour other
     * than `parent` answers true, and the parent is passed over.
     */
    method CycleCheck(v: nat, parent: Option<nat>) returns (found: bool)
      requires Valid() && v in index && v !in Marked()
      modifies this`visited
      ensures Valid()
      ensures (found, Marked()) == CheckFrom(edges, index.Keys, old(Marked()), v, parent)
      decreases index.Keys - Marked()
    {
      var h := index[v];
      MarkOne(Values(nodes), index, visited, v);
      visited := visited[h := true];
      IncidenceList(nodes, index, edges, v);
      IncidentEntries(edges, v);
      var es := nodes[h].edges;
      assert es == Incident(edges, v);
      ghost var answer := CheckFrom(edges, index.Keys, old(Marked()), v, parent);
      var t := 0;
      while t < |es|
        invariant t <= |es| && |visited| == |nodes|
        invariant old(Marked()) + {v} <= Marked()
        invariant ScanFrom(edges, index.Keys, Marked(), v, parent, es, t) == answer
      {
        var w := edges[es[t]].GetOtherNode(v).value;
        if !visited[index[w]] {
          assert index.Keys - Marked() < index.Keys - old(Marked()) by {
            assert v in index.Keys - old(Marked()) && v !in index.Keys - Marked();
          }
          var sub := CycleCheck(w, Some(v));
          if sub {
            return true;
          }
        } else if Some(w) != parent {
          return true;
        }
        t := t + 1;
      }
      return false;
    }

    /**
     * `get_graph_stats`: the counts, connectivity (flags cleared first), cycles, density,
     * the number of components and, for a graph with nodes, the least, greatest and total
     * degree (a node's degree is the length of its incidence list, see `Degree`). The total
     * is twice the number of stored edges. The degree figures are gathered first here; the
     * searches after them change only the flags, so the order does not change any figure.
     */
    method Stats() returns (st: Summary)
      requires Valid()
      modifies this`visited
      ensures Valid() && Marked() == {}
      ensures st.numNodes == |nodes| && st.numEdges == |edges| / 2
      ensures st.connected <==> Connected(edges, index.Keys)
      ensures st.cyclic <==> HasCircuit(edges)
      ensures st.density == Density(|nodes|, |edges|)
      ensures exists comps :: ComponentList(edges, index, comps) && |comps| == st.components
      ensures st.connected <==> st.components <= 1
      ensures st.degrees.None? <==> nodes == []
      ensures st.degrees.Some? ==> st.degrees.value.count == |nodes| && st.degrees.value.sum == 2 * |edges|
      ensures st.degrees.Some? ==> forall i :: 0 <= i < |nodes| ==> st.degrees.value.min <= |nodes[i].edges| <= st.degrees.value.max
      ensures st.degrees.Some? ==> exists i :: 0 <= i < |nodes| && |nodes[i].edges| == st.degrees.value.min
      ensures st.degrees.Some? ==> exists j :: 0 <= j < |nodes| && |nodes[j].edges| == st.degrees.value.max
    {
      var degrees := DegreeSummary(nodes);
      ListedIsDegreeSum(nodes, edges, Values(nodes));
      StoredValues(Values(nodes), index, edges);
      Handshake(edges, Values(nodes));
      var connected := IsConnected();
      var cyclic := HasCycle();
      var comps := ConnectedComponents();
      ConnectedIffOneComponent(edges, index, comps);
      st := Summary(|nodes|, |edges| / 2, connected, cyclic, Density(|nodes|, |edges|), |comps|, degrees);
    }

    /** `get_node_degree`: the number of incidence-list entries of the node (2 for a self-loop). */
    function Degree(v: nat): (r: Result<nat>)
      requires Valid()
      reads this
      ensures r.Ok? <==> v in index
      ensures r.Ok? ==> r.value == |Incident(edges, v)|
      ensures r.Err? ==> r.error == NodeNotFound(v)
    {
      if v in index then Ok(|nodes[index[v]].edges|) else Err(NodeNotFound(v))
    }
  }

  /** The largest node value in a non-empty sequence of nodes. */
  function MaxValue(ns: seq<Node>): (m: nat)
    requires ns != []
    ensures forall i :: 0 <= i < |ns| ==> ns[i].value <= m
    ensures exists i :: 0 <= i < |ns| && ns[i].value == m
  {
    if |ns| == 1 then ns[0].value
    else
      var m' := MaxValue(ns[1..]);
      assert forall i :: 1 <= i < |ns| ==> ns[i] == ns[1..][i - 1];
      if ns[0].value >= m' then ns[0].value else m'
  }

  /** Stored values are pairwise different and include both endpoints of every edge. */
  lemma StoredValues(vs: seq<nat>, index: map<nat, nat>, edges: seq<Edge>)
    requires IndexOf(vs, index) && Endpoints(index, edges)
    ensures Distinct(vs)
    ensures forall k :: 0 <= k < |edges| ==> edges[k].from in vs && edges[k].to in vs
  {
    forall k | 0 <= k < |edges|
      ensures edges[k].from in vs && edges[k].to in vs
    {
      assert vs[index[edges[k].from]] == edges[k].from;
      assert vs[index[edges[k].to]] == edges[k].to;
    }
  }

  /** Inserting an edge raises the degree of each endpoint by one (a self-loop's node by two). */
  lemma DegreeAfterInsert(edges: seq<Edge>, e: Edge, v: nat)
    ensures |Incident(edges + [e], v)| == |Incident(edges, v)| + (if e.from == v then 1 else 0) + (if e.to == v then 1 else 0)
  {
    IncidentAppend(edges, e, v);
  }

  /**
   * The inner loop of `bfs`: walks the incidence list `es` of `c`, the node just dequeued
   * (the last of `done`), and enqueues each other end not seen before, marking it seen.
   */
  method EnqueueNeighbours(edges: seq<Edge>, index: map<nat, nat>, c: nat, es: seq<nat>,
                           queue: seq<nat>, seen: set<nat>, ghost done: seq<nat>, ghost parent: seq<nat>)
    returns (queue': seq<nat>, seen': set<nat>, ghost parent': seq<nat>)
    requires Endpoints(index, edges) && seen <= index.Keys
    requires |done| > 0 && done[|done| - 1] == c
    requires forall j :: 0 <= j < |es| ==> es[j] < |edges| && edges[es[j]].Touches(c)
    requires es == Incident(edges, c)
    requires Layered(edges, done + queue, parent, |done|)
    requires Frontier(edges, done + queue, |done| - 1, seen)
    requires SiblingsOrdered(edges, done + queue, parent)
    requires forall p :: 0 < p < |done + queue| ==> parent[p] < |done| - 1
    ensures seen' <= index.Keys
    ensures Layered(edges, done + queue', parent', |done|)
    ensures Frontier(edges, done + queue', |done| - 1, seen')
    ensures SiblingsOrdered(edges, done + queue', parent')
    ensures EndsIn(edges, c, es, |es|, seen')
  {
    queue', seen', parent' := queue, seen, parent;
    var t := 0;
    while t < |es|
      invariant Enqueueing(edges, index.Keys, c, es, done, queue', parent', seen', t)
    {
      var o := edges[es[t]].GetOtherNode(c).value;
      if o !in seen' {
        EnqueuePush(edges, index.Keys, c, es, done, queue', parent', seen', t, o);
        queue', seen', parent' := queue' + [o], seen' + {o}, parent' + [|done| - 1];
      } else {
        EnqueueSkip(edges, index.Keys, c, es, done, queue', parent', seen', t, o);
      }
      t := t + 1;
    }
  }

  /** The table `dijkstra` returns: each node with its distance and its predecessor. */
  function Zip(keys: set<nat>, dist: map<nat, Dist>, prev: map<nat, Option<nat>>): (table: map<nat, (Dist, Option<nat>)>)
    requires keys <= dist.Keys && keys <= prev.Keys
    ensures table.Keys == keys && forall v :: v in keys ==> table[v] == (dist[v], prev[v])
  {
    map v | v in keys :: (dist[v], prev[v])
  }

  /**
   * The inner loop of `dijkstra`: for each edge of the incidence list `es` of `u`, just
   * settled at distance `d`, whose other end `y` is unsettled, records `d` plus the edge's
   * weight as the distance of `y`, `u` as its predecessor and queues `y` at that distance,
   * whenever that is shorter than the distance recorded so far.
   */
  method RelaxNeighbours(edges: seq<Edge>, ghost keys: set<nat>, ghost s: nat, dist: map<nat, Dist>,
                         prev: map<nat, Option<nat>>, pq: seq<(nat, nat)>, done: set<nat>,
                         ghost rank: map<nat, nat>, ghost count: nat, u: nat, d: nat, es: seq<nat>)
    returns (dist': map<nat, Dist>, prev': map<nat, Option<nat>>, pq': seq<(nat, nat)>)
    requires RelaxState(edges, keys, s, dist, prev, pq, done, rank, count, u, d, es, 0)
    ensures RelaxState(edges, keys, s, dist', prev', pq', done, rank, count, u, d, es, |es|)
  {
    dist', prev', pq' := dist, prev, pq;
    for t := 0 to |es|
      invariant RelaxState(edges, keys, s, dist', prev', pq', done, rank, count, u, d, es, t)
    {
      dist', prev', pq' := RelaxEdge(edges, keys, s, dist', prev', pq', done, rank, count, u, d, es, t);
    }
  }

  /**
   * One pass of the inner loop of `dijkstra`, over edge `es[t]`: skips it when its other end
   * `y` is settled; otherwise, when `d` plus its weight is shorter than the distance of `y`,
   * records that distance and `u` as the predecessor of `y`, and queues `y`.
   */
  method RelaxEdge(edges: seq<Edge>, ghost keys: set<nat>, ghost s: nat, dist: map<nat, Dist>,
                   prev: map<nat, Option<nat>>, pq: seq<(nat, nat)>, done: set<nat>,
                   ghost rank: map<nat, nat>, ghost count: nat, u: nat, d: nat, es: seq<nat>, t: nat)
    returns (dist': map<nat, Dist>, prev': map<nat, Option<nat>>, pq': seq<(nat, nat)>)
    requires RelaxState(edges, keys, s, dist, prev, pq, done, rank, count, u, d, es, t) && t < |es|
    ensures RelaxState(edges, keys, s, dist', prev', pq', done, rank, count, u, d, es, t + 1)
  {
    var y: nat := edges[es[t]].GetOtherNode(u).value;
    var nd: nat := d + edges[es[t]].value;
    if y !in done && Shorter(Fin(nd), dist[y]) {
      RelaxUpdate(edges, keys, s, dist, prev, pq, done, rank, count, u, d, es, t, y, nd);
      dist', prev', pq' := dist[y := Fin(nd)], prev[y := Some(u)], pq + [(nd, y)];
    } else {
      RelaxKeep(edges, keys, s, dist, prev, pq, done, rank, count, u, d, es, t);
      dist', prev', pq' := dist, prev, pq;
    }
  }

  /**
   * A graph with the single node 0: after `dfs(0)` leaves node 0 visited, `is_connected` as
   * written answers false although the graph is connected; the corrected version answers true.
   */
  method StaleFlagCounterexample() returns (asWritten: bool, corrected: bool)
    ensures !asWritten && corrected
  {
    var g := new Graph();
    var _ := g.InsertNode(0);
    var r := g.Dfs(0);
    assert 0 in g.Marked();
    asWritten := g.IsConnectedAsWritten();
    r := g.Dfs(0);
    StayPut(g.edges, 0);
    assert g.index.Keys == {0};
    corrected := g.IsConnected();
  }
}
