/**
 * What `is_connected` and `get_connected_components` compute, as properties of the
 * depth-first exploration they are built on.
 */
module Components {
  import opened Edges
  import opened Walks
  import opened Traversals
  import opened Stores

  /** A subset as large as its finite superset is the whole superset. */
  lemma SubsetSameSize(a: set<nat>, b: set<nat>)
    requires a <= b && |a| == |b|
    ensures a == b
  {
    assert a + b == b && a * b == a && a - b == {};
    assert |b - a| == 0;
    assert b - a == {};
  }

  /**
   * A depth-first exploration from `s` that began with the nodes `m0` marked lists every
   * node of the closed set `keys` exactly when nothing was marked before and every node of
   * `keys` is reachable from `s`.
   */
  lemma ExploredCount(edges: seq<Edge>, keys: set<nat>, m0: set<nat>, m: set<nat>, s: nat, r: seq<nat>)
    requires Closed(edges, keys) && s in keys && m0 <= keys
    requires s in m0 ==> r == []
    requires s !in m0 ==> |r| > 0 && r[0] == s
    requires Completed(edges, m0, m, r)
    ensures |r| == |keys| <==> m0 == {} && forall x :: x in keys ==> Reachable(edges, s, x)
  {
    if s in m0 {
      assert |keys| > 0;
      return;
    }
    DistinctCard(r);
    DiscoveredReachable(edges, r);
    assert Elems(r) <= keys by {
      forall x | x in Elems(r)
        ensures x in keys
      {
        ClosedReach(edges, keys, s, x);
      }
    }
    if |r| == |keys| {
      SubsetSameSize(Elems(r), keys);
      assert forall x :: x in m0 ==> x in Elems(r);
    }
    if m0 == {} && forall x :: x in keys ==> Reachable(edges, s, x) {
      NeighboursClosed(edges, Elems(r));
      forall x | x in keys
        ensures x in Elems(r)
      {
        assert s in Elems(r);
        ClosedReach(edges, Elems(r), s, x);
      }
      assert Elems(r) == keys;
    }
  }

  /** The index has one key per stored node. */
  lemma IndexCount(vs: seq<nat>, index: map<nat, nat>)
    requires IndexOf(vs, index)
    ensures |index.Keys| == |vs|
  {
    IndexKeys(vs, index);
    assert Elems(vs) == index.Keys;
    DistinctCard(vs);
  }

  /** Every list is non-empty and starts with a stored node. */
  ghost predicate HeadsStored(index: map<nat, nat>, comps: seq<seq<nat>>) {
    forall j :: 0 <= j < |comps| ==> |comps[j]| > 0 && comps[j][0] in index
  }

  /** Each list is a traversal order of everything reachable from its first node. */
  ghost predicate AllTraversals(edges: seq<Edge>, comps: seq<seq<nat>>) {
    forall j :: 0 <= j < |comps| ==> |comps[j]| > 0 && IsTraversal(edges, comps[j][0], comps[j])
  }

  /** Each list is the depth-first order `dfs` gives from its first node. */
  ghost predicate AllDepthFirst(edges: seq<Edge>, comps: seq<seq<nat>>) {
    forall j :: 0 <= j < |comps| ==> DepthFirst(edges, {}, comps[j])
  }

  /** Node `x` is a member of one of the lists. */
  ghost predicate Listed(comps: seq<seq<nat>>, x: nat) {
    exists j :: 0 <= j < |comps| && x in comps[j]
  }

  /** The members of the lists are exactly `nodes`. */
  ghost predicate Covers(nodes: set<nat>, comps: seq<seq<nat>>) {
    && (forall j, x :: 0 <= j < |comps| && x in comps[j] ==> x in nodes)
    && (forall x :: x in nodes ==> Listed(comps, x))
  }

  /** The first nodes of the lists come in storage order. */
  ghost predicate HeadsIncreasing(index: map<nat, nat>, comps: seq<seq<nat>>)
    requires HeadsStored(index, comps)
  {
    forall j1, j2 :: 0 <= j1 < j2 < |comps| ==> index[comps[j1][0]] < index[comps[j2][0]]
  }

  /** The first node of each list is the earliest stored of its members. */
  ghost predicate HeadsFirst(index: map<nat, nat>, comps: seq<seq<nat>>)
    requires HeadsStored(index, comps)
  {
    forall j, x :: 0 <= j < |comps| && x in comps[j] ==> x in index && index[comps[j][0]] <= index[x]
  }

  /**
   * The result of `get_connected_components` over the nodes stored at the positions `index`
   * gives: each component is a traversal order of everything reachable from its first node,
   * in the depth-first order `dfs` gives from that node, every stored node is in some component, the first nodes come in storage order, and each
   * component's first node is the earliest stored of its members.
   */
  ghost predicate ComponentList(edges: seq<Edge>, index: map<nat, nat>, comps: seq<seq<nat>>) {
    && HeadsStored(index, comps) && AllTraversals(edges, comps) && Covers(index.Keys, comps)
    && HeadsIncreasing(index, comps) && HeadsFirst(index, comps) && AllDepthFirst(edges, comps)
  }

  /**
   * The state of the `get_connected_components` loop after the nodes at positions below `i`
   * of `vs`: the components found so far, with the properties of `ComponentList`, hold
   * exactly the `marked` nodes, their first nodes lie below `i`, and every node below `i`
   * is marked.
   */
  ghost predicate CompState(edges: seq<Edge>, index: map<nat, nat>, vs: seq<nat>, i: nat,
                            marked: set<nat>, comps: seq<seq<nat>>) {
    && i <= |vs|
    && HeadsStored(index, comps) && AllTraversals(edges, comps) && Covers(marked, comps)
    && HeadsIncreasing(index, comps) && HeadsFirst(index, comps) && AllDepthFirst(edges, comps)
    && (forall j :: 0 <= j < |comps| ==> index[comps[j][0]] < i)
    && (forall p :: 0 <= p < i ==> vs[p] in marked)
  }

  /** A node already marked when the loop reaches it is skipped. */
  lemma CompSkip(edges: seq<Edge>, index: map<nat, nat>, vs: seq<nat>, i: nat, marked: set<nat>, comps: seq<seq<nat>>)
    requires CompState(edges, index, vs, i, marked, comps) && i < |vs| && vs[i] in marked
    ensures CompState(edges, index, vs, i + 1, marked, comps)
  {}

  /** The members of a complete component have all their neighbours inside it. */
  lemma ComponentClosed(edges: seq<Edge>, r: seq<nat>, x: nat)
    requires |r| > 0 && IsTraversal(edges, r[0], r) && x in r
    ensures NeighboursIn(edges, x, Elems(r))
  {
    forall k, y | 0 <= k < |edges| && edges[k].Joins(x, y)
      ensures y in Elems(r)
    {
      ReachableStep(edges, r[0], x, k, y);
    }
  }

  /** A union of complete components holds every neighbour of its members. */
  lemma CoveredClosed(edges: seq<Edge>, m: set<nat>, comps: seq<seq<nat>>)
    requires AllTraversals(edges, comps) && Covers(m, comps)
    ensures forall x :: x in m ==> NeighboursIn(edges, x, m)
  {
    forall x | x in m
      ensures NeighboursIn(edges, x, m)
    {
      var j :| 0 <= j < |comps| && x in comps[j];
      ComponentClosed(edges, comps[j], x);
      assert Elems(comps[j]) <= m;
      NeighboursMono(edges, x, Elems(comps[j]), m);
    }
  }

  /**
   * An exploration from a node outside a union `m1` of complete components, which began
   * with exactly `m1` marked, lists everything reachable from that node.
   */
  lemma ExploredComponent(edges: seq<Edge>, m1: set<nat>, comps: seq<seq<nat>>, c: seq<nat>, m2: set<nat>)
    requires AllTraversals(edges, comps) && Covers(m1, comps)
    requires |c| > 0 && Completed(edges, m1, m2, c)
    ensures IsTraversal(edges, c[0], c)
  {
    var s := c[0];
    CoveredClosed(edges, m1, comps);
    forall x | x in m2
      ensures NeighboursIn(edges, x, m2)
    {
      if x in m1 {
        NeighboursMono(edges, x, m1, m2);
      }
    }
    NeighboursClosed(edges, m2);
    DiscoveredReachable(edges, c);
    forall x | Reachable(edges, s, x)
      ensures x in c
    {
      ClosedReach(edges, m2, s, x);
      ReachedBack(edges, m1, comps, s, x);
    }
  }

  /** Whatever reaches a member of a union of complete components belongs to it. */
  lemma ReachedBack(edges: seq<Edge>, m: set<nat>, comps: seq<seq<nat>>, s: nat, x: nat)
    requires AllTraversals(edges, comps) && Covers(m, comps) && Reachable(edges, s, x)
    ensures x in m ==> s in m
  {
    if x in m {
      var j :| 0 <= j < |comps| && x in comps[j];
      ReachableSymmetric(edges, s, x);
      ReachableTransitive(edges, comps[j][0], x, s);
    }
  }

  /**
   * A node not yet marked when the loop reaches it starts a new component: the exploration
   * from it, which began with only complete components marked, lists exactly the nodes
   * reachable from it.
   */
  lemma CompStep(edges: seq<Edge>, index: map<nat, nat>, vs: seq<nat>, i: nat,
                 m1: set<nat>, comps: seq<seq<nat>>, c: seq<nat>, m2: set<nat>)
    requires IndexOf(vs, index) && Endpoints(index, edges)
    requires CompState(edges, index, vs, i, m1, comps) && i < |vs| && vs[i] !in m1
    requires |c| > 0 && c[0] == vs[i] && Completed(edges, m1, m2, c) && DepthFirst(edges, m1, c)
    ensures CompState(edges, index, vs, i + 1, m2, comps + [c])
  {
    var s := vs[i];
    var comps' := comps + [c];
    assert Closed(edges, index.Keys);
    ExploredComponent(edges, m1, comps, c, m2);
    forall x | x in c
      ensures x in index && i <= index[x]
    {
      ClosedReach(edges, index.Keys, s, x);
      assert vs[index[x]] == x;
    }
    assert index[s] == i;
    HeadsAppend(index, comps, c, i);
    TraversalsAppend(edges, comps, c);
    forall x | x in c
      ensures x !in m1 && NeighboursIn(edges, x, Elems(c))
    {
      ComponentClosed(edges, c, x);
    }
    DepthFirstAlone(edges, m1, c);
    DepthFirstAppend(edges, comps, c);
    CoversAppend(m1, comps, c, m2);
  }

  /** Appending a list whose members are stored at or after `i`, its first node at `i`. */
  lemma HeadsAppend(index: map<nat, nat>, comps: seq<seq<nat>>, c: seq<nat>, i: nat)
    requires HeadsStored(index, comps) && HeadsIncreasing(index, comps) && HeadsFirst(index, comps)
    requires forall j :: 0 <= j < |comps| ==> index[comps[j][0]] < i
    requires |c| > 0 && c[0] in index && index[c[0]] == i
    requires forall x :: x in c ==> x in index && i <= index[x]
    ensures HeadsStored(index, comps + [c])
    ensures HeadsIncreasing(index, comps + [c]) && HeadsFirst(index, comps + [c])
    ensures forall j :: 0 <= j < |comps + [c]| ==> index[(comps + [c])[j][0]] < i + 1
  {
    var comps' := comps + [c];
    assert forall j :: 0 <= j < |comps| ==> comps'[j] == comps[j];
    assert comps'[|comps|] == c;
  }

  /** Appending a traversal order of everything reachable from its first node. */
  lemma TraversalsAppend(edges: seq<Edge>, comps: seq<seq<nat>>, c: seq<nat>)
    requires AllTraversals(edges, comps) && |c| > 0 && IsTraversal(edges, c[0], c)
    ensures AllTraversals(edges, comps + [c])
  {
    var comps' := comps + [c];
    assert forall j :: 0 <= j < |comps| ==> comps'[j] == comps[j];
  }

  /**
   * Each component list is exactly what `dfs` returns from its first node: any traversal
   * from that node in depth-first order is that list.
   */
  lemma ComponentIsDfs(edges: seq<Edge>, index: map<nat, nat>, comps: seq<seq<nat>>, j: nat, r: seq<nat>)
    requires ComponentList(edges, index, comps) && j < |comps|
    requires |comps[j]| > 0 && IsTraversal(edges, comps[j][0], r) && DepthFirst(edges, {}, r)
    ensures r == comps[j]
  {
    DepthFirstUnique(edges, comps[j][0], r, comps[j]);
  }

  /** Appending a depth-first order from nothing marked. */
  lemma DepthFirstAppend(edges: seq<Edge>, comps: seq<seq<nat>>, c: seq<nat>)
    requires AllDepthFirst(edges, comps) && DepthFirst(edges, {}, c)
    ensures AllDepthFirst(edges, comps + [c])
  {
    var comps' := comps + [c];
    assert forall j :: 0 <= j < |comps| ==> comps'[j] == comps[j];
  }

  /** Appending a list adds its members to the covered set. */
  lemma CoversAppend(m1: set<nat>, comps: seq<seq<nat>>, c: seq<nat>, m2: set<nat>)
    requires Covers(m1, comps) && m2 == m1 + Elems(c)
    ensures Covers(m2, comps + [c])
  {
    var comps' := comps + [c];
    assert comps'[|comps|] == c;
    forall x | x in m2
      ensures Listed(comps', x)
    {
      if x !in c {
        var j :| 0 <= j < |comps| && x in comps[j];
        assert comps'[j] == comps[j];
      }
    }
    forall x, j | 0 <= j < |comps'| && x in comps'[j]
      ensures x in m2
    {
      if j < |comps| {
        assert comps'[j] == comps[j];
      }
    }
  }

  /** When the loop has passed every node, the components found are the complete list. */
  lemma CompDone(edges: seq<Edge>, index: map<nat, nat>, vs: seq<nat>, marked: set<nat>, comps: seq<seq<nat>>)
    requires IndexOf(vs, index) && CompState(edges, index, vs, |vs|, marked, comps)
    ensures ComponentList(edges, index, comps)
  {
    forall x | x in index
      ensures Listed(comps, x)
    {
      assert vs[index[x]] == x && x in marked;
    }
  }

  /** Two components of a component list never share a node. */
  lemma ComponentsDisjoint(edges: seq<Edge>, index: map<nat, nat>, comps: seq<seq<nat>>, j1: nat, j2: nat, x: nat)
    requires ComponentList(edges, index, comps) && j1 < |comps| && j2 < |comps|
    requires x in comps[j1] && x in comps[j2]
    ensures j1 == j2
  {
    var h1, h2 := comps[j1][0], comps[j2][0];
    ReachableSymmetric(edges, h2, x);
    ReachableTransitive(edges, h1, x, h2);
    ReachableSymmetric(edges, h1, x);
    ReachableTransitive(edges, h2, x, h1);
    assert index[h1] <= index[h2] && index[h2] <= index[h1];
  }

  /** A component holds exactly the nodes reachable from any of its members. */
  lemma SameComponent(edges: seq<Edge>, index: map<nat, nat>, comps: seq<seq<nat>>, j: nat, x: nat, y: nat)
    requires ComponentList(edges, index, comps) && j < |comps| && x in comps[j]
    ensures y in comps[j] <==> Reachable(edges, x, y)
  {
    var h := comps[j][0];
    ReachableSymmetric(edges, h, x);
    if y in comps[j] {
      ReachableTransitive(edges, x, h, y);
    }
    if Reachable(edges, x, y) {
      ReachableTransitive(edges, h, x, y);
    }
  }

  /** With at most one component, every node is reachable from every other. */
  lemma FewComponentsConnected(edges: seq<Edge>, index: map<nat, nat>, comps: seq<seq<nat>>)
    requires ComponentList(edges, index, comps) && |comps| <= 1
    ensures Connected(edges, index.Keys)
  {
    if |comps| == 1 {
      var c := comps[0];
      assert IsTraversal(edges, c[0], c);
      forall x | x in index.Keys
        ensures Reachable(edges, c[0], x)
      {
        assert Listed(comps, x);
        var j :| 0 <= j < |comps| && x in comps[j];
        assert j == 0;
      }
      ConnectedFromOne(edges, index.Keys, c[0]);
    }
  }

  /** With two components, the first node of the second is unreachable from that of the first. */
  lemma ManyComponentsDisconnected(edges: seq<Edge>, index: map<nat, nat>, comps: seq<seq<nat>>)
    requires ComponentList(edges, index, comps) && |comps| >= 2
    ensures !Connected(edges, index.Keys)
  {
    var h0, h1 := comps[0][0], comps[1][0];
    assert h0 in index.Keys && h1 in index.Keys;
    if Reachable(edges, h0, h1) {
      SameComponent(edges, index, comps, 0, h0, h1);
      ComponentsDisjoint(edges, index, comps, 0, 1, h1);
    }
  }

  /** The graph is connected exactly when it has at most one component. */
  lemma ConnectedIffOneComponent(edges: seq<Edge>, index: map<nat, nat>, comps: seq<seq<nat>>)
    requires ComponentList(edges, index, comps)
    ensures Connected(edges, index.Keys) <==> |comps| <= 1
  {
    if |comps| <= 1 {
      FewComponentsConnected(edges, index, comps);
    } else {
      ManyComponentsDisconnected(edges, index, comps);
    }
  }
}
