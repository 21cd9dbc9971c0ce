/**
 * Consistency of the graph's node store (the node list, the value-to-node map and the
 * incidence lists) and of its `visited` flags, as predicates on plain values.
 */
module Stores {
  import opened Nodes
  import opened Edges
  import opened Walks

  /** The values of `ns`, in order. */
  function Values(ns: seq<Node>): (vs: seq<nat>)
    ensures |vs| == |ns| && forall i :: 0 <= i < |ns| ==> vs[i] == ns[i].value
  {
    seq(|ns|, i requires 0 <= i < |ns| => ns[i].value)
  }

  /** `index` maps each value in `vs` to the one position holding it, and nothing else. */
  ghost predicate IndexOf(vs: seq<nat>, index: map<nat, nat>) {
    && (forall i :: 0 <= i < |vs| ==> vs[i] in index && index[vs[i]] == i)
    && (forall v :: v in index ==> index[v] < |vs| && vs[index[v]] == v)
  }

  /** Every edge joins stored nodes. */
  ghost predicate Endpoints(index: map<nat, nat>, edges: seq<Edge>) {
    forall k :: 0 <= k < |edges| ==> edges[k].from in index && edges[k].to in index
  }

  /** Each node lists exactly its incident edges, in insertion order. */
  ghost predicate IncidenceOk(ns: seq<Node>, edges: seq<Edge>) {
    forall i :: 0 <= i < |ns| ==> ns[i].edges == Incident(edges, ns[i].value)
  }

  /**
   * Appending edge `e` to the incidence lists of its two endpoints, at `ha` and `hb`, as
   * `insert_edge` does, keeps every list exact once `e` is appended to the edge list.
   */
  lemma AttachBoth(ns: seq<Node>, edges: seq<Edge>, e: Edge, ha: nat, hb: nat, ns': seq<Node>)
    requires IncidenceOk(ns, edges)
    requires ha < |ns| && hb < |ns| && ns[ha].value == e.from && ns[hb].value == e.to
    requires forall i :: 0 <= i < |ns| && ns[i].value == e.from ==> i == ha
    requires forall i :: 0 <= i < |ns| && ns[i].value == e.to ==> i == hb
    requires var n := ns[ha := ns[ha].(edges := ns[ha].edges + [|edges|])];
      ns' == n[hb := n[hb].(edges := n[hb].edges + [|edges|])]
    ensures IncidenceOk(ns', edges + [e])
    ensures Values(ns') == Values(ns)
  {
    forall i | 0 <= i < |ns|
      ensures ns'[i].value == ns[i].value
      ensures ns'[i].edges == Incident(edges + [e], ns'[i].value)
    {
      IncidentAppend(edges, e, ns[i].value);
    }
  }

  /**
   * Appending a fresh node for a value not yet stored, as `insert_node` does, keeps the
   * index exact, the endpoints stored and the incidence lists exact.
   */
  lemma AppendNode(ns: seq<Node>, index: map<nat, nat>, edges: seq<Edge>, v: nat)
    requires IndexOf(Values(ns), index) && Endpoints(index, edges) && IncidenceOk(ns, edges)
    requires v !in index
    ensures Values(ns + [New(v)]) == Values(ns) + [v]
    ensures IndexOf(Values(ns + [New(v)]), index[v := |ns|])
    ensures Endpoints(index[v := |ns|], edges)
    ensures IncidenceOk(ns + [New(v)], edges)
  {
    NoIncidentEdges(edges, index, v);
    var ns' := ns + [New(v)];
    assert Values(ns') == Values(ns) + [v];
    forall i | 0 <= i < |ns'|
      ensures ns'[i].edges == Incident(edges, ns'[i].value)
    {
      if i < |ns| {
        assert ns'[i] == ns[i];
      }
    }
  }

  /** A value that no edge touches has an empty incidence list. */
  lemma NoIncidentEdges(edges: seq<Edge>, index: map<nat, nat>, v: nat)
    requires Endpoints(index, edges)
    requires v !in index
    ensures Incident(edges, v) == []
    decreases |edges|
  {
    if |edges| > 0 {
      NoIncidentEdges(edges[..|edges| - 1], index, v);
    }
  }

  /** The values whose node, at `index[v]`, has its flag set. */
  ghost function MarkedOf(index: map<nat, nat>, visited: seq<bool>): set<nat> {
    set v | v in index && index[v] < |visited| && visited[index[v]]
  }

  /** Setting the flag of `v`'s node marks `v` and nothing else. */
  lemma MarkOne(vs: seq<nat>, index: map<nat, nat>, visited: seq<bool>, v: nat)
    requires IndexOf(vs, index) && |visited| == |vs| && v in index
    ensures MarkedOf(index, visited[index[v] := true]) == MarkedOf(index, visited) + {v}
  {
    forall u | u in index && u != v
      ensures index[u] != index[v]
    {
      assert vs[index[u]] == u;
    }
  }

  /** With every flag clear nothing is marked. */
  lemma NoneMarked(index: map<nat, nat>, visited: seq<bool>)
    requires forall i :: 0 <= i < |visited| ==> !visited[i]
    ensures MarkedOf(index, visited) == {}
  {
  }

  /** The stored values are exactly the keys of the index, one node per value. */
  lemma IndexKeys(vs: seq<nat>, index: map<nat, nat>)
    requires IndexOf(vs, index)
    ensures forall v :: v in index <==> v in vs
  {
    forall v | v in vs
      ensures v in index
    {
      var i :| 0 <= i < |vs| && vs[i] == v;
    }
  }

  /** The incidence list of a stored node lists exactly the edges touching it. */
  lemma IncidenceList(ns: seq<Node>, index: map<nat, nat>, edges: seq<Edge>, v: nat)
    requires IndexOf(Values(ns), index) && IncidenceOk(ns, edges) && v in index
    ensures index[v] < |ns| && ns[index[v]].value == v
    ensures forall k :: k in ns[index[v]].edges <==> 0 <= k < |edges| && edges[k].Touches(v)
    ensures forall j :: 0 <= j < |ns[index[v]].edges| ==>
      ns[index[v]].edges[j] < |edges| && edges[ns[index[v]].edges[j]].Touches(v)
  {
    IncidentMembers(edges, v);
    var es := ns[index[v]].edges;
    assert forall j :: 0 <= j < |es| ==> es[j] in es;
  }
}
