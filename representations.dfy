/**
 * What the three exported representations of a graph hold, as functions of the stored edge
 * list: the edge list itself, the outgoing lists of the adjacency list and the cells of the
 * adjacency matrix.
 */
module Representations {
  import opened Common
  import opened Edges

  /** One entry of `get_edge_list`: (weight, from value, to value). */
  type Triple = (nat, nat, nat)

  /**
   * `get_edge_list`, built the way the list grows: each stored edge adds its triple
   * at the end. The contract gives the triple at every position.
   */
  function EdgeList(edges: seq<Edge>): (r: seq<Triple>)
    ensures |r| == |edges|
    ensures forall k :: 0 <= k < |edges| ==> r[k] == (edges[k].value, edges[k].from, edges[k].to)
    decreases |edges|
  {
    if |edges| == 0 then []
    else
      var e := edges[|edges| - 1];
      EdgeList(edges[..|edges| - 1]) + [(e.value, e.from, e.to)]
  }

  /**
   * Slot `i` of the adjacency list before empty slots become `None`: a (to, weight) pair
   * for each stored edge whose `from` is `i`, in insertion order.
   */
  function OutList(edges: seq<Edge>, i: nat): seq<(nat, nat)>
    decreases |edges|
  {
    if |edges| == 0 then []
    else
      var e := edges[|edges| - 1];
      OutList(edges[..|edges| - 1], i) + (if e.from == i then [(e.to, e.value)] else [])
  }

  /**
   * Cell `[i][j]` of the adjacency matrix: the weight of the last stored edge from `i` to
   * `j` (each edge overwrites the cell, so the last write wins), or 0 when there is none.
   */
  function Cell(edges: seq<Edge>, i: nat, j: nat): nat
    decreases |edges|
  {
    if |edges| == 0 then 0
    else
      var e := edges[|edges| - 1];
      if e.from == i && e.to == j then e.value else Cell(edges[..|edges| - 1], i, j)
  }

  /**
   * `get_edge_list_names`: fails when no names are set, and when an endpoint has no name;
   * otherwise the edge list with both endpoints replaced by their names.
   */
  function EdgeListNames(names: seq<string>, edges: seq<Edge>): (r: Result<seq<(nat, string, string)>>)
    ensures r == Err(MissingNames) <==> names == []
    ensures r.Ok? <==> names != [] && forall k :: 0 <= k < |edges| ==> edges[k].from < |names| && edges[k].to < |names|
    ensures r.Err? && names != [] ==> r.error == IndexOutOfRange
    ensures r.Ok? ==> |r.value| == |edges| && forall k :: 0 <= k < |edges| ==>
      var (w, a, b) := EdgeList(edges)[k]; r.value[k] == (w, names[a], names[b])
  {
    if names == [] then Err(MissingNames)
    else if forall k :: 0 <= k < |edges| ==> edges[k].from < |names| && edges[k].to < |names| then
      Ok(seq(|edges|, k requires 0 <= k < |edges| && edges[k].from < |names| && edges[k].to < |names| =>
        (edges[k].value, names[edges[k].from], names[edges[k].to])))
    else Err(IndexOutOfRange)
  }

  /** `convert_to_names` over one slot: each (to, weight) pair with `to` replaced by its name. */
  function NamePairs(names: seq<string>, pairs: seq<(nat, nat)>): (r: Result<seq<(string, nat)>>)
    ensures r.Ok? <==> forall j :: 0 <= j < |pairs| ==> pairs[j].0 < |names|
    ensures r.Ok? ==> |r.value| == |pairs| && forall j :: 0 <= j < |pairs| ==> r.value[j] == (names[pairs[j].0], pairs[j].1)
    ensures r.Err? ==> r.error == IndexOutOfRange
  {
    if forall j :: 0 <= j < |pairs| ==> pairs[j].0 < |names| then
      Ok(seq(|pairs|, j requires 0 <= j < |pairs| && pairs[j].0 < |names| => (names[pairs[j].0], pairs[j].1)))
    else Err(IndexOutOfRange)
  }

  /**
   * Entry `o` is slot `i` of `get_adjacency_list_names`: `None` for a node without outgoing
   * edges, otherwise its out-list with every target replaced by its name.
   */
  ghost predicate NamedSlot(names: seq<string>, edges: seq<Edge>, i: nat, o: Option<seq<(string, nat)>>) {
    && (OutList(edges, i) == [] ==> o == None)
    && (OutList(edges, i) != [] ==> NamePairs(names, OutList(edges, i)).Ok? && o == Some(NamePairs(names, OutList(edges, i)).value))
  }

  /** An adjacency-list slot: its pairs, or `None` for a node without outgoing edges. */
  function Slot(pairs: seq<(nat, nat)>): Option<seq<(nat, nat)>> {
    if pairs == [] then None else Some(pairs)
  }

  /** `[node_names[v] for v in vs]`: fails when a value is not a valid index of `names`. */
  function Named(names: seq<string>, vs: seq<nat>): (r: Result<seq<string>>)
    ensures r.Ok? <==> forall i :: 0 <= i < |vs| ==> vs[i] < |names|
    ensures r.Ok? ==> |r.value| == |vs| && forall i :: 0 <= i < |vs| ==> r.value[i] == names[vs[i]]
    ensures r.Err? ==> r.error == IndexOutOfRange
  {
    if forall i :: 0 <= i < |vs| ==> vs[i] < |names| then
      Ok(seq(|vs|, i requires 0 <= i < |vs| => names[vs[i]]))
    else
      Err(IndexOutOfRange)
  }

  /** Appending an edge appends its pair to the slot of its `from` node and leaves the others alone. */
  lemma OutListAppend(edges: seq<Edge>, e: Edge, i: nat)
    ensures OutList(edges + [e], i) == OutList(edges, i) + (if e.from == i then [(e.to, e.value)] else [])
  {
    assert (edges + [e])[..|edges|] == edges;
  }

  /** Appending an edge from `i` to `j` overwrites cell `[i][j]` only. */
  lemma CellAppend(edges: seq<Edge>, e: Edge, i: nat, j: nat)
    ensures Cell(edges + [e], i, j) == if e.from == i && e.to == j then e.value else Cell(edges, i, j)
  {
    assert (edges + [e])[..|edges|] == edges;
  }

  /**
   * Round trip between the adjacency list and the edge list: `(to, w)` is in slot `i`
   * exactly when `(w, i, to)` is in the edge list.
   */
  lemma {:induction false} OutListMatchesEdgeList(edges: seq<Edge>, i: nat, to: nat, w: nat)
    ensures (to, w) in OutList(edges, i) <==> (w, i, to) in EdgeList(edges)
  {
    if |edges| > 0 {
      var n := |edges| - 1;
      OutListMatchesEdgeList(edges[..n], i, to, w);
      var pre := EdgeList(edges[..n]);
      assert EdgeList(edges) == pre + [(edges[n].value, edges[n].from, edges[n].to)];
    }
  }

  /**
   * The loop of `get_adjacency_list_names` over the slots of `get_adjacency_list`: it fails
   * exactly when an edge from one of the slots has a target without a name, and otherwise
   * gives every slot with its targets replaced by their names.
   */
  method NameSlots(names: seq<string>, edges: seq<Edge>, slots: seq<Option<seq<(nat, nat)>>>)
      returns (res: Result<seq<Option<seq<(string, nat)>>>>)
    requires forall i :: 0 <= i < |slots| ==> slots[i] == Slot(OutList(edges, i))
    ensures res.Ok? <==> forall k :: 0 <= k < |edges| && edges[k].from < |slots| ==> edges[k].to < |names|
    ensures res.Err? ==> res.error == IndexOutOfRange
    ensures res.Ok? ==> |res.value| == |slots| && forall i :: 0 <= i < |slots| ==> NamedSlot(names, edges, i, res.value[i])
  {
    var result: seq<Option<seq<(string, nat)>>> := [];
    var i := 0;
    while i < |slots|
      invariant i <= |slots| && |result| == i
      invariant forall k :: 0 <= k < |edges| && edges[k].from < i ==> edges[k].to < |names|
      invariant forall i' :: 0 <= i' < i ==> NamedSlot(names, edges, i', result[i'])
    {
      var pairs := OutList(edges, i);
      if slots[i].None? {
        result := result + [None];
      } else {
        var converted := NamePairs(names, slots[i].value);
        if converted.Err? {
          var j :| 0 <= j < |pairs| && pairs[j].0 >= |names|;
          OutListTargetMissing(edges, i, |names|, j);
          return Err(IndexOutOfRange);
        }
        result := result + [Some(converted.value)];
      }
      assert forall j :: 0 <= j < |pairs| ==> pairs[j].0 < |names|;
      OutListTargets(edges, i, |names|);
      i := i + 1;
    }
    return Ok(result);
  }

  /** When every pair in slot `i` has a target below `n`, so does every edge from `i`. */
  lemma OutListTargets(edges: seq<Edge>, i: nat, n: nat)
    requires forall j :: 0 <= j < |OutList(edges, i)| ==> OutList(edges, i)[j].0 < n
    ensures forall k :: 0 <= k < |edges| && edges[k].from == i ==> edges[k].to < n
  {
    forall k | 0 <= k < |edges| && edges[k].from == i
      ensures edges[k].to < n
    {
      OutListMatchesEdgeList(edges, i, edges[k].to, edges[k].value);
      assert EdgeList(edges)[k] == (edges[k].value, i, edges[k].to);
    }
  }

  /** A pair in slot `i` with a target at or past `n` comes from an edge from `i` with that target. */
  lemma OutListTargetMissing(edges: seq<Edge>, i: nat, n: nat, j: nat)
    requires j < |OutList(edges, i)| && OutList(edges, i)[j].0 >= n
    ensures exists k :: 0 <= k < |edges| && edges[k].from == i && edges[k].to >= n
  {
    var (to, w) := OutList(edges, i)[j];
    OutListMatchesEdgeList(edges, i, to, w);
    assert (to, w) in OutList(edges, i);
    var k :| 0 <= k < |EdgeList(edges)| && EdgeList(edges)[k] == (w, i, to);
    assert edges[k].from == i && edges[k].to == to;
  }

  /** Entry `k` of triple list `l` is the last one from `i` to `j`. */
  predicate LastFromTo(l: seq<Triple>, k: nat, i: nat, j: nat) {
    k < |l| && l[k].1 == i && l[k].2 == j && forall k' :: k < k' < |l| ==> l[k'].1 != i || l[k'].2 != j
  }

  /**
   * Value `c` is what the triple list `l` puts in cell `[i][j]`: 0 when no triple goes from
   * `i` to `j`, otherwise the weight of the last triple that does.
   */
  ghost predicate CellFits(l: seq<Triple>, i: nat, j: nat, c: nat) {
    || ((forall k :: 0 <= k < |l| ==> l[k].1 != i || l[k].2 != j) && c == 0)
    || (exists k: nat :: LastFromTo(l, k, i, j) && l[k].0 == c)
  }

  /**
   * Round trip between the adjacency matrix and the edge list: every cell holds what
   * the edge list puts there.
   */
  lemma {:induction false} CellMatchesEdgeList(edges: seq<Edge>, i: nat, j: nat)
    ensures CellFits(EdgeList(edges), i, j, Cell(edges, i, j))
  {
    if |edges| > 0 {
      var n := |edges| - 1;
      var e := edges[n];
      CellMatchesEdgeList(edges[..n], i, j);
      var pre := EdgeList(edges[..n]);
      var l := EdgeList(edges);
      assert l == pre + [(e.value, e.from, e.to)];
      if e.from == i && e.to == j {
        assert LastFromTo(l, n, i, j) && l[n].0 == Cell(edges, i, j);
      } else if exists k: nat :: LastFromTo(pre, k, i, j) && pre[k].0 == Cell(edges[..n], i, j) {
        var k: nat :| LastFromTo(pre, k, i, j) && pre[k].0 == Cell(edges[..n], i, j);
        assert LastFromTo(l, k, i, j);
      }
    }
  }
}
