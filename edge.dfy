/** src/Edge.py: a weighted connection between two nodes. */
module Edges {
  import opened Common
  import Nodes

  /**
   * An edge with its weight (`value`) and its two endpoints, named by their node values
   * (a node's identity). The direction `from` -> `to` is a label only: every algorithm of
   * the graph may cross an edge either way. Fields are never reassigned after construction.
   */
  datatype Edge = Edge(value: nat, from: nat, to: nat) {

    /** The edge has `n` as one of its endpoints. */
    predicate Touches(n: nat) {
      n == from || n == to
    }

    /** The edge connects `a` and `b`, in either direction. */
    predicate Joins(a: nat, b: nat) {
      (from == a && to == b) || (from == b && to == a)
    }

    /** `__eq__`: weight and both endpoints equal, direction included; never equal to a non-Edge. */
    predicate Equals(other: Operand<Edge>) {
      match other
      case Same(e) => value == e.value && from == e.from && to == e.to
      case Foreign => false
    }

    /** `get_other_node`: the endpoint opposite `n`, or an error when `n` is not an endpoint. */
    function GetOtherNode(n: nat): (r: Result<nat>)
      ensures r.Ok? <==> Touches(n)
      ensures r.Ok? ==> Joins(n, r.value)
      ensures r.Err? ==> r.error == NotAnEndpoint(n)
    {
      if n == from then Ok(to)
      else if n == to then Ok(from)
      else Err(NotAnEndpoint(n))
    }
  }

  /** `Edge(value, node_from, node_to)`: the endpoints are recorded by identity. */
  function Make(value: nat, nodeFrom: Nodes.Node, nodeTo: Nodes.Node): Edge {
    Edge(value, nodeFrom.value, nodeTo.value)
  }

  /** Edges built from equal nodes are equal edges; the endpoints' incident lists do not matter. */
  lemma MakeRespectsNodeEquality(value: nat, a: Nodes.Node, a': Nodes.Node, b: Nodes.Node, b': Nodes.Node)
    requires a.Equals(Common.Same(a')) && b.Equals(Common.Same(b'))
    ensures Make(value, a, b).Equals(Same(Make(value, a', b')))
    ensures Make(value, a, b) == Make(value, a', b')
  {
  }

  /** Equality is exactly equality of the three fields: direction matters, and so does the weight. */
  lemma EqualsIsFieldEquality(e: Edge, f: Edge)
    ensures e.Equals(Same(f)) <==> e == f
    ensures !e.Equals(Foreign)
    ensures e.Equals(Same(Edge(e.value, e.to, e.from))) <==> e.from == e.to
  {
  }

  /** From `node_from` the other node is `node_to`. */
  lemma OtherOfFrom(e: Edge)
    ensures e.GetOtherNode(e.from) == Ok(e.to)
  {
  }

  /** From `node_to` the other node is `node_from` when the endpoints differ. */
  lemma OtherOfTo(e: Edge)
    requires e.from != e.to
    ensures e.GetOtherNode(e.to) == Ok(e.from)
  {
  }

  /** Crossing an edge twice returns to where one started (a self-loop never leaves its node). */
  lemma OtherIsInvolution(e: Edge, n: nat)
    requires e.Touches(n)
    ensures e.GetOtherNode(e.GetOtherNode(n).value) == Ok(n)
    ensures e.from == e.to ==> e.GetOtherNode(n) == Ok(n)
  {
  }

  /** Whichever way round `e` joins `a` and `b`, its other end seen from `a` is `b`. */
  lemma JoinsOther(e: Edge, a: nat, b: nat)
    requires e.Joins(a, b)
    ensures e.GetOtherNode(a) == Ok(b)
  {
  }
}
