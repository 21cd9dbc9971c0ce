/** src/Node.py: a vertex identified by its value. */
module Nodes {
  import opened Common

  /** CPython's modulus for hashing integers on 64-bit builds (2^61 - 1). */
  const HashModulus: nat := 0x1FFF_FFFF_FFFF_FFFF

  /**
   * A vertex: its value, which is its identity, and the indices of its incident edges in
   * insertion order. The node's `visited` flag is kept by the owning graph, in a sequence
   * parallel to the graph's nodes (see Graphs.Graph.visited).
   */
  datatype Node = Node(value: nat, edges: seq<nat>) {

    /** `__eq__`: a Node equals another Node exactly when their values are equal. */
    predicate Equals(other: Operand<Node>) {
      match other
      case Same(n) => value == n.value
      case Foreign => false
    }

    /** `__hash__`: the hash of the value (a non-negative Python int hashes to itself modulo 2^61 - 1). */
    function Hash(): nat {
      value % HashModulus
    }
  }

  /** `Node(value)`: a node with no incident edges. */
  function New(value: nat): Node {
    Node(value, [])
  }

  /** The elements a Python set of nodes keeps: one per equality class, that is, per value. */
  function SetOf(ns: seq<Node>): set<nat> {
    set n | n in ns :: n.value
  }

  /** Node equality is an equivalence relation that looks at values only, never at incident edges. */
  lemma EqualsIsValueEquivalence(a: Node, b: Node, c: Node)
    ensures a.Equals(Same(a))
    ensures a.Equals(Same(b)) <==> b.Equals(Same(a))
    ensures a.Equals(Same(b)) && b.Equals(Same(c)) ==> a.Equals(Same(c))
    ensures a.Equals(Same(b)) <==> New(a.value) == New(b.value)
  {
  }

  /** A node never equals an object of another class. */
  lemma NeverEqualsForeign(a: Node)
    ensures !a.Equals(Foreign)
  {
  }

  /** Equal nodes hash equally, as a dictionary key or set element requires. */
  lemma HashRespectsEquals(a: Node, b: Node)
    requires a.Equals(Same(b))
    ensures a.Hash() == b.Hash()
  {
  }

  /** A set built from two nodes of value 5 and one of value 10 has two elements. */
  lemma SetOfDeduplicates()
    ensures |SetOf([New(5), New(5), New(10)])| == 2
  {
    var s := SetOf([New(5), New(5), New(10)]);
    assert New(5) in [New(5), New(5), New(10)];
    assert New(10) in [New(5), New(5), New(10)];
    assert s == {5, 10};
  }
}
