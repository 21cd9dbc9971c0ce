/**
 * The summary figures of src/Graph.py: `get_graph_density` and the degree part of
 * `get_graph_stats`, with the degree-sum (handshake) identity that ties the degrees to the
 * number of stored edges.
 */
module Statistics {
  import opened Common
  import opened Nodes
  import opened Edges
  import opened Walks
  import opened Traversals

  /** A non-negative ratio `num / den` kept exact; the source computes it as a float. */
  datatype Fraction = Fraction(num: nat, den: nat)

  /** The minimum, maximum and sum of the degrees of a non-empty sequence of nodes. */
  datatype Degrees = Degrees(min: nat, max: nat, sum: nat, count: nat)

  /**
   * `get_graph_stats`: node count, stored edges halved, connectivity, cycle, density,
   * number of components and, when there are nodes, the degree figures.
   */
  datatype Summary = Summary(numNodes: nat, numEdges: nat, connected: bool, cyclic: bool,
                             density: Fraction, components: nat, degrees: Option<Degrees>)

  /** The number of unordered pairs of different positions among `n`: 0 + 1 + ... + (n - 1). */
  function Pairs(n: nat): nat {
    if n == 0 then 0 else Pairs(n - 1) + (n - 1)
  }

  /** The closed form used by `get_graph_density` counts exactly the pairs of different nodes. */
  lemma {:induction false} PairsClosedForm(n: nat)
    ensures Pairs(n) == n * (n - 1) / 2
  {
    if n > 0 {
      PairsClosedForm(n - 1);
      assert (n - 1) * (n - 2) + 2 * (n - 1) == n * (n - 1);
    }
  }

  /**
   * `get_graph_density` for `n` nodes and `m` stored edges: 0 below two nodes; otherwise the
   * stored edges halved (each connection is taken to be stored in both directions) over the
   * number of pairs of different nodes. The source's fallback for a zero denominator never
   * applies, since two or more nodes always have a pair.
   */
  function Density(n: nat, m: nat): (r: Fraction)
    ensures r.den > 0
    ensures n < 2 ==> r.num == 0
    ensures n >= 2 ==> r.num == m / 2 && r.den == Pairs(n)
  {
    if n < 2 then Fraction(0, 1)
    else
      PairsClosedForm(n);
      Fraction(m / 2, n * (n - 1) / 2)
  }

  /** The degrees of `ns` listed by their incidence lists, summed. */
  function ListedSum(ns: seq<Node>): nat {
    if ns == [] then 0 else ListedSum(ns[..|ns| - 1]) + |ns[|ns| - 1].edges|
  }

  /** The number of edges touching each value of `vs`, summed (a self-loop counts twice). */
  function DegreeSum(edges: seq<Edge>, vs: seq<nat>): nat {
    if vs == [] then 0 else DegreeSum(edges, vs[..|vs| - 1]) + |Incident(edges, vs[|vs| - 1])|
  }

  /** The number of positions of `vs` holding `x`. */
  function Occurrences(vs: seq<nat>, x: nat): nat {
    if vs == [] then 0 else Occurrences(vs[..|vs| - 1], x) + (if vs[|vs| - 1] == x then 1 else 0)
  }

  /** When each node lists its incident edges, the listed degrees are the incident counts. */
  lemma {:induction false} ListedIsDegreeSum(ns: seq<Node>, edges: seq<Edge>, vs: seq<nat>)
    requires |vs| == |ns|
    requires forall i :: 0 <= i < |ns| ==> vs[i] == ns[i].value && ns[i].edges == Incident(edges, ns[i].value)
    ensures ListedSum(ns) == DegreeSum(edges, vs)
  {
    if ns != [] {
      ListedIsDegreeSum(ns[..|ns| - 1], edges, vs[..|vs| - 1]);
    }
  }

  /** Appending one edge adds one to the degree sum per occurrence of each endpoint. */
  lemma {:induction false} DegreeSumAppend(edges: seq<Edge>, e: Edge, vs: seq<nat>)
    ensures DegreeSum(edges + [e], vs) == DegreeSum(edges, vs) + Occurrences(vs, e.from) + Occurrences(vs, e.to)
  {
    if vs != [] {
      DegreeSumAppend(edges, e, vs[..|vs| - 1]);
      IncidentAppend(edges, e, vs[|vs| - 1]);
    }
  }

  /** A value not in `vs` never occurs. */
  lemma {:induction false} OccurrencesAbsent(vs: seq<nat>, x: nat)
    requires x !in vs
    ensures Occurrences(vs, x) == 0
  {
    if vs != [] {
      assert forall i :: 0 <= i < |vs| - 1 ==> vs[..|vs| - 1][i] == vs[i];
      OccurrencesAbsent(vs[..|vs| - 1], x);
    }
  }

  /** A value of a sequence without repetitions occurs exactly once. */
  lemma {:induction false} OccurrencesOnce(vs: seq<nat>, x: nat)
    requires Distinct(vs) && x in vs
    ensures Occurrences(vs, x) == 1
  {
    var last := |vs| - 1;
    var front := vs[..last];
    assert Distinct(front);
    if vs[last] == x {
      assert forall i :: 0 <= i < last ==> front[i] == vs[i];
      OccurrencesAbsent(front, x);
    } else {
      var i :| 0 <= i < |vs| && vs[i] == x;
      assert front[i] == x;
      OccurrencesOnce(front, x);
    }
  }

  /**
   * The handshake identity: over nodes with pairwise different values that include both
   * endpoints of every edge, the degrees add up to twice the number of edges.
   */
  lemma {:induction false} Handshake(edges: seq<Edge>, vs: seq<nat>)
    requires Distinct(vs)
    requires forall k :: 0 <= k < |edges| ==> edges[k].from in vs && edges[k].to in vs
    ensures DegreeSum(edges, vs) == 2 * |edges|
  {
    if edges == [] {
      DegreeSumEmpty(vs);
    } else {
      var k := |edges| - 1;
      assert edges == edges[..k] + [edges[k]];
      Handshake(edges[..k], vs);
      DegreeSumAppend(edges[..k], edges[k], vs);
      OccurrencesOnce(vs, edges[k].from);
      OccurrencesOnce(vs, edges[k].to);
    }
  }

  /** Without edges every degree is zero. */
  lemma {:induction false} DegreeSumEmpty(vs: seq<nat>)
    ensures DegreeSum([], vs) == 0
  {
    if vs != [] {
      DegreeSumEmpty(vs[..|vs| - 1]);
    }
  }

  /**
   * The degree part of `get_graph_stats`: one pass over the nodes in storage order taking
   * each node's degree (the length of its incidence list); nothing for a graph without
   * nodes, else the least and greatest degree, their sum and how many there are.
   */
  method DegreeSummary(ns: seq<Node>) returns (d: Option<Degrees>)
    ensures d.None? <==> ns == []
    ensures d.Some? ==> d.value.count == |ns| && d.value.sum == ListedSum(ns)
    ensures d.Some? ==> forall i :: 0 <= i < |ns| ==> d.value.min <= |ns[i].edges| <= d.value.max
    ensures d.Some? ==> exists i :: 0 <= i < |ns| && |ns[i].edges| == d.value.min
    ensures d.Some? ==> exists j :: 0 <= j < |ns| && |ns[j].edges| == d.value.max
  {
    if ns == [] {
      return None;
    }
    var lo, hi, sum := |ns[0].edges|, |ns[0].edges|, |ns[0].edges|;
    assert ns[..1] == [ns[0]];
    var i := 1;
    while i < |ns|
      invariant 1 <= i <= |ns|
      invariant sum == ListedSum(ns[..i])
      invariant forall j :: 0 <= j < i ==> lo <= |ns[j].edges| <= hi
      invariant exists j :: 0 <= j < i && |ns[j].edges| == lo
      invariant exists j :: 0 <= j < i && |ns[j].edges| == hi
    {
      var g := |ns[i].edges|;
      if g < lo { lo := g; }
      if g > hi { hi := g; }
      assert ns[..i + 1][..i] == ns[..i];
      sum := sum + g;
      i := i + 1;
    }
    assert ns[..i] == ns;
    return Some(Degrees(lo, hi, sum, |ns|));
  }
}
