/**
 * What a traversal order promises: it starts at the start node, lists each node once, every
 * later node is adjacent to a node listed before it, and it holds exactly the nodes
 * reachable from the start.
 */
module Traversals {
  import opened Edges
  import opened Walks

  /** The members of a sequence of node values. */
  function Elems(s: seq<nat>): set<nat> {
    set x | x in s
  }

  /** Appending a value adds it to the members. */
  lemma ElemsSnoc(s: seq<nat>, x: nat)
    ensures Elems(s + [x]) == Elems(s) + {x}
  {
    assert forall y :: y in s + [x] <==> y in s || y == x;
  }

  /** No value occurs twice. */
  predicate Distinct(s: seq<nat>) {
    forall i, j :: 0 <= i < j < |s| ==> s[i] != s[j]
  }

  /** Some edge joins `a` and `b`. */
  ghost predicate Adjacent(edges: seq<Edge>, a: nat, b: nat) {
    exists k :: 0 <= k < |edges| && edges[k].Joins(a, b)
  }

  /** Node `r[j]` is adjacent to a node listed before it. */
  ghost predicate DiscoveredAt(edges: seq<Edge>, r: seq<nat>, j: nat)
    requires j < |r|
  {
    exists i :: 0 <= i < j && Adjacent(edges, r[i], r[j])
  }

  /** Every node after the first was discovered from a node listed before it. */
  ghost predicate Discovered(edges: seq<Edge>, r: seq<nat>) {
    forall j :: 0 < j < |r| ==> DiscoveredAt(edges, r, j)
  }

  /** `r` is a complete traversal order from `s`. */
  ghost predicate IsTraversal(edges: seq<Edge>, s: nat, r: seq<nat>) {
    && |r| > 0 && r[0] == s
    && Distinct(r)
    && Discovered(edges, r)
    && forall x :: x in r <==> Reachable(edges, s, x)
  }

  /** A sequence without repetitions has as many members as elements. */
  lemma {:induction false} DistinctCard(s: seq<nat>)
    requires Distinct(s)
    ensures |Elems(s)| == |s|
  {
    if |s| > 0 {
      var n := |s| - 1;
      DistinctCard(s[..n]);
      assert Elems(s) == Elems(s[..n]) + {s[n]} by {
        assert s == s[..n] + [s[n]];
      }
      assert s[n] !in Elems(s[..n]);
    }
  }

  /** Everything in a discovery order is reachable from its first node. */
  lemma {:induction false} DiscoveredReachable(edges: seq<Edge>, r: seq<nat>)
    requires |r| > 0 && Discovered(edges, r)
    ensures forall x :: x in r ==> Reachable(edges, r[0], x)
  {
    StayPut(edges, r[0]);
    var n := |r| - 1;
    if n > 0 {
      assert Discovered(edges, r[..n]) by {
        forall j | 0 < j < n
          ensures DiscoveredAt(edges, r[..n], j)
        {
          assert DiscoveredAt(edges, r, j);
          var i :| 0 <= i < j && Adjacent(edges, r[i], r[j]);
          assert r[..n][i] == r[i] && r[..n][j] == r[j];
        }
      }
      DiscoveredReachable(edges, r[..n]);
      assert DiscoveredAt(edges, r, n);
      var i :| 0 <= i < n && Adjacent(edges, r[i], r[n]);
      var k :| 0 <= k < |edges| && edges[k].Joins(r[i], r[n]);
      assert r[i] in r[..n];
      ReachableStep(edges, r[0], r[i], k, r[n]);
      assert r == r[..n] + [r[n]];
    }
  }

  /** A node adjacent to an already listed one may be appended. */
  lemma DiscoveredSnoc(edges: seq<Edge>, r: seq<nat>, i: nat, k: nat, x: nat)
    requires Discovered(edges, r)
    requires i < |r| && k < |edges| && edges[k].Joins(r[i], x)
    ensures Discovered(edges, r + [x])
  {
    var r' := r + [x];
    forall j | 0 < j < |r'|
      ensures DiscoveredAt(edges, r', j)
    {
      if j < |r| {
        assert DiscoveredAt(edges, r, j);
        var i' :| 0 <= i' < j && Adjacent(edges, r[i'], r[j]);
        assert r'[i'] == r[i'] && r'[j] == r[j];
      } else {
        assert r'[i] == r[i] && Adjacent(edges, r'[i], r'[j]);
      }
    }
  }

  /** A discovery order that starts next to a listed node may be appended. */
  lemma DiscoveredConcat(edges: seq<Edge>, r: seq<nat>, sub: seq<nat>, i: nat, k: nat)
    requires Discovered(edges, r) && Discovered(edges, sub) && |sub| > 0
    requires i < |r| && k < |edges| && edges[k].Joins(r[i], sub[0])
    ensures Discovered(edges, r + sub)
  {
    var c := r + sub;
    forall j | 0 < j < |c|
      ensures DiscoveredAt(edges, c, j)
    {
      if j < |r| {
        assert DiscoveredAt(edges, r, j);
        var i' :| 0 <= i' < j && Adjacent(edges, r[i'], r[j]);
        assert c[i'] == r[i'] && c[j] == r[j];
      } else if j == |r| {
        assert c[i] == r[i] && c[j] == sub[0] && Adjacent(edges, c[i], c[j]);
      } else {
        assert DiscoveredAt(edges, sub, j - |r|);
        var i' :| 0 <= i' < j - |r| && Adjacent(edges, sub[i'], sub[j - |r|]);
        assert c[|r| + i'] == sub[i'] && c[j] == sub[j - |r|];
      }
    }
  }

  /** Joining two sequences without repetitions and without common members repeats nothing. */
  lemma DistinctConcat(r: seq<nat>, sub: seq<nat>)
    requires Distinct(r) && Distinct(sub)
    requires forall x :: x in sub ==> x !in r
    ensures Distinct(r + sub)
    ensures Elems(r + sub) == Elems(r) + Elems(sub)
  {
    var c := r + sub;
    forall i, j | 0 <= i < j < |c|
      ensures c[i] != c[j]
    {
      if j >= |r| && i < |r| {
        assert c[j] == sub[j - |r|] && c[i] == r[i];
        assert c[j] in sub && c[i] in r;
      }
    }
  }

  /**
   * The state of a depth-first exploration from `v` that began with the nodes `m0` marked:
   * `r` lists, from `v`, the nodes it has marked so far (`m` is everything marked now), and
   * every listed node other than `v` has all its neighbours marked.
   */
  ghost predicate Explored(edges: seq<Edge>, m0: set<nat>, m: set<nat>, r: seq<nat>, v: nat) {
    && |r| > 0 && r[0] == v && Distinct(r) && Discovered(edges, r)
    && (forall x :: x in r ==> x !in m0)
    && m == m0 + Elems(r)
    && (forall x :: x in r && x != v ==> NeighboursIn(edges, x, m))
  }

  /**
   * A finished exploration that began with the nodes `m0` marked and left `m` marked: `r`
   * lists exactly the nodes it marked, each once and each discovered from one listed before
   * it, and every listed node has all its neighbours marked.
   */
  ghost predicate Completed(edges: seq<Edge>, m0: set<nat>, m: set<nat>, r: seq<nat>) {
    && Distinct(r) && Discovered(edges, r)
    && (forall x :: x in r ==> x !in m0)
    && m == m0 + Elems(r)
    && (forall x :: x in r ==> NeighboursIn(edges, x, m))
  }

  /**
   * Appending the order `sub` of a nested exploration, started from a neighbour `o` of `v`
   * that was unmarked, keeps the exploration state and marks `o`.
   */
  lemma ExploredExtend(edges: seq<Edge>, m0: set<nat>, m1: set<nat>, r: seq<nat>, v: nat,
                       sub: seq<nat>, m2: set<nat>, k: nat, o: nat)
    requires Explored(edges, m0, m1, r, v)
    requires |sub| > 0 && sub[0] == o && Completed(edges, m1, m2, sub)
    requires k < |edges| && edges[k].Joins(v, o)
    ensures Explored(edges, m0, m2, r + sub, v)
    ensures o in m2 && m1 <= m2
  {
    DiscoveredConcat(edges, r, sub, 0, k);
    DistinctConcat(r, sub);
    forall x | x in r + sub && x != v
      ensures NeighboursIn(edges, x, m2)
    {
      if x in r {
        NeighboursMono(edges, x, m1, m2);
      }
    }
    assert o in Elems(sub);
  }

  /** The first `t` edges listed in `es` touch `v`, and their other ends are all in `m`. */
  ghost predicate EndsIn(edges: seq<Edge>, v: nat, es: seq<nat>, t: nat, m: set<nat>)
    requires t <= |es|
  {
    forall j :: 0 <= j < t ==>
      es[j] < |edges| && edges[es[j]].Touches(v) && edges[es[j]].GetOtherNode(v).value in m
  }

  /** Processing one more listed edge whose other end is in `m2`, a superset of `m1`. */
  lemma EndsInStep(edges: seq<Edge>, v: nat, es: seq<nat>, t: nat, m1: set<nat>, m2: set<nat>)
    requires t < |es| && EndsIn(edges, v, es, t, m1) && m1 <= m2
    requires es[t] < |edges| && edges[es[t]].Touches(v) && edges[es[t]].GetOtherNode(v).value in m2
    ensures EndsIn(edges, v, es, t + 1, m2)
  {}

  /**
   * When `es` lists exactly the edges touching `v` and the other end of each of them is in
   * `m`, every neighbour of `v` is in `m`.
   */
  lemma NeighboursFromIncidence(edges: seq<Edge>, v: nat, es: seq<nat>, m: set<nat>)
    requires forall k :: k in es <==> 0 <= k < |edges| && edges[k].Touches(v)
    requires EndsIn(edges, v, es, |es|, m)
    ensures NeighboursIn(edges, v, m)
  {
    forall k, y | 0 <= k < |edges| && edges[k].Joins(v, y)
      ensures y in m
    {
      JoinsOther(edges[k], v, y);
      var j :| 0 <= j < |es| && es[j] == k;
    }
  }

  /**
   * Where a depth-first exploration at `x` goes next while the nodes `m` are marked: `y` is
   * the other end of the first edge in `x`'s incidence list whose other end is unmarked.
   */
  ghost predicate NextFrom(edges: seq<Edge>, x: nat, m: set<nat>, y: nat) {
    var es := Incident(edges, x);
    exists p :: 0 <= p < |es| && es[p] < |edges| && edges[es[p]].Touches(x)
      && edges[es[p]].GetOtherNode(x).value == y && y !in m
      && forall q :: 0 <= q < p ==>
           es[q] < |edges| && edges[es[q]].Touches(x) && edges[es[q]].GetOtherNode(x).value in m
  }

  /**
   * Node `r[j]` is listed where a depth-first exploration puts it: with `m0` and the nodes
   * before it marked, the latest listed node that still has an unmarked neighbour is `r[i]`,
   * and `r[j]` is where the exploration at `r[i]` goes next.
   */
  ghost predicate DepthFirstAt(edges: seq<Edge>, m0: set<nat>, r: seq<nat>, j: nat)
    requires 0 < j < |r|
  {
    var m := m0 + Elems(r[..j]);
    exists i :: 0 <= i < j && NextFrom(edges, r[i], m, r[j])
      && forall i' :: i < i' < j ==> NeighboursIn(edges, r[i'], m)
  }

  /**
   * `r` is a depth-first order of an exploration that began with the nodes `m0` marked:
   * every node after the first is the next step from the deepest node still open, taking
   * incidence lists in insertion order.
   */
  ghost predicate DepthFirst(edges: seq<Edge>, m0: set<nat>, r: seq<nat>) {
    forall j :: 0 < j < |r| ==> DepthFirstAt(edges, m0, r, j)
  }

  /**
   * Appending the order `sub` of a nested exploration, started at `o`, the other end of the
   * first entry of `v`'s incidence list that was unmarked, keeps the order depth-first.
   */
  lemma DepthFirstExtend(edges: seq<Edge>, m0: set<nat>, m1: set<nat>, r: seq<nat>, v: nat,
                         t: nat, o: nat, sub: seq<nat>)
    requires DepthFirst(edges, m0, r) && Explored(edges, m0, m1, r, v)
    requires t < |Incident(edges, v)| && EndsIn(edges, v, Incident(edges, v), t, m1)
    requires Incident(edges, v)[t] < |edges| && edges[Incident(edges, v)[t]].Touches(v)
    requires edges[Incident(edges, v)[t]].GetOtherNode(v).value == o && o !in m1
    requires |sub| > 0 && sub[0] == o && DepthFirst(edges, m1, sub)
    ensures DepthFirst(edges, m0, r + sub)
  {
    forall j | 0 < j < |r + sub|
      ensures DepthFirstAt(edges, m0, r + sub, j)
    {
      if j < |r| {
        DepthFirstPrefix(edges, m0, r, sub, j);
      } else if j == |r| {
        DepthFirstEnter(edges, m0, m1, r, v, t, o, sub);
      } else {
        DepthFirstNested(edges, m0, m1, r, sub, j);
      }
    }
  }

  /** A position of `r` keeps its justification once more nodes follow. */
  lemma DepthFirstPrefix(edges: seq<Edge>, m0: set<nat>, r: seq<nat>, sub: seq<nat>, j: nat)
    requires 0 < j < |r| && DepthFirstAt(edges, m0, r, j)
    ensures DepthFirstAt(edges, m0, r + sub, j)
  {
    var rs := r + sub;
    assert rs[..j] == r[..j];
    var m := m0 + Elems(r[..j]);
    var i :| 0 <= i < j && NextFrom(edges, r[i], m, r[j])
      && forall i' :: i < i' < j ==> NeighboursIn(edges, r[i'], m);
    assert rs[i] == r[i] && rs[j] == r[j];
    assert forall i' :: i < i' < j ==> rs[i'] == r[i'];
  }

  /** The first node of the nested exploration is the next step from `v`. */
  lemma DepthFirstEnter(edges: seq<Edge>, m0: set<nat>, m1: set<nat>, r: seq<nat>, v: nat,
                        t: nat, o: nat, sub: seq<nat>)
    requires Explored(edges, m0, m1, r, v)
    requires t < |Incident(edges, v)| && EndsIn(edges, v, Incident(edges, v), t, m1)
    requires Incident(edges, v)[t] < |edges| && edges[Incident(edges, v)[t]].Touches(v)
    requires edges[Incident(edges, v)[t]].GetOtherNode(v).value == o && o !in m1
    requires |sub| > 0 && sub[0] == o
    ensures DepthFirstAt(edges, m0, r + sub, |r|)
  {
    var rs := r + sub;
    var j := |r|;
    assert rs[..j] == r;
    assert m0 + Elems(rs[..j]) == m1;
    assert NextFrom(edges, rs[0], m1, rs[j]);
    forall i' | 0 < i' < j
      ensures NeighboursIn(edges, rs[i'], m1)
    {
      assert rs[i'] == r[i'] && r[i'] != r[0];
    }
  }

  /** The marks before a nested position are the outer ones plus the nested prefix. */
  lemma NestedMarks(m0: set<nat>, m1: set<nat>, r: seq<nat>, sub: seq<nat>, j: nat)
    requires m1 == m0 + Elems(r) && |r| <= j <= |r| + |sub|
    ensures m0 + Elems((r + sub)[..j]) == m1 + Elems(sub[..j - |r|])
  {
    var j' := j - |r|;
    assert (r + sub)[..j] == r + sub[..j'];
    assert forall x :: x in r + sub[..j'] <==> x in r || x in sub[..j'];
  }

  /** A later node of the nested exploration keeps the justification it has there. */
  lemma DepthFirstNested(edges: seq<Edge>, m0: set<nat>, m1: set<nat>, r: seq<nat>, sub: seq<nat>, j: nat)
    requires m1 == m0 + Elems(r) && DepthFirst(edges, m1, sub)
    requires |r| < j < |r| + |sub|
    ensures DepthFirstAt(edges, m0, r + sub, j)
  {
    var rs := r + sub;
    var j' := j - |r|;
    NestedMarks(m0, m1, r, sub, j);
    var m := m1 + Elems(sub[..j']);
    assert DepthFirstAt(edges, m1, sub, j');
    var i :| 0 <= i < j' && NextFrom(edges, sub[i], m, sub[j'])
      && forall i' :: i < i' < j' ==> NeighboursIn(edges, sub[i'], m);
    assert rs[|r| + i] == sub[i] && rs[j] == sub[j'];
    forall i' | |r| + i < i' < j
      ensures NeighboursIn(edges, rs[i'], m)
    {
      assert rs[i'] == sub[i' - |r|];
    }
    assert NextFrom(edges, rs[|r| + i], m, rs[j]);
  }

  /**
   * When an exploration's nodes hold every neighbour of theirs and none was marked before,
   * the marks it began with play no part: the order is depth-first from nothing marked.
   */
  lemma DepthFirstAlone(edges: seq<Edge>, m0: set<nat>, r: seq<nat>)
    requires DepthFirst(edges, m0, r)
    requires forall x :: x in r ==> x !in m0 && NeighboursIn(edges, x, Elems(r))
    ensures DepthFirst(edges, {}, r)
  {
    forall j | 0 < j < |r|
      ensures DepthFirstAt(edges, {}, r, j)
    {
      var s := Elems(r[..j]);
      assert {} + s == s;
      assert DepthFirstAt(edges, m0, r, j);
      var i :| 0 <= i < j && NextFrom(edges, r[i], m0 + s, r[j])
        && forall i' :: i < i' < j ==> NeighboursIn(edges, r[i'], m0 + s);
      NextFromAlone(edges, r[i], m0, s, Elems(r), r[j]);
      forall i' | i < i' < j
        ensures NeighboursIn(edges, r[i'], s)
      {
        NeighboursAlone(edges, r[i'], m0, s, Elems(r));
      }
    }
  }

  /** Marks on nodes that are not neighbours of `x` do not change where `x` goes next. */
  lemma NextFromAlone(edges: seq<Edge>, x: nat, m0: set<nat>, s: set<nat>, nodes: set<nat>, y: nat)
    requires NextFrom(edges, x, m0 + s, y) && NeighboursIn(edges, x, nodes) && forall z :: z in nodes ==> z !in m0
    ensures NextFrom(edges, x, s, y)
  {
    var es := Incident(edges, x);
    var p :| 0 <= p < |es| && es[p] < |edges| && edges[es[p]].Touches(x)
      && edges[es[p]].GetOtherNode(x).value == y && y !in m0 + s
      && forall q :: 0 <= q < p ==>
           es[q] < |edges| && edges[es[q]].Touches(x) && edges[es[q]].GetOtherNode(x).value in m0 + s;
    forall q | 0 <= q < p
      ensures edges[es[q]].GetOtherNode(x).value in s
    {
      var z := edges[es[q]].GetOtherNode(x).value;
      assert edges[es[q]].Joins(x, z);
      assert z in nodes;
    }
  }

  /** Marks on nodes that are not neighbours of `x` do not decide whether `x` is finished. */
  lemma NeighboursAlone(edges: seq<Edge>, x: nat, m0: set<nat>, s: set<nat>, nodes: set<nat>)
    requires NeighboursIn(edges, x, m0 + s) && NeighboursIn(edges, x, nodes) && forall z :: z in nodes ==> z !in m0
    ensures NeighboursIn(edges, x, s)
  {
    forall k, y | 0 <= k < |edges| && edges[k].Joins(x, y)
      ensures y in s
    {
      assert y in nodes && y in m0 + s;
    }
  }

  /** The exploration at `x` has only one place to go next. */
  lemma NextFromUnique(edges: seq<Edge>, x: nat, m: set<nat>, y1: nat, y2: nat)
    requires NextFrom(edges, x, m, y1) && NextFrom(edges, x, m, y2)
    ensures y1 == y2
  {
    var es := Incident(edges, x);
    var p1 :| 0 <= p1 < |es| && es[p1] < |edges| && edges[es[p1]].Touches(x)
      && edges[es[p1]].GetOtherNode(x).value == y1 && y1 !in m
      && forall q :: 0 <= q < p1 ==>
           es[q] < |edges| && edges[es[q]].Touches(x) && edges[es[q]].GetOtherNode(x).value in m;
    var p2 :| 0 <= p2 < |es| && es[p2] < |edges| && edges[es[p2]].Touches(x)
      && edges[es[p2]].GetOtherNode(x).value == y2 && y2 !in m
      && forall q :: 0 <= q < p2 ==>
           es[q] < |edges| && edges[es[q]].Touches(x) && edges[es[q]].GetOtherNode(x).value in m;
    assert p1 == p2;
  }

  /** A node the exploration can go on from still has an unmarked neighbour. */
  lemma NextFromOpen(edges: seq<Edge>, x: nat, m: set<nat>, y: nat)
    requires NextFrom(edges, x, m, y)
    ensures !NeighboursIn(edges, x, m)
  {
    var es := Incident(edges, x);
    var p :| 0 <= p < |es| && es[p] < |edges| && edges[es[p]].Touches(x)
      && edges[es[p]].GetOtherNode(x).value == y && y !in m;
    assert edges[es[p]].Joins(x, y);
  }

  /**
   * Over the listed nodes `p`, only one can be the latest with an unmarked neighbour, so
   * the next node is determined.
   */
  lemma NextStepUnique(edges: seq<Edge>, m: set<nat>, p: seq<nat>, i1: nat, i2: nat, y1: nat, y2: nat)
    requires i1 < |p| && NextFrom(edges, p[i1], m, y1)
    requires forall i' :: i1 < i' < |p| ==> NeighboursIn(edges, p[i'], m)
    requires i2 < |p| && NextFrom(edges, p[i2], m, y2)
    requires forall i' :: i2 < i' < |p| ==> NeighboursIn(edges, p[i'], m)
    ensures y1 == y2
  {
    NextFromOpen(edges, p[i1], m, y1);
    NextFromOpen(edges, p[i2], m, y2);
    assert i1 == i2;
    NextFromUnique(edges, p[i1], m, y1, y2);
  }

  /** Two depth-first orders that agree before position `j` agree at it. */
  lemma DepthFirstStep(edges: seq<Edge>, m0: set<nat>, r1: seq<nat>, r2: seq<nat>, j: nat)
    requires 0 < j < |r1| && j < |r2| && r1[..j] == r2[..j]
    requires DepthFirstAt(edges, m0, r1, j) && DepthFirstAt(edges, m0, r2, j)
    ensures r1[j] == r2[j]
  {
    var p := r1[..j];
    var m := m0 + Elems(p);
    var i1 :| 0 <= i1 < j && NextFrom(edges, r1[i1], m, r1[j])
      && forall i' :: i1 < i' < j ==> NeighboursIn(edges, r1[i'], m);
    var i2 :| 0 <= i2 < j && NextFrom(edges, r2[i2], m, r2[j])
      && forall i' :: i2 < i' < j ==> NeighboursIn(edges, r2[i'], m);
    assert p[i1] == r1[i1] && p[i2] == r2[i2];
    assert forall i' :: i1 < i' < j ==> NeighboursIn(edges, p[i'], m) by {
      forall i' | i1 < i' < j
        ensures NeighboursIn(edges, p[i'], m)
      {
        assert p[i'] == r1[i'];
      }
    }
    assert forall i' :: i2 < i' < j ==> NeighboursIn(edges, p[i'], m) by {
      forall i' | i2 < i' < j
        ensures NeighboursIn(edges, p[i'], m)
      {
        assert p[i'] == r2[..j][i'] == r2[i'];
      }
    }
    NextStepUnique(edges, m, p, i1, i2, r1[j], r2[j]);
  }

  /** Depth-first orders from the same start and the same marks agree as far as both go. */
  lemma {:induction false} DepthFirstPrefixes(edges: seq<Edge>, m0: set<nat>, r1: seq<nat>, r2: seq<nat>, n: nat)
    requires 0 < |r1| && 0 < |r2| && r1[0] == r2[0]
    requires DepthFirst(edges, m0, r1) && DepthFirst(edges, m0, r2)
    requires n <= |r1| && n <= |r2|
    ensures r1[..n] == r2[..n]
  {
    if n > 1 {
      DepthFirstPrefixes(edges, m0, r1, r2, n - 1);
      DepthFirstStep(edges, m0, r1, r2, n - 1);
      assert r1[..n] == r1[..n - 1] + [r1[n - 1]];
      assert r2[..n] == r2[..n - 1] + [r2[n - 1]];
    } else if n == 1 {
      assert r1[..1] == [r1[0]] && r2[..1] == [r2[0]];
    }
  }

  /**
   * A depth-first traversal is determined by its start: two traversals from `s` in
   * depth-first order from nothing marked are the same sequence.
   */
  lemma DepthFirstUnique(edges: seq<Edge>, s: nat, r1: seq<nat>, r2: seq<nat>)
    requires IsTraversal(edges, s, r1) && DepthFirst(edges, {}, r1)
    requires IsTraversal(edges, s, r2) && DepthFirst(edges, {}, r2)
    ensures r1 == r2
  {
    assert Elems(r1) == Elems(r2);
    DistinctCard(r1);
    DistinctCard(r2);
    DepthFirstPrefixes(edges, {}, r1, r2, |r1|);
    assert r1[..|r1|] == r1 && r2[..|r2|] == r2;
  }

  /** Node `r[j]` is adjacent to a node listed before it at a position no later than `bound`. */
  ghost predicate AdjacentBefore(edges: seq<Edge>, r: seq<nat>, j: nat, bound: nat)
    requires j < |r|
  {
    exists i :: 0 <= i < j && i <= bound && Adjacent(edges, r[i], r[j])
  }

  /**
   * The breadth-first property of a discovery order: listing node `r[j2]` after node `r[j1]`
   * means the earliest listed neighbour of `r[j1]` comes no later than that of `r[j2]`, so
   * nodes are listed by the position of the node they were discovered from.
   */
  ghost predicate BreadthFirst(edges: seq<Edge>, r: seq<nat>) {
    forall j1, j2, i2 :: 0 < j1 < j2 < |r| && 0 <= i2 < j2 && Adjacent(edges, r[i2], r[j2]) ==>
      AdjacentBefore(edges, r, j1, i2)
  }

  /**
   * The position in `es` of the first listed edge that touches `x` and leads to `y`, or
   * `|es|` when there is none: where a scan of `x`'s incidence list first meets `y`.
   */
  ghost function FirstEnd(edges: seq<Edge>, es: seq<nat>, x: nat, y: nat): (t: nat)
    ensures t <= |es|
    decreases |es|
  {
    if es == [] then 0
    else if es[0] < |edges| && edges[es[0]].Touches(x) && edges[es[0]].GetOtherNode(x).value == y then 0
    else 1 + FirstEnd(edges, es[1..], x, y)
  }

  /** The scan of `es` first meets `y` at entry `t` when entry `t` leads to `y` and no earlier one does. */
  lemma {:induction false} FirstEndAt(edges: seq<Edge>, es: seq<nat>, x: nat, y: nat, t: nat)
    requires t < |es| && es[t] < |edges| && edges[es[t]].Touches(x) && edges[es[t]].GetOtherNode(x).value == y
    requires forall q :: 0 <= q < t ==>
      es[q] < |edges| && edges[es[q]].Touches(x) && edges[es[q]].GetOtherNode(x).value != y
    ensures FirstEnd(edges, es, x, y) == t
    decreases t
  {
    if t > 0 {
      FirstEndAt(edges, es[1..], x, y, t - 1);
    }
  }

  /** `r[i]` is the earliest listed neighbour of `r[j]`, the node `r[j]` was discovered from. */
  ghost predicate EarliestNeighbour(edges: seq<Edge>, r: seq<nat>, j: nat, i: nat) {
    i < j < |r| && Adjacent(edges, r[i], r[j]) && forall i' :: 0 <= i' < i ==> !Adjacent(edges, r[i'], r[j])
  }

  /**
   * Nodes discovered from the same node are listed in the order in which that node's
   * incidence list first leads to them.
   */
  ghost predicate SiblingsInOrder(edges: seq<Edge>, r: seq<nat>) {
    forall j1, j2, i: nat :: 0 < j1 < j2 < |r| && EarliestNeighbour(edges, r, j1, i) && EarliestNeighbour(edges, r, j2, i) ==>
      FirstEnd(edges, Incident(edges, r[i]), r[i], r[j1]) < FirstEnd(edges, Incident(edges, r[i]), r[i], r[j2])
  }

  /**
   * In the bookkeeping of a breadth-first search, nodes with the same parent come in the
   * order in which the parent's incidence list first leads to them.
   */
  ghost predicate SiblingsOrdered(edges: seq<Edge>, order: seq<nat>, parent: seq<nat>) {
    forall p1, p2 :: 0 < p1 < p2 < |order| && p2 < |parent| && parent[p1] == parent[p2] && parent[p1] < p1 ==>
      FirstEnd(edges, Incident(edges, order[parent[p1]]), order[parent[p1]], order[p1])
        < FirstEnd(edges, Incident(edges, order[parent[p1]]), order[parent[p1]], order[p2])
  }

  /**
   * Enqueueing `o` with parent position `q` keeps siblings in order when every node already
   * enqueued from `q` is met earlier in `q`'s incidence list than `o`.
   */
  lemma SiblingsPush(edges: seq<Edge>, order: seq<nat>, parent: seq<nat>, q: nat, o: nat)
    requires |parent| == |order| && q < |order| && SiblingsOrdered(edges, order, parent)
    requires forall p :: 0 < p < |order| && parent[p] == q ==>
      FirstEnd(edges, Incident(edges, order[q]), order[q], order[p]) < FirstEnd(edges, Incident(edges, order[q]), order[q], o)
    ensures SiblingsOrdered(edges, order + [o], parent + [q])
  {
    var order', parent' := order + [o], parent + [q];
    forall p1, p2 | 0 < p1 < p2 < |order'| && p2 < |parent'| && parent'[p1] == parent'[p2] && parent'[p1] < p1
      ensures FirstEnd(edges, Incident(edges, order'[parent'[p1]]), order'[parent'[p1]], order'[p1])
        < FirstEnd(edges, Incident(edges, order'[parent'[p1]]), order'[parent'[p1]], order'[p2])
    {
      assert order'[p1] == order[p1] && parent'[p1] == parent[p1];
      if p2 < |order| {
        assert order'[p2] == order[p2] && parent'[p2] == parent[p2];
      } else {
        assert parent[p1] == q && order'[p2] == o && order'[q] == order[q];
      }
    }
  }

  /**
   * The bookkeeping of a breadth-first search over `order` (the nodes dequeued so far
   * followed by the queue), of which the first `n` have been dequeued: `parent[p]` is the
   * position of the earliest listed neighbour of `order[p]`, always among the dequeued ones,
   * and parents never decrease along the order.
   */
  ghost predicate Layered(edges: seq<Edge>, order: seq<nat>, parent: seq<nat>, n: nat) {
    && |parent| == |order|
    && (forall p :: 0 < p < |order| ==>
          && parent[p] < n && parent[p] < p
          && Adjacent(edges, order[parent[p]], order[p])
          && forall i :: 0 <= i < parent[p] ==> !Adjacent(edges, order[i], order[p]))
    && forall p1, p2 :: 0 < p1 < p2 < |order| ==> parent[p1] <= parent[p2]
  }

  /**
   * `seen` holds exactly the nodes of `order`, which has no repetitions, and every
   * neighbour of each of its first `m` nodes has been seen.
   */
  ghost predicate Frontier(edges: seq<Edge>, order: seq<nat>, m: nat, seen: set<nat>) {
    && seen == Elems(order) && Distinct(order) && m <= |order|
    && forall i :: 0 <= i < m ==> NeighboursIn(edges, order[i], seen)
  }

  /**
   * Enqueueing an unseen neighbour `o` of the node being processed, `order[n - 1]`, keeps the
   * bookkeeping, with that node as its parent.
   */
  lemma LayeredPush(edges: seq<Edge>, order: seq<nat>, parent: seq<nat>, n: nat, seen: set<nat>, k: nat, o: nat)
    requires 0 < n <= |order| && Layered(edges, order, parent, n) && Frontier(edges, order, n - 1, seen)
    requires k < |edges| && edges[k].Joins(order[n - 1], o) && o !in seen
    ensures Layered(edges, order + [o], parent + [n - 1], n)
    ensures Frontier(edges, order + [o], n - 1, seen + {o})
  {
    var order', parent' := order + [o], parent + [n - 1];
    var p := |order|;
    assert Adjacent(edges, order'[n - 1], order'[p]);
    forall i | 0 <= i < n - 1
      ensures !Adjacent(edges, order'[i], order'[p])
    {
      assert order'[i] == order[i] && NeighboursIn(edges, order[i], seen);
    }
    forall i | 0 <= i < n - 1
      ensures NeighboursIn(edges, order'[i], seen + {o})
    {
      NeighboursMono(edges, order[i], seen, seen + {o});
    }
    assert Elems(order') == Elems(order) + {o};
  }

  /** Dequeueing one more node keeps the bookkeeping. */
  lemma LayeredPop(edges: seq<Edge>, order: seq<nat>, parent: seq<nat>, n: nat)
    requires Layered(edges, order, parent, n)
    ensures Layered(edges, order, parent, n + 1)
  {}

  /** Once every neighbour of the next node has been seen, that node counts as processed. */
  lemma FrontierStep(edges: seq<Edge>, order: seq<nat>, m: nat, seen: set<nat>)
    requires Frontier(edges, order, m, seen) && m < |order| && NeighboursIn(edges, order[m], seen)
    ensures Frontier(edges, order, m + 1, seen)
  {}

  /**
   * Enqueueing `o`, the other end of entry `t` of the incidence list of `c` (the last of
   * `done`), when `o` is unseen: `o` is first met at entry `t`, after every node enqueued
   * from `c` so far, so siblings stay in order.
   */
  lemma SiblingsEnqueue(edges: seq<Edge>, c: nat, es: seq<nat>, done: seq<nat>, queue: seq<nat>,
                        parent: seq<nat>, seen: set<nat>, t: nat, o: nat)
    requires |done| > 0 && done[|done| - 1] == c && es == Incident(edges, c)
    requires |parent| == |done + queue| && SiblingsOrdered(edges, done + queue, parent)
    requires t < |es| && es[t] < |edges| && edges[es[t]].Touches(c) && edges[es[t]].GetOtherNode(c).value == o
    requires EndsIn(edges, c, es, t, seen) && o !in seen
    requires forall p :: 0 < p < |done + queue| && parent[p] == |done| - 1 ==>
      FirstEnd(edges, es, c, (done + queue)[p]) < t
    ensures SiblingsOrdered(edges, done + (queue + [o]), parent + [|done| - 1])
    ensures forall p :: 0 < p < |done + (queue + [o])| && (parent + [|done| - 1])[p] == |done| - 1 ==>
      FirstEnd(edges, es, c, (done + (queue + [o]))[p]) < t + 1
  {
    FirstEndAt(edges, es, c, o, t);
    var order := done + queue;
    assert order[|done| - 1] == c;
    SiblingsPush(edges, order, parent, |done| - 1, o);
    assert order + [o] == done + (queue + [o]);
  }

  /**
   * The state of the scan of `c`'s incidence list `es` after `t` entries: the bookkeeping
   * over the dequeued nodes `done` (ending with `c`) and the queue holds, siblings are in
   * order, the nodes enqueued from `c` so far were first met before entry `t`, and the
   * other ends of the scanned entries are all seen.
   */
  ghost predicate Enqueueing(edges: seq<Edge>, keys: set<nat>, c: nat, es: seq<nat>, done: seq<nat>,
                             queue: seq<nat>, parent: seq<nat>, seen: set<nat>, t: nat) {
    && |done| > 0 && t <= |es| && seen <= keys
    && Layered(edges, done + queue, parent, |done|)
    && Frontier(edges, done + queue, |done| - 1, seen)
    && SiblingsOrdered(edges, done + queue, parent)
    && (forall p :: 0 < p < |done + queue| && parent[p] == |done| - 1 ==> FirstEnd(edges, es, c, (done + queue)[p]) < t)
    && EndsIn(edges, c, es, t, seen)
  }

  /** Entry `t` leads to `o`, already seen: the scan moves on without enqueueing. */
  lemma EnqueueSkip(edges: seq<Edge>, keys: set<nat>, c: nat, es: seq<nat>, done: seq<nat>,
                    queue: seq<nat>, parent: seq<nat>, seen: set<nat>, t: nat, o: nat)
    requires Enqueueing(edges, keys, c, es, done, queue, parent, seen, t)
    requires t < |es| && es[t] < |edges| && edges[es[t]].Touches(c) && edges[es[t]].GetOtherNode(c).value == o
    requires o in seen
    ensures Enqueueing(edges, keys, c, es, done, queue, parent, seen, t + 1)
  {
    EndsInStep(edges, c, es, t, seen, seen);
  }

  /** Entry `t` leads to `o`, not seen yet: enqueueing it, with `c` as its parent, keeps the state. */
  lemma EnqueuePush(edges: seq<Edge>, keys: set<nat>, c: nat, es: seq<nat>, done: seq<nat>,
                    queue: seq<nat>, parent: seq<nat>, seen: set<nat>, t: nat, o: nat)
    requires |done| > 0 && done[|done| - 1] == c && es == Incident(edges, c)
    requires Enqueueing(edges, keys, c, es, done, queue, parent, seen, t)
    requires t < |es| && es[t] < |edges| && edges[es[t]].Touches(c) && edges[es[t]].GetOtherNode(c).value == o
    requires o !in seen && o in keys
    ensures Enqueueing(edges, keys, c, es, done, queue + [o], parent + [|done| - 1], seen + {o}, t + 1)
  {
    var order := done + queue;
    assert order[|done| - 1] == c;
    assert edges[es[t]].Joins(c, o);
    LayeredPush(edges, order, parent, |done|, seen, es[t], o);
    SiblingsEnqueue(edges, c, es, done, queue, parent, seen, t, o);
    assert order + [o] == done + (queue + [o]);
    EndsInStep(edges, c, es, t, seen, seen + {o});
  }

  /**
   * The state of a breadth-first search from `s` between two dequeues, over plain values:
   * `order` is the dequeued nodes (`result`, which are exactly the `marked` ones) followed by
   * the queue, `seen` (the enqueued values) are all among `keys`, and the bookkeeping holds.
   */
  ghost predicate BfsState(edges: seq<Edge>, keys: set<nat>, marked: set<nat>, s: nat,
                           result: seq<nat>, queue: seq<nat>, seen: set<nat>, order: seq<nat>, parent: seq<nat>) {
    && order == result + queue && |order| > 0 && order[0] == s
    && seen <= keys
    && marked == Elems(result)
    && Layered(edges, order, parent, |result|)
    && Frontier(edges, order, |result|, seen)
    && SiblingsOrdered(edges, order, parent)
  }

  /** The front of the queue is not marked yet. */
  lemma BfsFront(edges: seq<Edge>, keys: set<nat>, marked: set<nat>, s: nat,
                 result: seq<nat>, queue: seq<nat>, seen: set<nat>, order: seq<nat>, parent: seq<nat>)
    requires queue != [] && BfsState(edges, keys, marked, s, result, queue, seen, order, parent)
    ensures queue[0] in keys && queue[0] !in marked
    ensures order == result + [queue[0]] + queue[1..]
    ensures Layered(edges, order, parent, |result| + 1)
    ensures forall p :: 0 < p < |order| ==> parent[p] < |result|
  {
    var c := queue[0];
    assert order[|result|] == c;
    forall i | 0 <= i < |result|
      ensures result[i] != c
    {
      assert order[i] == result[i];
    }
    assert result + [c] + queue[1..] == order;
  }

  /**
   * Finishing the round that dequeued `c`: once its unseen neighbours are enqueued, `c`
   * counts as processed and marked.
   */
  lemma BfsAdvance(edges: seq<Edge>, keys: set<nat>, marked: set<nat>, s: nat,
                   result: seq<nat>, c: nat, queue': seq<nat>, seen': set<nat>, order: seq<nat>, parent': seq<nat>)
    requires (|result| > 0 && result[0] == s) || (result == [] && c == s)
    requires seen' <= keys && marked == Elems(result) + {c}
    requires order == result + [c] + queue'
    requires Layered(edges, order, parent', |result| + 1)
    requires Frontier(edges, order, |result|, seen')
    requires SiblingsOrdered(edges, order, parent')
    requires NeighboursIn(edges, c, seen')
    ensures BfsState(edges, keys, marked, s, result + [c], queue', seen', order, parent')
  {
    ElemsSnoc(result, c);
    assert result + [c] + queue' == (result + [c]) + queue';
    assert order[|result|] == c;
  }

  /** The finished bookkeeping of a breadth-first search yields a breadth-first discovery order. */
  lemma LayeredOrder(edges: seq<Edge>, r: seq<nat>, parent: seq<nat>)
    requires Layered(edges, r, parent, |r|)
    ensures Discovered(edges, r) && BreadthFirst(edges, r)
  {
    forall j | 0 < j < |r|
      ensures DiscoveredAt(edges, r, j)
    {
      assert Adjacent(edges, r[parent[j]], r[j]);
    }
    forall j1, j2, i2 | 0 < j1 < j2 < |r| && 0 <= i2 < j2 && Adjacent(edges, r[i2], r[j2])
      ensures AdjacentBefore(edges, r, j1, i2)
    {
      assert parent[j2] <= i2;
      assert Adjacent(edges, r[parent[j1]], r[j1]);
    }
  }

  /** The finished bookkeeping of a breadth-first search keeps siblings in incidence order. */
  lemma SiblingsFromBookkeeping(edges: seq<Edge>, r: seq<nat>, parent: seq<nat>)
    requires Layered(edges, r, parent, |r|) && SiblingsOrdered(edges, r, parent)
    ensures SiblingsInOrder(edges, r)
  {
    forall j1, j2, i: nat | 0 < j1 < j2 < |r| && EarliestNeighbour(edges, r, j1, i) && EarliestNeighbour(edges, r, j2, i)
      ensures FirstEnd(edges, Incident(edges, r[i]), r[i], r[j1]) < FirstEnd(edges, Incident(edges, r[i]), r[i], r[j2])
    {
      assert Adjacent(edges, r[parent[j1]], r[j1]) && Adjacent(edges, r[parent[j2]], r[j2]);
      assert parent[j1] == i && parent[j2] == i;
    }
  }

  /** A node adjacent to an earlier listed node has an earliest listed neighbour. */
  lemma {:induction false} EarliestExists(edges: seq<Edge>, r: seq<nat>, j: nat, i0: nat)
    requires i0 < j < |r| && Adjacent(edges, r[i0], r[j])
    ensures exists i :: EarliestNeighbour(edges, r, j, i)
    decreases i0
  {
    if exists i' :: 0 <= i' < i0 && Adjacent(edges, r[i'], r[j]) {
      var i' :| 0 <= i' < i0 && Adjacent(edges, r[i'], r[j]);
      EarliestExists(edges, r, j, i');
    } else {
      assert EarliestNeighbour(edges, r, j, i0);
    }
  }

  /**
   * When `r1` and `r2` agree before position `j`, the node `r2[j]`, listed later in `r1` at
   * `j1`, has the same earliest listed neighbour in `r1` as in `r2`.
   */
  lemma EarliestTransfer(edges: seq<Edge>, r1: seq<nat>, r2: seq<nat>, j: nat, j1: nat, p: nat)
    requires j <= |r1| && j <= |r2| && r1[..j] == r2[..j]
    requires EarliestNeighbour(edges, r2, j, p) && j < j1 < |r1| && r1[j1] == r2[j]
    ensures EarliestNeighbour(edges, r1, j1, p)
  {
    assert r1[p] == r1[..j][p] == r2[..j][p] == r2[p];
    forall i' | 0 <= i' < p
      ensures !Adjacent(edges, r1[i'], r1[j1])
    {
      assert r1[i'] == r1[..j][i'] == r2[..j][i'] == r2[i'];
    }
  }

  /** A node of `r2` missing from the common prefix is listed in `r1` after that prefix. */
  lemma LaterIn(r1: seq<nat>, r2: seq<nat>, j: nat) returns (j1: nat)
    requires j < |r1| && j < |r2| && r1[..j] == r2[..j] && Elems(r1) == Elems(r2) && Distinct(r2)
    ensures j <= j1 < |r1| && r1[j1] == r2[j]
  {
    assert r2[j] in Elems(r1);
    j1 :| 0 <= j1 < |r1| && r1[j1] == r2[j];
  }

  /**
   * Where two breadth-first orders over the same nodes first differ, at `j`, both nodes
   * listed there were discovered from the same node, and each is listed later in the
   * other order with that same earliest neighbour.
   */
  lemma ParentsMeet(edges: seq<Edge>, r1: seq<nat>, r2: seq<nat>, j: nat, px: nat, py: nat)
      returns (j1: nat, j2: nat)
    requires 0 < j < |r1| && j < |r2| && r1[..j] == r2[..j] && Elems(r1) == Elems(r2) && r1[j] != r2[j]
    requires Distinct(r1) && BreadthFirst(edges, r1) && EarliestNeighbour(edges, r1, j, px)
    requires Distinct(r2) && BreadthFirst(edges, r2) && EarliestNeighbour(edges, r2, j, py)
    ensures px == py && j < j1 < |r1| && r1[j1] == r2[j] && EarliestNeighbour(edges, r1, j1, py)
    ensures j < j2 < |r2| && r2[j2] == r1[j] && EarliestNeighbour(edges, r2, j2, px)
    ensures r1[px] == r2[px]
  {
    assert r1[px] == r1[..j][px] == r2[..j][px] == r2[px];
    j1 := LaterIn(r1, r2, j);
    j2 := LaterIn(r2, r1, j);
    EarliestTransfer(edges, r1, r2, j, j1, py);
    EarliestTransfer(edges, r2, r1, j, j2, px);
    assert AdjacentBefore(edges, r1, j, py);
    assert AdjacentBefore(edges, r2, j, px);
  }

  /** Two nodes discovered from `r[i]` are listed in the order `r[i]`'s incidence list meets them. */
  lemma SiblingAt(edges: seq<Edge>, r: seq<nat>, j1: nat, j2: nat, i: nat)
    requires SiblingsInOrder(edges, r) && 0 < j1 < j2 < |r|
    requires EarliestNeighbour(edges, r, j1, i) && EarliestNeighbour(edges, r, j2, i)
    ensures FirstEnd(edges, Incident(edges, r[i]), r[i], r[j1]) < FirstEnd(edges, Incident(edges, r[i]), r[i], r[j2])
  {}

  /**
   * Two breadth-first orders with siblings in incidence order, over the same nodes and
   * agreeing before position `j`, agree at it.
   */
  lemma BreadthFirstStep(edges: seq<Edge>, r1: seq<nat>, r2: seq<nat>, j: nat)
    requires 0 < j < |r1| && j < |r2| && r1[..j] == r2[..j] && Elems(r1) == Elems(r2)
    requires Distinct(r1) && Discovered(edges, r1) && BreadthFirst(edges, r1) && SiblingsInOrder(edges, r1)
    requires Distinct(r2) && Discovered(edges, r2) && BreadthFirst(edges, r2) && SiblingsInOrder(edges, r2)
    ensures r1[j] == r2[j]
  {
    if r1[j] != r2[j] {
      assert DiscoveredAt(edges, r1, j) && DiscoveredAt(edges, r2, j);
      var a1 :| 0 <= a1 < j && Adjacent(edges, r1[a1], r1[j]);
      var a2 :| 0 <= a2 < j && Adjacent(edges, r2[a2], r2[j]);
      EarliestExists(edges, r1, j, a1);
      EarliestExists(edges, r2, j, a2);
      var px: nat :| EarliestNeighbour(edges, r1, j, px);
      var py: nat :| EarliestNeighbour(edges, r2, j, py);
      var j1, j2 := ParentsMeet(edges, r1, r2, j, px, py);
      SiblingAt(edges, r1, j, j1, px);
      SiblingAt(edges, r2, j, j2, px);
      assert false;
    }
  }

  /** Breadth-first orders from the same start agree as far as both go. */
  lemma {:induction false} BreadthFirstPrefixes(edges: seq<Edge>, r1: seq<nat>, r2: seq<nat>, n: nat)
    requires 0 < |r1| && 0 < |r2| && r1[0] == r2[0] && Elems(r1) == Elems(r2)
    requires Distinct(r1) && Discovered(edges, r1) && BreadthFirst(edges, r1) && SiblingsInOrder(edges, r1)
    requires Distinct(r2) && Discovered(edges, r2) && BreadthFirst(edges, r2) && SiblingsInOrder(edges, r2)
    requires n <= |r1| && n <= |r2|
    ensures r1[..n] == r2[..n]
  {
    if n > 1 {
      BreadthFirstPrefixes(edges, r1, r2, n - 1);
      BreadthFirstStep(edges, r1, r2, n - 1);
      assert r1[..n] == r1[..n - 1] + [r1[n - 1]];
      assert r2[..n] == r2[..n - 1] + [r2[n - 1]];
    } else if n == 1 {
      assert r1[..1] == [r1[0]] && r2[..1] == [r2[0]];
    }
  }

  /**
   * A breadth-first traversal whose siblings follow the incidence lists is determined by
   * its start: two of them from `s` are the same sequence.
   */
  lemma BreadthFirstUnique(edges: seq<Edge>, s: nat, r1: seq<nat>, r2: seq<nat>)
    requires IsTraversal(edges, s, r1) && BreadthFirst(edges, r1) && SiblingsInOrder(edges, r1)
    requires IsTraversal(edges, s, r2) && BreadthFirst(edges, r2) && SiblingsInOrder(edges, r2)
    ensures r1 == r2
  {
    assert Elems(r1) == Elems(r2);
    DistinctCard(r1);
    DistinctCard(r2);
    BreadthFirstPrefixes(edges, r1, r2, |r1|);
    assert r1[..|r1|] == r1 && r2[..|r2|] == r2;
  }
}
