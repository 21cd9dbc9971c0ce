/**
 * Undirected walks over a graph's edge list, reachability, closed node sets and incidence
 * lists. Every algorithm of the graph crosses an edge in either direction, so these notions
 * ignore the `from`/`to` labels.
 */
module Walks {
  import opened Edges

  /** A walk: the nodes it passes, and for each step the index of the edge it crosses. */
  datatype Walk = Walk(nodes: seq<nat>, via: seq<nat>)

  /** Each step `i` crosses edge `via[i]`, which joins `nodes[i]` and `nodes[i + 1]`. */
  ghost predicate IsWalk(edges: seq<Edge>, w: Walk) {
    && |w.nodes| == |w.via| + 1
    && forall i :: 0 <= i < |w.via| ==>
         w.via[i] < |edges| && edges[w.via[i]].Joins(w.nodes[i], w.nodes[i + 1])
  }

  /** `w` is a walk from `s` to `t`. */
  ghost predicate WalkBetween(edges: seq<Edge>, w: Walk, s: nat, t: nat) {
    IsWalk(edges, w) && w.nodes[0] == s && w.nodes[|w.nodes| - 1] == t
  }

  /** `t` can be reached from `s` by crossing edges in either direction. */
  ghost predicate Reachable(edges: seq<Edge>, s: nat, t: nat) {
    exists w :: WalkBetween(edges, w, s, t)
  }

  /** No edge leaves `nodes`: an edge has both endpoints in it or neither. */
  ghost predicate Closed(edges: seq<Edge>, nodes: set<nat>) {
    forall k :: 0 <= k < |edges| ==> (edges[k].from in nodes <==> edges[k].to in nodes)
  }

  /** Every node adjacent to `x` is in `nodes`. */
  ghost predicate NeighboursIn(edges: seq<Edge>, x: nat, nodes: set<nat>) {
    forall k, y :: 0 <= k < |edges| && edges[k].Joins(x, y) ==> y in nodes
  }

  /** `s` with `t` appended. */
  function Snoc<T>(s: seq<T>, t: T): seq<T> {
    s + [t]
  }

  /** `s` in reverse order. */
  function Rev<T>(s: seq<T>): (r: seq<T>)
    ensures |r| == |s|
    ensures forall i :: 0 <= i < |s| ==> r[i] == s[|s| - 1 - i]
  {
    if s == [] then [] else Rev(s[1..]) + [s[0]]
  }

  /** Reversing `s` with `x` appended puts `x` first. */
  lemma RevSnoc<T>(s: seq<T>, x: T)
    ensures Rev(s + [x]) == [x] + Rev(s)
  {
    var r, r' := Rev(s + [x]), [x] + Rev(s);
    assert |r| == |r'|;
    forall i | 0 <= i < |r|
      ensures r[i] == r'[i]
    {
      if i > 0 {
        assert r'[i] == Rev(s)[i - 1] == s[|s| - i];
      }
    }
  }

  /** Walks `w` and then `w'`, which starts where `w` ends. */
  function Concat(w: Walk, w': Walk): Walk
    requires |w'.nodes| > 0
  {
    Walk(w.nodes + w'.nodes[1..], w.via + w'.via)
  }

  /** `w` backwards. */
  function Backwards(w: Walk): Walk {
    Walk(Rev(w.nodes), Rev(w.via))
  }

  /** Any node is reachable from itself by the walk that stays put. */
  lemma StayPut(edges: seq<Edge>, s: nat)
    ensures WalkBetween(edges, Walk([s], []), s, s)
    ensures Reachable(edges, s, s)
  {
    assert WalkBetween(edges, Walk([s], []), s, s);
  }

  /** A walk can be extended by one more edge at its end. */
  lemma ExtendWalk(edges: seq<Edge>, w: Walk, k: nat, t: nat)
    requires IsWalk(edges, w)
    requires k < |edges| && edges[k].Joins(w.nodes[|w.nodes| - 1], t)
    ensures WalkBetween(edges, Walk(Snoc(w.nodes, t), Snoc(w.via, k)), w.nodes[0], t)
  {
    var w' := Walk(Snoc(w.nodes, t), Snoc(w.via, k));
    forall i | 0 <= i < |w'.via|
      ensures w'.via[i] < |edges| && edges[w'.via[i]].Joins(w'.nodes[i], w'.nodes[i + 1])
    {
      if i < |w.via| {
        assert w'.via[i] == w.via[i] && w'.nodes[i] == w.nodes[i] && w'.nodes[i + 1] == w.nodes[i + 1];
      }
    }
  }

  /** Joining two walks that meet gives a walk. */
  lemma ConcatWalk(edges: seq<Edge>, w: Walk, w': Walk)
    requires IsWalk(edges, w) && IsWalk(edges, w')
    requires w.nodes[|w.nodes| - 1] == w'.nodes[0]
    ensures WalkBetween(edges, Concat(w, w'), w.nodes[0], w'.nodes[|w'.nodes| - 1])
  {
    var c := Concat(w, w');
    var n := |w.via|;
    forall i | 0 <= i < |c.via|
      ensures c.via[i] < |edges| && edges[c.via[i]].Joins(c.nodes[i], c.nodes[i + 1])
    {
      if i < n {
        assert c.via[i] == w.via[i] && c.nodes[i] == w.nodes[i];
        assert c.nodes[i + 1] == w.nodes[i + 1] || (i + 1 == n + 1);
      } else {
        assert c.via[i] == w'.via[i - n];
        assert c.nodes[i] == w'.nodes[i - n] && c.nodes[i + 1] == w'.nodes[i - n + 1];
      }
    }
  }

  /** A walk read backwards is a walk, since edges are crossed in either direction. */
  lemma BackwardsWalk(edges: seq<Edge>, w: Walk)
    requires IsWalk(edges, w)
    ensures WalkBetween(edges, Backwards(w), w.nodes[|w.nodes| - 1], w.nodes[0])
  {
    var b := Backwards(w);
    var n := |w.via|;
    forall i | 0 <= i < n
      ensures b.via[i] < |edges| && edges[b.via[i]].Joins(b.nodes[i], b.nodes[i + 1])
    {
      var j := n - 1 - i;
      assert b.via[i] == w.via[j];
      assert b.nodes[i] == w.nodes[j + 1] && b.nodes[i + 1] == w.nodes[j];
    }
  }

  /** Reachability is symmetric. */
  lemma ReachableSymmetric(edges: seq<Edge>, s: nat, t: nat)
    requires Reachable(edges, s, t)
    ensures Reachable(edges, t, s)
  {
    var w :| WalkBetween(edges, w, s, t);
    BackwardsWalk(edges, w);
  }

  /** Reachability is transitive. */
  lemma ReachableTransitive(edges: seq<Edge>, s: nat, m: nat, t: nat)
    requires Reachable(edges, s, m) && Reachable(edges, m, t)
    ensures Reachable(edges, s, t)
  {
    var w :| WalkBetween(edges, w, s, m);
    var w' :| WalkBetween(edges, w', m, t);
    ConcatWalk(edges, w, w');
  }

  /** One edge away from a reachable node is reachable. */
  lemma ReachableStep(edges: seq<Edge>, s: nat, m: nat, k: nat, t: nat)
    requires Reachable(edges, s, m)
    requires k < |edges| && edges[k].Joins(m, t)
    ensures Reachable(edges, s, t)
  {
    var w :| WalkBetween(edges, w, s, m);
    ExtendWalk(edges, w, k, t);
  }

  /** A walk that starts inside a closed set never leaves it. */
  lemma {:induction false} ClosedWalk(edges: seq<Edge>, nodes: set<nat>, w: Walk)
    requires Closed(edges, nodes) && IsWalk(edges, w) && w.nodes[0] in nodes
    ensures forall i :: 0 <= i < |w.nodes| ==> w.nodes[i] in nodes
    decreases |w.via|
  {
    if |w.via| > 0 {
      var n := |w.via|;
      var w' := Walk(w.nodes[..n], w.via[..n - 1]);
      assert IsWalk(edges, w') by {
        forall i | 0 <= i < |w'.via|
          ensures w'.via[i] < |edges| && edges[w'.via[i]].Joins(w'.nodes[i], w'.nodes[i + 1])
        {
          assert w'.via[i] == w.via[i] && w'.nodes[i] == w.nodes[i] && w'.nodes[i + 1] == w.nodes[i + 1];
        }
      }
      ClosedWalk(edges, nodes, w');
      assert w.nodes[n - 1] == w'.nodes[n - 1];
      assert edges[w.via[n - 1]].Joins(w.nodes[n - 1], w.nodes[n]);
      forall i | 0 <= i < |w.nodes|
        ensures w.nodes[i] in nodes
      {
        if i < n {
          assert w.nodes[i] == w'.nodes[i];
        }
      }
    }
  }

  /** A closed set holds everything reachable from its members. */
  lemma ClosedReach(edges: seq<Edge>, nodes: set<nat>, s: nat, t: nat)
    requires Closed(edges, nodes) && s in nodes && Reachable(edges, s, t)
    ensures t in nodes
  {
    var w :| WalkBetween(edges, w, s, t);
    ClosedWalk(edges, nodes, w);
  }

  /** Having all neighbours in a set carries over to any superset. */
  lemma NeighboursMono(edges: seq<Edge>, x: nat, a: set<nat>, b: set<nat>)
    requires NeighboursIn(edges, x, a) && a <= b
    ensures NeighboursIn(edges, x, b)
  {
  }

  /** A set whose members have all their neighbours inside it is closed. */
  lemma NeighboursClosed(edges: seq<Edge>, nodes: set<nat>)
    requires forall x :: x in nodes ==> NeighboursIn(edges, x, nodes)
    ensures Closed(edges, nodes)
  {
    forall k | 0 <= k < |edges|
      ensures edges[k].from in nodes <==> edges[k].to in nodes
    {
      assert edges[k].Joins(edges[k].from, edges[k].to);
      assert edges[k].Joins(edges[k].to, edges[k].from);
    }
  }

  /** Every node of `nodes` is reachable from every other. */
  ghost predicate Connected(edges: seq<Edge>, nodes: set<nat>) {
    forall x, y :: x in nodes && y in nodes ==> Reachable(edges, x, y)
  }

  /** A set is connected exactly when all of it is reachable from one of its members. */
  lemma ConnectedFromOne(edges: seq<Edge>, nodes: set<nat>, s: nat)
    requires s in nodes
    ensures Connected(edges, nodes) <==> forall x :: x in nodes ==> Reachable(edges, s, x)
  {
    if forall x :: x in nodes ==> Reachable(edges, s, x) {
      forall x, y | x in nodes && y in nodes
        ensures Reachable(edges, x, y)
      {
        ReachableSymmetric(edges, s, x);
        ReachableTransitive(edges, x, s, y);
      }
    }
  }

  /**
   * The incidence list of node `v`: the indices of the edges touching `v`, in insertion
   * order, an index twice for a self-loop (the source appends the new edge to the list of
   * `node_from` and then to that of `node_to`).
   */
  function Incident(edges: seq<Edge>, v: nat): seq<nat>
    decreases |edges|
  {
    if |edges| == 0 then []
    else
      var k := |edges| - 1;
      Incident(edges[..k], v) + (if edges[k].from == v then [k] else []) + (if edges[k].to == v then [k] else [])
  }

  /** Inserting an edge appends its index once for each of its endpoints equal to `v`. */
  lemma IncidentAppend(edges: seq<Edge>, e: Edge, v: nat)
    ensures Incident(edges + [e], v)
         == Incident(edges, v) + (if e.from == v then [|edges|] else []) + (if e.to == v then [|edges|] else [])
  {
    assert (edges + [e])[..|edges|] == edges;
  }

  /** The incidence list holds exactly the edges that touch `v`. */
  lemma {:induction false} IncidentMembers(edges: seq<Edge>, v: nat)
    ensures forall k :: k in Incident(edges, v) <==> 0 <= k < |edges| && edges[k].Touches(v)
  {
    if |edges| > 0 {
      var n := |edges| - 1;
      IncidentMembers(edges[..n], v);
    }
  }

  /** Every entry of the incidence list of `v` is the index of an edge touching `v`. */
  lemma IncidentEntries(edges: seq<Edge>, v: nat)
    ensures forall j :: 0 <= j < |Incident(edges, v)| ==>
      Incident(edges, v)[j] < |edges| && edges[Incident(edges, v)[j]].Touches(v)
  {
    IncidentMembers(edges, v);
    var es := Incident(edges, v);
    assert forall j :: 0 <= j < |es| ==> es[j] in es;
  }

  /**
   * `es` lists edge indices in insertion order, and an index occurs twice only when that
   * edge is a self-loop on `v`.
   */
  ghost predicate InsertionOrdered(edges: seq<Edge>, v: nat, es: seq<nat>) {
    forall i, j :: 0 <= i < j < |es| ==>
      es[i] <= es[j] && (es[i] == es[j] ==> es[i] < |edges| && edges[es[i]].from == v && edges[es[i]].to == v)
  }

  /** The incidence list is in insertion order; only a self-loop puts an index in it twice. */
  lemma {:induction false} IncidentOrdered(edges: seq<Edge>, v: nat)
    ensures InsertionOrdered(edges, v, Incident(edges, v))
  {
    if |edges| > 0 {
      var n := |edges| - 1;
      var pre := Incident(edges[..n], v);
      var a := if edges[n].from == v then [n] else [];
      var b := if edges[n].to == v then [n] else [];
      assert Incident(edges, v) == pre + (a + b);
      assert InsertionOrdered(edges, v, pre) by {
        IncidentOrdered(edges[..n], v);
        OrderedLift(edges, n, v, pre);
      }
      assert InsertionOrdered(edges, v, a + b);
      IncidentMembers(edges[..n], v);
      assert forall i :: 0 <= i < |pre| ==> pre[i] in pre;
      OrderedAppend(edges, v, pre, a + b, n);
    }
  }

  /** Ordering with respect to a prefix of the edge list carries over to the whole list. */
  lemma OrderedLift(edges: seq<Edge>, n: nat, v: nat, xs: seq<nat>)
    requires n <= |edges| && InsertionOrdered(edges[..n], v, xs)
    ensures InsertionOrdered(edges, v, xs)
  {
    forall i, j | 0 <= i < j < |xs| && xs[i] == xs[j]
      ensures xs[i] < |edges| && edges[xs[i]].from == v && edges[xs[i]].to == v
    {
      assert xs[i] < n;
      assert edges[..n][xs[i]] == edges[xs[i]];
    }
  }

  /** Two ordered runs, the first below `n` and the second all `n`, make an ordered run. */
  lemma OrderedAppend(edges: seq<Edge>, v: nat, xs: seq<nat>, ys: seq<nat>, n: nat)
    requires InsertionOrdered(edges, v, xs) && InsertionOrdered(edges, v, ys)
    requires forall i :: 0 <= i < |xs| ==> xs[i] < n
    requires forall i :: 0 <= i < |ys| ==> ys[i] == n
    ensures InsertionOrdered(edges, v, xs + ys)
  {
    var zs := xs + ys;
    forall i, j | 0 <= i < j < |zs|
      ensures zs[i] <= zs[j] && (zs[i] == zs[j] ==> zs[i] < |edges| && edges[zs[i]].from == v && edges[zs[i]].to == v)
    {
      if j < |xs| {
        assert zs[i] == xs[i] && zs[j] == xs[j];
      } else if i < |xs| {
        assert zs[i] == xs[i] && zs[j] == ys[j - |xs|];
      } else {
        assert zs[i] == ys[i - |xs|] && zs[j] == ys[j - |xs|];
      }
    }
  }
}
