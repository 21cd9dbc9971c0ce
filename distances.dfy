/**
 * Weighted walks, shortest distances, and the state `dijkstra` keeps while it settles nodes
 * one by one. Edge weights are natural numbers and an edge may be crossed either way.
 */
module Distances {
  import opened Common
  import opened Edges
  import opened Walks

  /** A distance in the result table: `float('inf')`, or a finite total weight. */
  datatype Dist = Inf | Fin(n: nat)

  /** `a < b` on distances, infinity lying above every finite distance. */
  predicate Shorter(a: Dist, b: Dist) {
    a.Fin? && (b.Inf? || a.n < b.n)
  }

  /** The total weight of the edges at the positions `via`. */
  function Weight(edges: seq<Edge>, via: seq<nat>): nat
    requires forall i :: 0 <= i < |via| ==> via[i] < |edges|
  {
    if via == [] then 0 else Weight(edges, via[..|via| - 1]) + edges[via[|via| - 1]].value
  }

  /** Some walk from `s` to `t` weighs exactly `n`. */
  ghost predicate Costs(edges: seq<Edge>, s: nat, t: nat, n: nat) {
    exists w :: WalkBetween(edges, w, s, t) && Weight(edges, w.via) == n
  }

  /** No walk from `s` to `t` weighs less than `n`. */
  ghost predicate NoShorter(edges: seq<Edge>, s: nat, t: nat, n: nat) {
    forall w :: WalkBetween(edges, w, s, t) ==> n <= Weight(edges, w.via)
  }

  /**
   * `d` is the shortest distance from `s` to `t`: infinite when no walk joins them, and
   * otherwise the least weight of a walk from `s` to `t`.
   */
  ghost predicate ShortestIs(edges: seq<Edge>, s: nat, t: nat, d: Dist) {
    match d
    case Inf => !Reachable(edges, s, t)
    case Fin(n) => Costs(edges, s, t, n) && NoShorter(edges, s, t, n)
  }

  /** The shortest distance is unique. */
  lemma ShortestUnique(edges: seq<Edge>, s: nat, t: nat, d: Dist, d': Dist)
    requires ShortestIs(edges, s, t, d) && ShortestIs(edges, s, t, d')
    ensures d == d'
  {
    if d.Fin? && d'.Fin? {
      var w :| WalkBetween(edges, w, s, t) && Weight(edges, w.via) == d.n;
      var w' :| WalkBetween(edges, w', s, t) && Weight(edges, w'.via) == d'.n;
      assert d.n <= d'.n && d'.n <= d.n;
    }
  }

  /** Crossing one more edge adds its weight. */
  lemma WeightSnoc(edges: seq<Edge>, via: seq<nat>, k: nat)
    requires forall i :: 0 <= i < |via| ==> via[i] < |edges|
    requires k < |edges|
    ensures Weight(edges, Snoc(via, k)) == Weight(edges, via) + edges[k].value
  {
    assert Snoc(via, k)[..|via|] == via;
  }

  /** Crossing one edge before a walk adds its weight. */
  lemma {:induction false} WeightCons(edges: seq<Edge>, k: nat, via: seq<nat>)
    requires forall i :: 0 <= i < |via| ==> via[i] < |edges|
    requires k < |edges|
    ensures Weight(edges, [k] + via) == edges[k].value + Weight(edges, via)
  {
    if via != [] {
      var n := |via| - 1;
      assert ([k] + via)[..n + 1] == [k] + via[..n];
      WeightCons(edges, k, via[..n]);
    }
  }

  /** The walk that stays at `s` weighs nothing, and nothing weighs less. */
  lemma ShortestToSelf(edges: seq<Edge>, s: nat)
    ensures ShortestIs(edges, s, s, Fin(0))
  {
    StayPut(edges, s);
    assert Weight(edges, Walk([s], []).via) == 0;
  }

  /** A walk weighing `n` to `x`, then edge `k` from `x` to `y`, is a walk weighing more to `y`. */
  lemma CostsStep(edges: seq<Edge>, s: nat, x: nat, n: nat, k: nat, y: nat)
    requires Costs(edges, s, x, n)
    requires k < |edges| && edges[k].Joins(x, y)
    ensures Costs(edges, s, y, n + edges[k].value)
  {
    var w :| WalkBetween(edges, w, s, x) && Weight(edges, w.via) == n;
    ExtendWalk(edges, w, k, y);
    WeightSnoc(edges, w.via, k);
    assert WalkBetween(edges, Walk(Snoc(w.nodes, y), Snoc(w.via, k)), s, y);
  }

  /**
   * A potential on the nodes that no edge lets drop faster than the edge's weight, in
   * either direction: every edge's endpoints have potentials at most its weight apart.
   */
  ghost predicate Feasible(edges: seq<Edge>, pot: map<nat, nat>) {
    forall k :: 0 <= k < |edges| ==>
      && edges[k].from in pot && edges[k].to in pot
      && pot[edges[k].to] <= pot[edges[k].from] + edges[k].value
      && pot[edges[k].from] <= pot[edges[k].to] + edges[k].value
  }

  /** Along any walk a feasible potential grows by at most the walk's weight. */
  lemma {:induction false} PotentialBound(edges: seq<Edge>, pot: map<nat, nat>, w: Walk)
    requires Feasible(edges, pot) && IsWalk(edges, w) && w.nodes[0] in pot
    ensures w.nodes[|w.nodes| - 1] in pot
    ensures pot[w.nodes[|w.nodes| - 1]] <= pot[w.nodes[0]] + Weight(edges, w.via)
    decreases |w.via|
  {
    var n := |w.via|;
    if n > 0 {
      var w' := Walk(w.nodes[..n], w.via[..n - 1]);
      assert IsWalk(edges, w');
      PotentialBound(edges, pot, w');
      assert w.via[..n - 1] == w.via[..|w.via| - 1];
    }
  }

  /**
   * A certificate of a shortest distance: a walk from `s` to `t` weighing `n`, and a feasible
   * potential that is 0 at `s` and `n` at `t`.
   */
  lemma ShortestByPotential(edges: seq<Edge>, pot: map<nat, nat>, s: nat, t: nat, n: nat)
    requires Feasible(edges, pot) && s in pot && t in pot && pot[s] == 0 && pot[t] == n
    requires Costs(edges, s, t, n)
    ensures ShortestIs(edges, s, t, Fin(n))
  {
    forall w | WalkBetween(edges, w, s, t)
      ensures n <= Weight(edges, w.via)
    {
      PotentialBound(edges, pot, w);
    }
  }

  /** `a` comes no later than `b` in `heapq`'s order: by distance, then by node value. */
  predicate NotAfter(a: (nat, nat), b: (nat, nat)) {
    a.0 < b.0 || (a.0 == b.0 && a.1 <= b.1)
  }

  /** The position of an entry of the queue that `heappop` returns: one no later than any other. */
  function MinAt(pq: seq<(nat, nat)>): (i: nat)
    requires pq != []
    ensures i < |pq| && forall j :: 0 <= j < |pq| ==> NotAfter(pq[i], pq[j])
  {
    if |pq| == 1 then 0
    else
      var i := MinAt(pq[..|pq| - 1]);
      assert forall j :: 0 <= j < |pq| - 1 ==> pq[..|pq| - 1][j] == pq[j];
      if NotAfter(pq[i], pq[|pq| - 1]) then i else |pq| - 1
  }

  /** The queue without its entry at position `i`. */
  function Without(pq: seq<(nat, nat)>, i: nat): (r: seq<(nat, nat)>)
    requires i < |pq|
    ensures |r| == |pq| - 1
    ensures forall e :: e in r ==> e in pq
    ensures forall e :: e in pq && e != pq[i] ==> e in r
  {
    assert pq == pq[..i] + [pq[i]] + pq[i + 1..];
    pq[..i] + pq[i + 1..]
  }

  /** Every queue entry names a node whose recorded distance is finite and at most the entry's. */
  ghost predicate QueueSound(dist: map<nat, Dist>, pq: seq<(nat, nat)>) {
    forall e :: e in pq ==> e.1 in dist && dist[e.1].Fin? && dist[e.1].n <= e.0
  }

  /** Recording a shorter distance for `y` and queueing it keeps the queue sound and complete. */
  lemma QueuePush(dist: map<nat, Dist>, pq: seq<(nat, nat)>, done: set<nat>, y: nat, nd: nat)
    requires QueueSound(dist, pq) && QueueComplete(dist, pq, done) && y in dist && Shorter(Fin(nd), dist[y])
    ensures QueueSound(dist[y := Fin(nd)], pq + [(nd, y)])
    ensures QueueComplete(dist[y := Fin(nd)], pq + [(nd, y)], done)
  {
    var dist', pq' := dist[y := Fin(nd)], pq + [(nd, y)];
    forall e | e in pq'
      ensures e.1 in dist' && dist'[e.1].Fin? && dist'[e.1].n <= e.0
    {
      if e in pq {
        assert e.1 in dist && dist[e.1].Fin? && dist[e.1].n <= e.0;
      } else {
        assert e == (nd, y);
      }
    }
    forall v | v in dist' && v !in done && dist'[v].Fin?
      ensures (dist'[v].n, v) in pq'
    {
      if v == y {
        assert pq'[|pq|] == (nd, y);
      } else {
        assert (dist[v].n, v) in pq;
      }
    }
  }

  /** Every unsettled node with a finite distance has an entry carrying exactly that distance. */
  ghost predicate QueueComplete(dist: map<nat, Dist>, pq: seq<(nat, nat)>, done: set<nat>) {
    forall v :: v in dist && v !in done && dist[v].Fin? ==> (dist[v].n, v) in pq
  }

  /** The settled nodes hold their shortest distances. */
  ghost predicate Settled(edges: seq<Edge>, s: nat, dist: map<nat, Dist>, done: set<nat>) {
    forall v :: v in done ==> v in dist && dist[v].Fin? && ShortestIs(edges, s, v, dist[v])
  }

  /** Every finite distance recorded is the weight of some walk from `s`. */
  ghost predicate Achieved(edges: seq<Edge>, s: nat, dist: map<nat, Dist>) {
    forall v :: v in dist && dist[v].Fin? ==> Costs(edges, s, v, dist[v].n)
  }

  /**
   * Each edge from `x`, at distance `dx`, to an unsettled node has been relaxed: that node's
   * recorded distance is at most `dx` plus the edge's weight.
   */
  ghost predicate RelaxedFrom(edges: seq<Edge>, dist: map<nat, Dist>, done: set<nat>, x: nat, dx: nat) {
    forall k, y :: 0 <= k < |edges| && edges[k].Joins(x, y) && y !in done ==>
      y in dist && dist[y].Fin? && dist[y].n <= dx + edges[k].value
  }

  /** Settling more nodes leaves fewer edges to relax. */
  lemma RelaxedMore(edges: seq<Edge>, dist: map<nat, Dist>, done: set<nat>, done': set<nat>, x: nat, dx: nat)
    requires RelaxedFrom(edges, dist, done, x, dx) && done <= done'
    ensures RelaxedFrom(edges, dist, done', x, dx)
  {
    forall k, y | 0 <= k < |edges| && edges[k].Joins(x, y) && y !in done'
      ensures y in dist && dist[y].Fin? && dist[y].n <= dx + edges[k].value
    {
      assert y !in done;
    }
  }

  /** The edges of every settled node other than `u` have been relaxed. */
  ghost predicate RelaxedExcept(edges: seq<Edge>, dist: map<nat, Dist>, done: set<nat>, u: nat) {
    forall x :: x in done && x != u ==> x in dist && dist[x].Fin? && RelaxedFrom(edges, dist, done, x, dist[x].n)
  }

  /** Settling `u` leaves every other settled node's edges relaxed. */
  lemma RelaxedSettle(edges: seq<Edge>, dist: map<nat, Dist>, done: set<nat>, u: nat)
    requires Relaxed(edges, dist, done)
    ensures RelaxedExcept(edges, dist, done + {u}, u)
  {
    forall x | x in done + {u} && x != u
      ensures x in dist && dist[x].Fin? && RelaxedFrom(edges, dist, done + {u}, x, dist[x].n)
    {
      RelaxedMore(edges, dist, done, done + {u}, x, dist[x].n);
    }
  }

  /** The edges of every settled node have been relaxed. */
  ghost predicate Relaxed(edges: seq<Edge>, dist: map<nat, Dist>, done: set<nat>) {
    forall x :: x in done ==> x in dist && dist[x].Fin? && RelaxedFrom(edges, dist, done, x, dist[x].n)
  }

  /**
   * The predecessor `u` recorded for `v`: settled before `v` (whose rank, if settled, is
   * larger), joined to `v` by an edge whose weight added to `u`'s distance gives `v`'s.
   */
  ghost predicate Link(edges: seq<Edge>, dist: map<nat, Dist>, rank: map<nat, nat>, u: nat, v: nat) {
    && u in rank && u in dist && v in dist && dist[u].Fin? && dist[v].Fin?
    && (v in rank ==> rank[u] < rank[v])
    && exists k :: 0 <= k < |edges| && edges[k].Joins(u, v) && dist[v].n == dist[u].n + edges[k].value
  }

  /**
   * The predecessor table: one entry per node, `None` for the start and for every node at
   * infinite distance, and a link for every other node.
   */
  ghost predicate Links(edges: seq<Edge>, s: nat, dist: map<nat, Dist>, prev: map<nat, Option<nat>>, rank: map<nat, nat>) {
    && prev.Keys == dist.Keys && s in prev && prev[s].None?
    && (forall v :: v in prev && prev[v].Some? ==> Link(edges, dist, rank, prev[v].value, v))
    && (forall v :: v in prev && v != s && dist[v].Fin? ==> prev[v].Some?)
    && (forall v :: v in prev && dist[v].Inf? ==> prev[v].None?)
  }

  /** `rank` numbers the settled nodes `done`, each below `count` and no two alike. */
  ghost predicate Ranked(rank: map<nat, nat>, done: set<nat>, count: nat) {
    && rank.Keys == done && (forall v :: v in rank ==> rank[v] < count)
    && forall a, b :: a in rank && b in rank && a != b ==> rank[a] != rank[b]
  }

  /** Numbering a newly settled node `count` keeps the numbering. */
  lemma RankNext(rank: map<nat, nat>, done: set<nat>, count: nat, u: nat)
    requires Ranked(rank, done, count)
    ensures Ranked(rank[u := count], done + {u}, count + 1)
  {
  }

  /**
   * The settled nodes were settled in order of distance, and none of them lies beyond a
   * distance still queued.
   */
  ghost predicate ByDistance(dist: map<nat, Dist>, pq: seq<(nat, nat)>, done: set<nat>, rank: map<nat, nat>) {
    && (forall a, b :: a in rank && b in rank && rank[a] < rank[b] && a in dist && b in dist ==> !Shorter(dist[b], dist[a]))
    && forall a, e :: a in done && a in dist && e in pq ==> !Shorter(Fin(e.0), dist[a])
  }

  /** `heappop` would return the entry of `a` no later than that of `v`, at their recorded distances. */
  predicate NoLater(dist: map<nat, Dist>, a: nat, v: nat) {
    a in dist && v in dist && dist[a].Fin? && dist[v].Fin? && NotAfter((dist[a].n, a), (dist[v].n, v))
  }

  /**
   * Of two nodes settled at the same distance, the larger value went first only when the
   * predecessor of the smaller was settled no earlier, so that its entry was not yet queued.
   */
  ghost predicate TiesBroken(dist: map<nat, Dist>, prev: map<nat, Option<nat>>, rank: map<nat, nat>) {
    forall a, b :: a in rank && b in rank && rank[a] < rank[b] && a in dist && b in dist && dist[a] == dist[b] && b < a ==>
      b in prev && prev[b].Some? && prev[b].value in rank && rank[a] <= rank[prev[b].value]
  }

  /**
   * An unsettled node whose predecessor was settled before `a` already had its entry queued
   * when `a` was popped, so `a` comes no later than it.
   */
  ghost predicate Queued(dist: map<nat, Dist>, prev: map<nat, Option<nat>>, done: set<nat>, rank: map<nat, nat>) {
    forall a, v ::
      (a in rank && v in prev && v !in done && prev[v].Some? && prev[v].value in rank && rank[prev[v].value] < rank[a])
      ==> NoLater(dist, a, v)
  }

  /**
   * Every node settled before the predecessor recorded for `v` offers `v` a strictly longer
   * route: only a strictly shorter distance replaces a predecessor, so the first settled
   * node to reach the final distance is the one kept.
   */
  ghost predicate Earliest(edges: seq<Edge>, dist: map<nat, Dist>, prev: map<nat, Option<nat>>, rank: map<nat, nat>) {
    forall v, q, k ::
      (v in prev && prev[v].Some? && prev[v].value in rank && q in rank && rank[q] < rank[prev[v].value] &&
       0 <= k < |edges| && edges[k].Joins(q, v) && q in dist && dist[q].Fin? && v in dist)
      ==> Shorter(dist[v], Fin(dist[q].n + edges[k].value))
  }

  /** The facts about the order of settling that `dijkstra` keeps from round to round. */
  ghost predicate Order(edges: seq<Edge>, dist: map<nat, Dist>, prev: map<nat, Option<nat>>, pq: seq<(nat, nat)>,
                        done: set<nat>, rank: map<nat, nat>) {
    ByDistance(dist, pq, done, rank) && TiesBroken(dist, prev, rank) && Queued(dist, prev, done, rank)
    && Earliest(edges, dist, prev, rank)
  }

  /**
   * What holds of `dijkstra`'s state between rounds and during one, apart from relaxation:
   * the tables cover the nodes `keys`, which hold every endpoint; the settled nodes `done`
   * are ranked below `count` in the order they were settled; and the facts above hold.
   */
  ghost predicate Core(edges: seq<Edge>, keys: set<nat>, s: nat, dist: map<nat, Dist>, prev: map<nat, Option<nat>>,
                       pq: seq<(nat, nat)>, done: set<nat>, rank: map<nat, nat>, count: nat) {
    && dist.Keys == keys && s in keys && done <= keys
    && (forall k :: 0 <= k < |edges| ==> edges[k].from in keys && edges[k].to in keys)
    && Ranked(rank, done, count)
    && Settled(edges, s, dist, done) && Achieved(edges, s, dist)
    && QueueSound(dist, pq) && QueueComplete(dist, pq, done)
    && Links(edges, s, dist, prev, rank)
  }

  /**
   * The state at the top of `dijkstra`'s main loop: before the first round the queue holds
   * only the start at distance 0; afterwards the start is settled, and every settled node's
   * edges have been relaxed.
   */
  ghost predicate LoopState(edges: seq<Edge>, keys: set<nat>, s: nat, dist: map<nat, Dist>, prev: map<nat, Option<nat>>,
                            pq: seq<(nat, nat)>, done: set<nat>, rank: map<nat, nat>, count: nat) {
    && Core(edges, keys, s, dist, prev, pq, done, rank, count)
    && (done == {} ==> pq == [(0, s)] && dist[s] == Fin(0))
    && (done != {} ==> s in done)
    && Relaxed(edges, dist, done)
    && Order(edges, dist, prev, pq, done, rank)
  }

  /**
   * The state while the edges `es` of `u`, just settled at distance `d`, are relaxed in
   * turn: those of every other settled node have been, and so have the first `t` of `es`.
   */
  ghost predicate Scanning(edges: seq<Edge>, keys: set<nat>, s: nat, dist: map<nat, Dist>, prev: map<nat, Option<nat>>,
                           pq: seq<(nat, nat)>, done: set<nat>, rank: map<nat, nat>, count: nat,
                           u: nat, d: nat, es: seq<nat>, t: nat) {
    && Core(edges, keys, s, dist, prev, pq, done, rank, count)
    && s in done && u in done && dist[u] == Fin(d) && t <= |es|
    && (forall j :: 0 <= j < |es| ==> es[j] < |edges| && edges[es[j]].Touches(u))
    && RelaxedExcept(edges, dist, done, u)
    && ScannedUpTo(edges, dist, done, u, d, es, t)
  }

  /**
   * The state of a round of `dijkstra` while it relaxes the edges `es` of `u`: the
   * relaxation so far, the order of settling, `u` settled last, and no settled node
   * beyond `d`.
   */
  ghost predicate RelaxState(edges: seq<Edge>, keys: set<nat>, s: nat, dist: map<nat, Dist>, prev: map<nat, Option<nat>>,
                             pq: seq<(nat, nat)>, done: set<nat>, rank: map<nat, nat>, count: nat,
                             u: nat, d: nat, es: seq<nat>, t: nat) {
    && Scanning(edges, keys, s, dist, prev, pq, done, rank, count, u, d, es, t)
    && Order(edges, dist, prev, pq, done, rank)
    && u in rank && rank[u] + 1 == count
    && forall x :: x in done && x in dist ==> !Shorter(Fin(d), dist[x])
  }

  /** The first `t` edges of `es`, each touching `u` at distance `d`, have been relaxed. */
  ghost predicate ScannedUpTo(edges: seq<Edge>, dist: map<nat, Dist>, done: set<nat>, u: nat, d: nat, es: seq<nat>, t: nat) {
    forall j :: 0 <= j < t && j < |es| && es[j] < |edges| && edges[es[j]].Touches(u) ==>
      var y := edges[es[j]].GetOtherNode(u).value;
      y !in done ==> y in dist && dist[y].Fin? && dist[y].n <= d + edges[es[j]].value
  }

  /** The next edge of `es`, once relaxed, extends the scanned prefix. */
  lemma ScannedStep(edges: seq<Edge>, dist: map<nat, Dist>, done: set<nat>, u: nat, d: nat, es: seq<nat>, t: nat)
    requires ScannedUpTo(edges, dist, done, u, d, es, t)
    requires t < |es| && es[t] < |edges| && edges[es[t]].Touches(u)
    requires var y := edges[es[t]].GetOtherNode(u).value;
      y !in done ==> y in dist && dist[y].Fin? && dist[y].n <= d + edges[es[t]].value
    ensures ScannedUpTo(edges, dist, done, u, d, es, t + 1)
  {
  }

  /** Lowering the distance of one node keeps the edges from `x` relaxed. */
  lemma RelaxedLower(edges: seq<Edge>, dist: map<nat, Dist>, done: set<nat>, x: nat, dx: nat, y: nat, nd: nat)
    requires RelaxedFrom(edges, dist, done, x, dx) && y in dist && Shorter(Fin(nd), dist[y])
    ensures RelaxedFrom(edges, dist[y := Fin(nd)], done, x, dx)
  {
    var dist' := dist[y := Fin(nd)];
    forall k, z | 0 <= k < |edges| && edges[k].Joins(x, z) && z !in done
      ensures z in dist' && dist'[z].Fin? && dist'[z].n <= dx + edges[k].value
    {
      assert z in dist && dist[z].Fin? && dist[z].n <= dx + edges[k].value;
    }
  }

  /** Lowering the distance of one node keeps the scanned edges relaxed. */
  lemma ScannedLower(edges: seq<Edge>, dist: map<nat, Dist>, done: set<nat>, u: nat, d: nat, es: seq<nat>, t: nat,
                     y: nat, nd: nat)
    requires ScannedUpTo(edges, dist, done, u, d, es, t) && y in dist && Shorter(Fin(nd), dist[y])
    ensures ScannedUpTo(edges, dist[y := Fin(nd)], done, u, d, es, t)
  {
    var dist' := dist[y := Fin(nd)];
    forall j | 0 <= j < t && j < |es| && es[j] < |edges| && edges[es[j]].Touches(u)
      ensures var z := edges[es[j]].GetOtherNode(u).value;
        z !in done ==> z in dist' && dist'[z].Fin? && dist'[z].n <= d + edges[es[j]].value
    {
      var z := edges[es[j]].GetOtherNode(u).value;
      if z !in done {
        assert z in dist && dist[z].Fin? && dist[z].n <= d + edges[es[j]].value;
      }
    }
  }

  /** The state `dijkstra` starts its main loop in. */
  lemma Start(edges: seq<Edge>, keys: set<nat>, s: nat)
    requires s in keys
    requires forall k :: 0 <= k < |edges| ==> edges[k].from in keys && edges[k].to in keys
    ensures LoopState(edges, keys, s, (map v | v in keys :: Inf)[s := Fin(0)], map v | v in keys :: None,
                      [(0, s)], {}, map[], 0)
  {
    var dist := (map v | v in keys :: Inf)[s := Fin(0)];
    ShortestToSelf(edges, s);
    assert Achieved(edges, s, dist);
  }

  /**
   * Walking from the settled start to an unsettled node crosses from a settled node to an
   * unsettled one whose recorded distance is finite and at most the walk's weight.
   */
  lemma {:induction false} Exit(edges: seq<Edge>, s: nat, dist: map<nat, Dist>, done: set<nat>, w: Walk)
    returns (y: nat)
    requires Settled(edges, s, dist, done) && Relaxed(edges, dist, done)
    requires IsWalk(edges, w) && w.nodes[0] == s && s in done && w.nodes[|w.nodes| - 1] !in done
    ensures y !in done && y in dist && dist[y].Fin? && dist[y].n <= Weight(edges, w.via)
    decreases |w.via|
  {
    var n := |w.via| - 1;
    var x, z, k := w.nodes[n], w.nodes[n + 1], w.via[n];
    var w' := Walk(w.nodes[..n + 1], w.via[..n]);
    assert IsWalk(edges, w') by {
      forall i | 0 <= i < |w'.via|
        ensures w'.via[i] < |edges| && edges[w'.via[i]].Joins(w'.nodes[i], w'.nodes[i + 1])
      {
        assert w'.via[i] == w.via[i] && w'.nodes[i] == w.nodes[i] && w'.nodes[i + 1] == w.nodes[i + 1];
      }
    }
    assert Weight(edges, w.via) == Weight(edges, w'.via) + edges[k].value;
    if x in done {
      assert WalkBetween(edges, w', s, x);
      assert RelaxedFrom(edges, dist, done, x, dist[x].n);
      y := z;
    } else {
      y := Exit(edges, s, dist, done, w');
    }
  }

  /** Popping an entry for a node already settled changes nothing else. */
  lemma PopSettled(edges: seq<Edge>, keys: set<nat>, s: nat, dist: map<nat, Dist>, prev: map<nat, Option<nat>>,
                   pq: seq<(nat, nat)>, done: set<nat>, rank: map<nat, nat>, count: nat, i: nat)
    requires LoopState(edges, keys, s, dist, prev, pq, done, rank, count)
    requires i < |pq| && pq[i].1 in done
    ensures LoopState(edges, keys, s, dist, prev, Without(pq, i), done, rank, count)
  {
    var pq' := Without(pq, i);
    OrderDrop(edges, dist, prev, pq, done, rank, i);
    forall v | v in dist && v !in done && dist[v].Fin?
      ensures (dist[v].n, v) in pq'
    {
      assert (dist[v].n, v) in pq && (dist[v].n, v) != pq[i];
    }
  }

  /**
   * The first entry `heappop` returns for an unsettled node carries that node's recorded
   * distance, which is its shortest distance.
   */
  lemma PopFresh(edges: seq<Edge>, keys: set<nat>, s: nat, dist: map<nat, Dist>, prev: map<nat, Option<nat>>,
                 pq: seq<(nat, nat)>, done: set<nat>, rank: map<nat, nat>, count: nat, i: nat)
    requires LoopState(edges, keys, s, dist, prev, pq, done, rank, count)
    requires pq != [] && i == MinAt(pq) && pq[i].1 !in done
    ensures pq[i].1 in keys && dist[pq[i].1] == Fin(pq[i].0)
    ensures ShortestIs(edges, s, pq[i].1, Fin(pq[i].0))
  {
    PopDistance(dist, pq, done, i);
    if done == {} {
      assert pq == [(0, s)] && i == 0;
      ShortestToSelf(edges, s);
    } else {
      assert s in done;
      PopShortest(edges, s, dist, pq, done, pq[i].1, pq[i].0);
    }
  }

  /** An entry no later than any other, for an unsettled node, carries its recorded distance. */
  lemma PopDistance(dist: map<nat, Dist>, pq: seq<(nat, nat)>, done: set<nat>, i: nat)
    requires QueueSound(dist, pq) && QueueComplete(dist, pq, done)
    requires i < |pq| && (forall j :: 0 <= j < |pq| ==> NotAfter(pq[i], pq[j])) && pq[i].1 !in done
    ensures pq[i].1 in dist && dist[pq[i].1] == Fin(pq[i].0)
    ensures forall j :: 0 <= j < |pq| ==> pq[i].0 <= pq[j].0
  {
    var (d, u) := pq[i];
    assert pq[i] in pq;
    assert (dist[u].n, u) in pq;
  }

  /**
   * An unsettled node whose recorded distance `d` is no more than any queued distance lies
   * at distance `d` from the start: a shorter walk would leave the settled nodes through a
   * node with a shorter queued distance.
   */
  lemma PopShortest(edges: seq<Edge>, s: nat, dist: map<nat, Dist>, pq: seq<(nat, nat)>, done: set<nat>, u: nat, d: nat)
    requires Settled(edges, s, dist, done) && Relaxed(edges, dist, done) && Achieved(edges, s, dist)
    requires QueueComplete(dist, pq, done) && forall j :: 0 <= j < |pq| ==> d <= pq[j].0
    requires s in done && u !in done && u in dist && dist[u] == Fin(d)
    ensures ShortestIs(edges, s, u, Fin(d))
  {
    forall w | WalkBetween(edges, w, s, u)
      ensures d <= Weight(edges, w.via)
    {
      var y := Exit(edges, s, dist, done, w);
      assert (dist[y].n, y) in pq;
    }
  }

  /**
   * Settling the node `u` popped from position `i` of the queue, with its shortest distance
   * `d`, starts the relaxation of its edges `es`.
   */
  lemma Settle(edges: seq<Edge>, keys: set<nat>, s: nat, dist: map<nat, Dist>, prev: map<nat, Option<nat>>,
               pq: seq<(nat, nat)>, done: set<nat>, rank: map<nat, nat>, count: nat,
               i: nat, u: nat, d: nat, es: seq<nat>)
    requires LoopState(edges, keys, s, dist, prev, pq, done, rank, count)
    requires i < |pq| && pq[i] == (d, u) && forall j :: 0 <= j < |pq| ==> NotAfter(pq[i], pq[j])
    requires u in keys && u !in done && dist[u] == Fin(d) && ShortestIs(edges, s, u, Fin(d))
    requires done == {} ==> u == s
    requires forall j :: 0 <= j < |es| ==> es[j] < |edges| && edges[es[j]].Touches(u)
    ensures RelaxState(edges, keys, s, dist, prev, Without(pq, i), done + {u}, rank[u := count], count + 1, u, d, es, 0)
  {
    SettleOne(edges, s, dist, done, u);
    QueueDrop(dist, pq, done, i);
    LinksRanked(edges, s, dist, prev, rank, count, u);
    RelaxedSettle(edges, dist, done, u);
    RankNext(rank, done, count, u);
    OrderSettle(edges, s, dist, prev, pq, done, rank, count, i, u, d);
  }

  /** A node popped with its shortest distance may join the settled nodes. */
  lemma SettleOne(edges: seq<Edge>, s: nat, dist: map<nat, Dist>, done: set<nat>, u: nat)
    requires Settled(edges, s, dist, done) && u in dist && dist[u].Fin? && ShortestIs(edges, s, u, dist[u])
    ensures Settled(edges, s, dist, done + {u})
  {
  }

  /**
   * Dropping the entry at position `i` keeps the queue sound, and complete once the node it
   * names is settled.
   */
  lemma QueueDrop(dist: map<nat, Dist>, pq: seq<(nat, nat)>, done: set<nat>, i: nat)
    requires QueueSound(dist, pq) && QueueComplete(dist, pq, done) && i < |pq|
    ensures QueueSound(dist, Without(pq, i)) && QueueComplete(dist, Without(pq, i), done + {pq[i].1})
  {
    var pq' := Without(pq, i);
    forall v | v in dist && v !in done + {pq[i].1} && dist[v].Fin?
      ensures (dist[v].n, v) in pq'
    {
      assert (dist[v].n, v) in pq && (dist[v].n, v) != pq[i];
    }
  }

  /** Dropping a queue entry keeps the order of settling. */
  lemma OrderDrop(edges: seq<Edge>, dist: map<nat, Dist>, prev: map<nat, Option<nat>>, pq: seq<(nat, nat)>,
                  done: set<nat>, rank: map<nat, nat>, i: nat)
    requires Order(edges, dist, prev, pq, done, rank) && i < |pq|
    ensures Order(edges, dist, prev, Without(pq, i), done, rank)
  {
  }

  /**
   * Settling `u`, popped at distance `d` from position `i` as the least entry, after every
   * settled node keeps the order of settling, and no settled node lies beyond `d`.
   */
  lemma OrderSettle(edges: seq<Edge>, s: nat, dist: map<nat, Dist>, prev: map<nat, Option<nat>>, pq: seq<(nat, nat)>,
                    done: set<nat>, rank: map<nat, nat>, count: nat, i: nat, u: nat, d: nat)
    requires Order(edges, dist, prev, pq, done, rank) && Ranked(rank, done, count) && Links(edges, s, dist, prev, rank)
    requires QueueComplete(dist, pq, done) && Settled(edges, s, dist, done)
    requires i < |pq| && pq[i] == (d, u) && forall j :: 0 <= j < |pq| ==> NotAfter(pq[i], pq[j])
    requires u in dist && dist[u] == Fin(d) && u !in done && (u == s ==> done == {})
    ensures Order(edges, dist, prev, Without(pq, i), done + {u}, rank[u := count])
    ensures forall x :: x in done + {u} && x in dist ==> !Shorter(Fin(d), dist[x])
  {
    SettleByDistance(dist, pq, done, rank, count, i, u, d);
    SettleTies(edges, s, dist, prev, pq, done, rank, count, u, d);
    SettleQueued(edges, s, dist, prev, pq, done, rank, count, i, u, d);
    forall v | v in prev && prev[v].Some?
      ensures prev[v].value in rank
    {
      assert Link(edges, dist, rank, prev[v].value, v);
    }
    SettleEarliest(edges, dist, prev, rank, count, u);
  }

  /** The least entry's node, settled last, lies at or beyond every settled node and before every queued entry. */
  lemma SettleByDistance(dist: map<nat, Dist>, pq: seq<(nat, nat)>, done: set<nat>, rank: map<nat, nat>, count: nat,
                         i: nat, u: nat, d: nat)
    requires ByDistance(dist, pq, done, rank) && Ranked(rank, done, count)
    requires i < |pq| && pq[i] == (d, u) && forall j :: 0 <= j < |pq| ==> NotAfter(pq[i], pq[j])
    requires u in dist && dist[u] == Fin(d) && u !in done
    ensures ByDistance(dist, Without(pq, i), done + {u}, rank[u := count])
    ensures forall x :: x in done + {u} && x in dist ==> !Shorter(Fin(d), dist[x])
  {
    var pq', done', rank' := Without(pq, i), done + {u}, rank[u := count];
    assert pq[i] in pq;
    forall a, b | a in rank' && b in rank' && rank'[a] < rank'[b] && a in dist && b in dist
      ensures !Shorter(dist[b], dist[a])
    {
      if b == u {
        assert a in done;
      }
    }
    forall a, e | a in done' && a in dist && e in pq'
      ensures !Shorter(Fin(e.0), dist[a])
    {
      if a == u {
        var j :| 0 <= j < |pq| && pq[j] == e;
      }
    }
  }

  /**
   * A node settled at the distance of an earlier one with a larger value had its
   * predecessor settled no earlier: otherwise its entry was queued when that node was popped.
   */
  lemma SettleTies(edges: seq<Edge>, s: nat, dist: map<nat, Dist>, prev: map<nat, Option<nat>>, pq: seq<(nat, nat)>,
                   done: set<nat>, rank: map<nat, nat>, count: nat, u: nat, d: nat)
    requires TiesBroken(dist, prev, rank) && Queued(dist, prev, done, rank) && Ranked(rank, done, count)
    requires Links(edges, s, dist, prev, rank)
    requires u in dist && dist[u] == Fin(d) && u !in done && (u == s ==> done == {})
    ensures TiesBroken(dist, prev, rank[u := count])
  {
    var rank' := rank[u := count];
    forall a | a in rank && a in dist && dist[a] == dist[u] && u < a
      ensures prev[u].Some? && prev[u].value in rank && rank[a] <= rank[prev[u].value]
    {
      TieLast(edges, s, dist, prev, done, rank, a, u);
    }
    TiesRanked(dist, prev, rank, count, u);
  }

  /** Ranking `u` after every ranked node keeps the ties broken, given how `u` compares. */
  lemma TiesRanked(dist: map<nat, Dist>, prev: map<nat, Option<nat>>, rank: map<nat, nat>, count: nat, u: nat)
    requires TiesBroken(dist, prev, rank) && Ranked(rank, rank.Keys, count) && u !in rank && u in dist
    requires forall a :: a in rank && a in dist && dist[a] == dist[u] && u < a ==>
      u in prev && prev[u].Some? && prev[u].value in rank && rank[a] <= rank[prev[u].value]
    ensures TiesBroken(dist, prev, rank[u := count])
  {
  }

  /**
   * The unsettled node `u` about to be settled after `a`, at `a`'s distance but with a
   * smaller value, has its predecessor settled no earlier than `a`.
   */
  lemma TieLast(edges: seq<Edge>, s: nat, dist: map<nat, Dist>, prev: map<nat, Option<nat>>, done: set<nat>,
                rank: map<nat, nat>, a: nat, u: nat)
    requires Queued(dist, prev, done, rank) && Links(edges, s, dist, prev, rank) && rank.Keys == done
    requires a in rank && a in dist && u in dist && dist[a] == dist[u] && dist[u].Fin? && u < a && u !in done && u != s
    ensures prev[u].Some? && prev[u].value in rank && rank[a] <= rank[prev[u].value]
  {
    assert prev[u].Some?;
    var p := prev[u].value;
    assert Link(edges, dist, rank, p, u);
    assert rank[p] < rank[a] ==> NoLater(dist, a, u);
  }

  /** Every unsettled node with a predecessor comes no earlier than the least entry's node. */
  lemma SettleQueued(edges: seq<Edge>, s: nat, dist: map<nat, Dist>, prev: map<nat, Option<nat>>, pq: seq<(nat, nat)>,
                     done: set<nat>, rank: map<nat, nat>, count: nat, i: nat, u: nat, d: nat)
    requires Queued(dist, prev, done, rank) && Ranked(rank, done, count) && Links(edges, s, dist, prev, rank)
    requires QueueComplete(dist, pq, done)
    requires i < |pq| && pq[i] == (d, u) && forall j :: 0 <= j < |pq| ==> NotAfter(pq[i], pq[j])
    requires u in dist && dist[u] == Fin(d) && u !in done
    ensures Queued(dist, prev, done + {u}, rank[u := count])
  {
    var done', rank' := done + {u}, rank[u := count];
    forall a, v | a in rank' && v in prev && v !in done' && prev[v].Some? && prev[v].value in rank'
      && rank'[prev[v].value] < rank'[a]
      ensures NoLater(dist, a, v)
    {
      assert Link(edges, dist, rank, prev[v].value, v);
      if a == u {
        assert (dist[v].n, v) in pq;
        var j :| 0 <= j < |pq| && pq[j] == (dist[v].n, v);
      }
    }
  }

  /** Ranking `u` after every settled node leaves each predecessor the earliest. */
  lemma SettleEarliest(edges: seq<Edge>, dist: map<nat, Dist>, prev: map<nat, Option<nat>>,
                       rank: map<nat, nat>, count: nat, u: nat)
    requires Earliest(edges, dist, prev, rank) && forall v :: v in prev && prev[v].Some? ==> prev[v].value in rank
    requires (forall x :: x in rank ==> rank[x] < count) && u !in rank
    ensures Earliest(edges, dist, prev, rank[u := count])
  {
    var rank' := rank[u := count];
    forall v, q, k | v in prev && prev[v].Some? && prev[v].value in rank' && q in rank' && rank'[q] < rank'[prev[v].value]
      && 0 <= k < |edges| && edges[k].Joins(q, v) && q in dist && dist[q].Fin? && v in dist
      ensures Shorter(dist[v], Fin(dist[q].n + edges[k].value))
    {
      var p := prev[v].value;
      assert p in rank && rank'[p] == rank[p] < count;
      assert q != u;
      assert rank'[q] == rank[q];
    }
  }

  /**
   * Recording the shorter distance `nd` for the unsettled node `y`, reached across edge `k`
   * from `u`, the node settled last, with `u` as its predecessor, keeps the order of
   * settling.
   */
  lemma OrderUpdate(edges: seq<Edge>, dist: map<nat, Dist>, prev: map<nat, Option<nat>>, pq: seq<(nat, nat)>,
                    done: set<nat>, rank: map<nat, nat>, count: nat, u: nat, d: nat, k: nat, y: nat, nd: nat)
    requires Order(edges, dist, prev, pq, done, rank) && Ranked(rank, done, count)
    requires RelaxedExcept(edges, dist, done, u)
    requires u in rank && rank[u] + 1 == count && u in dist && dist[u] == Fin(d)
    requires forall x :: x in done && x in dist ==> !Shorter(Fin(d), dist[x])
    requires k < |edges| && edges[k].Joins(u, y) && nd == d + edges[k].value
    requires y in dist && y !in done && Shorter(Fin(nd), dist[y])
    ensures Order(edges, dist[y := Fin(nd)], prev[y := Some(u)], pq + [(nd, y)], done, rank)
  {
    UpdateByDistance(dist, pq, done, rank, d, y, nd);
    UpdateQueued(dist, prev, done, rank, count, u, y, nd);
    UpdateEarliest(edges, dist, prev, done, rank, u, d, y, nd);
  }

  /** The queued distance `nd`, no less than `d`, lies beyond every settled node. */
  lemma UpdateByDistance(dist: map<nat, Dist>, pq: seq<(nat, nat)>, done: set<nat>, rank: map<nat, nat>,
                         d: nat, y: nat, nd: nat)
    requires ByDistance(dist, pq, done, rank) && rank.Keys == done
    requires forall x :: x in done && x in dist ==> !Shorter(Fin(d), dist[x])
    requires d <= nd && y !in done
    ensures ByDistance(dist[y := Fin(nd)], pq + [(nd, y)], done, rank)
  {
    var dist', pq' := dist[y := Fin(nd)], pq + [(nd, y)];
    forall a, e | a in done && a in dist' && e in pq'
      ensures !Shorter(Fin(e.0), dist'[a])
    {
      if e !in pq {
        assert e == (nd, y);
      }
    }
  }

  /** `y` now has the last settled node as its predecessor, so no settled node precedes it in the queue. */
  lemma UpdateQueued(dist: map<nat, Dist>, prev: map<nat, Option<nat>>, done: set<nat>, rank: map<nat, nat>,
                     count: nat, u: nat, y: nat, nd: nat)
    requires Queued(dist, prev, done, rank) && Ranked(rank, done, count)
    requires u in rank && rank[u] + 1 == count && y !in done
    ensures Queued(dist[y := Fin(nd)], prev[y := Some(u)], done, rank)
  {
    var dist', prev' := dist[y := Fin(nd)], prev[y := Some(u)];
    forall a, v | a in rank && v in prev' && v !in done && prev'[v].Some? && prev'[v].value in rank
      && rank[prev'[v].value] < rank[a]
      ensures NoLater(dist', a, v)
    {
      assert v != y;
      assert NoLater(dist, a, v);
    }
  }

  /**
   * Every node settled before `u` had already offered `y` a route no shorter than its old
   * distance, which `nd` undercuts; the other predecessors and distances stay as they were.
   */
  lemma UpdateEarliest(edges: seq<Edge>, dist: map<nat, Dist>, prev: map<nat, Option<nat>>, done: set<nat>,
                       rank: map<nat, nat>, u: nat, d: nat, y: nat, nd: nat)
    requires Earliest(edges, dist, prev, rank) && RelaxedExcept(edges, dist, done, u) && rank.Keys == done
    requires u in rank && y in dist && y !in done && Shorter(Fin(nd), dist[y])
    ensures Earliest(edges, dist[y := Fin(nd)], prev[y := Some(u)], rank)
  {
    var dist', prev' := dist[y := Fin(nd)], prev[y := Some(u)];
    forall v, q, j | v in prev' && prev'[v].Some? && prev'[v].value in rank && q in rank && rank[q] < rank[prev'[v].value]
      && 0 <= j < |edges| && edges[j].Joins(q, v) && q in dist' && dist'[q].Fin? && v in dist'
      ensures Shorter(dist'[v], Fin(dist'[q].n + edges[j].value))
    {
      if v == y {
        assert q in done && q != u;
        assert RelaxedFrom(edges, dist, done, q, dist[q].n);
      } else {
        assert q != y;
      }
    }
  }

  /** Ranking `u`, unranked, after every ranked node keeps the predecessor table's links. */
  lemma LinksRanked(edges: seq<Edge>, s: nat, dist: map<nat, Dist>, prev: map<nat, Option<nat>>,
                    rank: map<nat, nat>, count: nat, u: nat)
    requires Links(edges, s, dist, prev, rank) && u !in rank && Ranked(rank, rank.Keys, count)
    ensures Links(edges, s, dist, prev, rank[u := count])
  {
    forall v | v in prev && prev[v].Some?
      ensures Link(edges, dist, rank[u := count], prev[v].value, v)
    {
      assert Link(edges, dist, rank, prev[v].value, v);
    }
  }

  /** An edge to a settled node, or one that does not shorten its other end, changes nothing. */
  lemma RelaxKeep(edges: seq<Edge>, keys: set<nat>, s: nat, dist: map<nat, Dist>, prev: map<nat, Option<nat>>,
                  pq: seq<(nat, nat)>, done: set<nat>, rank: map<nat, nat>, count: nat,
                  u: nat, d: nat, es: seq<nat>, t: nat)
    requires RelaxState(edges, keys, s, dist, prev, pq, done, rank, count, u, d, es, t) && t < |es|
    requires var y := edges[es[t]].GetOtherNode(u).value;
      y in done || !Shorter(Fin(d + edges[es[t]].value), dist[y])
    ensures RelaxState(edges, keys, s, dist, prev, pq, done, rank, count, u, d, es, t + 1)
  {
    ScanKeep(edges, keys, s, dist, prev, pq, done, rank, count, u, d, es, t);
  }

  /** The relaxation facts survive an edge that changes nothing. */
  lemma ScanKeep(edges: seq<Edge>, keys: set<nat>, s: nat, dist: map<nat, Dist>, prev: map<nat, Option<nat>>,
                 pq: seq<(nat, nat)>, done: set<nat>, rank: map<nat, nat>, count: nat,
                 u: nat, d: nat, es: seq<nat>, t: nat)
    requires Scanning(edges, keys, s, dist, prev, pq, done, rank, count, u, d, es, t) && t < |es|
    requires var y := edges[es[t]].GetOtherNode(u).value;
      y in done || !Shorter(Fin(d + edges[es[t]].value), dist[y])
    ensures Scanning(edges, keys, s, dist, prev, pq, done, rank, count, u, d, es, t + 1)
  {
  }

  /**
   * An edge that shortens the distance of its unsettled other end `y` records the shorter
   * distance, makes `u` its predecessor and queues it.
   */
  lemma RelaxUpdate(edges: seq<Edge>, keys: set<nat>, s: nat, dist: map<nat, Dist>, prev: map<nat, Option<nat>>,
                    pq: seq<(nat, nat)>, done: set<nat>, rank: map<nat, nat>, count: nat,
                    u: nat, d: nat, es: seq<nat>, t: nat, y: nat, nd: nat)
    requires RelaxState(edges, keys, s, dist, prev, pq, done, rank, count, u, d, es, t) && t < |es|
    requires y == edges[es[t]].GetOtherNode(u).value && nd == d + edges[es[t]].value
    requires y !in done && Shorter(Fin(nd), dist[y])
    ensures RelaxState(edges, keys, s, dist[y := Fin(nd)], prev[y := Some(u)], pq + [(nd, y)], done, rank, count,
                      u, d, es, t + 1)
  {
    assert edges[es[t]].Joins(u, y);
    ScanUpdate(edges, keys, s, dist, prev, pq, done, rank, count, u, d, es, t, y, nd);
    OrderUpdate(edges, dist, prev, pq, done, rank, count, u, d, es[t], y, nd);
  }

  /** The relaxation facts survive the update `RelaxUpdate` makes. */
  lemma ScanUpdate(edges: seq<Edge>, keys: set<nat>, s: nat, dist: map<nat, Dist>, prev: map<nat, Option<nat>>,
                   pq: seq<(nat, nat)>, done: set<nat>, rank: map<nat, nat>, count: nat,
                   u: nat, d: nat, es: seq<nat>, t: nat, y: nat, nd: nat)
    requires Scanning(edges, keys, s, dist, prev, pq, done, rank, count, u, d, es, t) && t < |es|
    requires y == edges[es[t]].GetOtherNode(u).value && nd == d + edges[es[t]].value
    requires y !in done && Shorter(Fin(nd), dist[y])
    ensures Scanning(edges, keys, s, dist[y := Fin(nd)], prev[y := Some(u)], pq + [(nd, y)], done, rank, count,
                     u, d, es, t + 1)
  {
    var k := es[t];
    assert edges[k].Joins(u, y);
    SettledLower(edges, s, dist, done, y, nd);
    AchievedStep(edges, s, dist, u, d, k, y, nd);
    QueuePush(dist, pq, done, y, nd);
    LinksUpdate(edges, s, dist, prev, rank, u, d, k, y, nd);
    RelaxedExceptLower(edges, dist, done, u, y, nd);
    ScannedLower(edges, dist, done, u, d, es, t, y, nd);
    ScannedStep(edges, dist[y := Fin(nd)], done, u, d, es, t);
    UpdateKeys(dist, y, Fin(nd));
  }

  /** Updating a key already present leaves the keys alone. */
  lemma UpdateKeys<X>(m: map<nat, X>, y: nat, x: X)
    requires y in m
    ensures m[y := x].Keys == m.Keys
  {
  }

  /** Lowering the distance of an unsettled node keeps the settled ones settled. */
  lemma SettledLower(edges: seq<Edge>, s: nat, dist: map<nat, Dist>, done: set<nat>, y: nat, nd: nat)
    requires Settled(edges, s, dist, done) && y !in done
    ensures Settled(edges, s, dist[y := Fin(nd)], done)
  {
    forall v | v in done
      ensures v in dist[y := Fin(nd)] && dist[y := Fin(nd)][v] == dist[v]
    {
    }
  }

  /** Recording for `y` the distance of `u` plus an edge from `u` to `y` keeps every distance achieved. */
  lemma AchievedStep(edges: seq<Edge>, s: nat, dist: map<nat, Dist>, u: nat, d: nat, k: nat, y: nat, nd: nat)
    requires Achieved(edges, s, dist) && u in dist && dist[u] == Fin(d)
    requires k < |edges| && edges[k].Joins(u, y) && nd == d + edges[k].value
    ensures Achieved(edges, s, dist[y := Fin(nd)])
  {
    CostsStep(edges, s, u, d, k, y);
  }

  /**
   * Making the settled node `u` the predecessor of the unsettled node `y`, across edge `k`,
   * with `u`'s distance plus the edge's weight, keeps the predecessor table's links.
   */
  lemma LinksUpdate(edges: seq<Edge>, s: nat, dist: map<nat, Dist>, prev: map<nat, Option<nat>>, rank: map<nat, nat>,
                    u: nat, d: nat, k: nat, y: nat, nd: nat)
    requires Links(edges, s, dist, prev, rank) && u in rank && u in dist && dist[u] == Fin(d)
    requires k < |edges| && edges[k].Joins(u, y) && nd == d + edges[k].value && y in dist && y != s && y !in rank
    ensures Links(edges, s, dist[y := Fin(nd)], prev[y := Some(u)], rank)
  {
    var dist', prev' := dist[y := Fin(nd)], prev[y := Some(u)];
    UpdateKeys(dist, y, Fin(nd));
    UpdateKeys(prev, y, Some(u));
    assert Link(edges, dist', rank, u, y);
    forall v | v in prev' && prev'[v].Some?
      ensures Link(edges, dist', rank, prev'[v].value, v)
    {
      if v != y {
        assert Link(edges, dist, rank, prev[v].value, v);
      }
    }
  }

  /** Lowering the distance of one node keeps the edges of the settled nodes other than `u` relaxed. */
  lemma RelaxedExceptLower(edges: seq<Edge>, dist: map<nat, Dist>, done: set<nat>, u: nat, y: nat, nd: nat)
    requires RelaxedExcept(edges, dist, done, u) && y in dist && y !in done && Shorter(Fin(nd), dist[y])
    ensures RelaxedExcept(edges, dist[y := Fin(nd)], done, u)
  {
    forall x | x in done && x != u
      ensures x in dist[y := Fin(nd)] && dist[y := Fin(nd)][x].Fin?
      ensures RelaxedFrom(edges, dist[y := Fin(nd)], done, x, dist[y := Fin(nd)][x].n)
    {
      RelaxedLower(edges, dist, done, x, dist[x].n, y, nd);
    }
  }

  /** Once all of `u`'s incidence list has been relaxed, the main loop's state holds again. */
  lemma ScanDone(edges: seq<Edge>, keys: set<nat>, s: nat, dist: map<nat, Dist>, prev: map<nat, Option<nat>>,
                 pq: seq<(nat, nat)>, done: set<nat>, rank: map<nat, nat>, count: nat,
                 u: nat, d: nat, es: seq<nat>)
    requires RelaxState(edges, keys, s, dist, prev, pq, done, rank, count, u, d, es, |es|)
    requires es == Incident(edges, u)
    ensures LoopState(edges, keys, s, dist, prev, pq, done, rank, count)
  {
    ScanComplete(edges, dist, done, u, d, es);
    RelaxedJoin(edges, dist, done, u);
  }

  /** Relaxing the whole incidence list of `u` relaxes every edge from `u`. */
  lemma ScanComplete(edges: seq<Edge>, dist: map<nat, Dist>, done: set<nat>, u: nat, d: nat, es: seq<nat>)
    requires es == Incident(edges, u) && ScannedUpTo(edges, dist, done, u, d, es, |es|)
    ensures RelaxedFrom(edges, dist, done, u, d)
  {
    IncidentMembers(edges, u);
    forall k, y | 0 <= k < |edges| && edges[k].Joins(u, y) && y !in done
      ensures y in dist && dist[y].Fin? && dist[y].n <= d + edges[k].value
    {
      assert k in es;
      var j :| 0 <= j < |es| && es[j] == k;
      JoinsOther(edges[k], u, y);
    }
  }

  /** With the edges of `u` relaxed as well, those of every settled node are. */
  lemma RelaxedJoin(edges: seq<Edge>, dist: map<nat, Dist>, done: set<nat>, u: nat)
    requires RelaxedExcept(edges, dist, done, u) && u in dist && dist[u].Fin? && RelaxedFrom(edges, dist, done, u, dist[u].n)
    ensures Relaxed(edges, dist, done)
  {
  }

  /**
   * The predecessor `u` that `table` records for `v`: settled before `v` and at a finite
   * distance, joined to `v` by an edge whose weight added to `u`'s distance gives `v`'s.
   */
  ghost predicate Predecessor(edges: seq<Edge>, table: map<nat, (Dist, Option<nat>)>, rank: map<nat, nat>, u: nat, v: nat) {
    && u in table && v in table && u in rank && v in rank && rank[u] < rank[v]
    && table[u].0.Fin? && table[v].0.Fin?
    && exists k :: 0 <= k < |edges| && edges[k].Joins(u, v) && table[v].0.n == table[u].0.n + edges[k].value
  }

  /**
   * `rank` is the order in which `dijkstra` settles the nodes of `table`: no two share a
   * rank; distances never decrease along it; and of two nodes at the same distance, the
   * one with the larger value comes first only when the predecessor of the other comes no
   * earlier, so that its entry was not yet queued when the first was popped (`heappop`
   * breaks ties between equal distances by the smaller node value).
   */
  ghost predicate SettleOrder(table: map<nat, (Dist, Option<nat>)>, rank: map<nat, nat>) {
    && (forall a, b :: a in rank && b in rank && a != b ==> rank[a] != rank[b])
    && (forall a, b :: a in rank && b in rank && rank[a] < rank[b] && a in table && b in table ==>
          !Shorter(table[b].0, table[a].0))
    && (forall a, b ::
          (a in rank && b in rank && rank[a] < rank[b] && a in table && b in table && table[a].0 == table[b].0 && b < a)
          ==> table[b].1.Some? && table[b].1.value in rank && rank[a] <= rank[table[b].1.value])
  }

  /**
   * The predecessor recorded for each node is the first settled of the nodes that reach its
   * distance across one edge: a later one never replaces it, since only a strictly shorter
   * distance does.
   */
  ghost predicate FirstReached(edges: seq<Edge>, table: map<nat, (Dist, Option<nat>)>, rank: map<nat, nat>) {
    forall v, q, k ::
      (v in table && table[v].1.Some? && table[v].1.value in rank && q in rank && q in table && table[q].0.Fin? &&
       0 <= k < |edges| && edges[k].Joins(q, v) && table[v].0 == Fin(table[q].0.n + edges[k].value))
      ==> rank[table[v].1.value] <= rank[q]
  }

  /**
   * What `dijkstra` returns from the start `s`: for every node, its shortest distance from
   * `s` and its predecessor on a shortest walk from `s`, `None` for the start itself and for
   * the nodes `s` does not reach. `rank` orders the nodes at a finite distance by the round
   * that settled them, and the predecessor is the first settled node to reach the node's
   * distance.
   */
  ghost predicate Table(edges: seq<Edge>, keys: set<nat>, s: nat, table: map<nat, (Dist, Option<nat>)>, rank: map<nat, nat>) {
    && s in keys && table.Keys == keys
    && table[s] == (Fin(0), None)
    && (forall v :: v in keys ==> ShortestIs(edges, s, v, table[v].0))
    && (forall v :: v in keys && table[v].0.Inf? ==> table[v].1.None? && v !in rank)
    && (forall v :: v in keys && table[v].0.Fin? ==> v in rank)
    && (forall v :: v in keys && v != s && table[v].0.Fin? ==>
          table[v].1.Some? && Predecessor(edges, table, rank, table[v].1.value, v))
    && SettleOrder(table, rank) && FirstReached(edges, table, rank)
  }

  /**
   * When the queue is empty every node holds its shortest distance, and every node at a
   * finite distance is settled.
   */
  lemma Finish(edges: seq<Edge>, keys: set<nat>, s: nat, dist: map<nat, Dist>, prev: map<nat, Option<nat>>,
               done: set<nat>, rank: map<nat, nat>, count: nat)
    requires LoopState(edges, keys, s, dist, prev, [], done, rank, count)
    ensures forall v :: v in keys ==> ShortestIs(edges, s, v, dist[v])
    ensures forall v :: v in keys && dist[v].Fin? ==> v in done
  {
    assert s in done;
    Drained(edges, keys, s, dist, done);
  }

  /** With nothing queued, the nodes left unsettled are at infinite distance, as no walk reaches them. */
  lemma Drained(edges: seq<Edge>, keys: set<nat>, s: nat, dist: map<nat, Dist>, done: set<nat>)
    requires dist.Keys == keys && s in done
    requires Settled(edges, s, dist, done) && Relaxed(edges, dist, done) && QueueComplete(dist, [], done)
    ensures forall v :: v in keys ==> ShortestIs(edges, s, v, dist[v])
    ensures forall v :: v in keys && dist[v].Fin? ==> v in done
  {
    forall v | v in keys
      ensures ShortestIs(edges, s, v, dist[v])
    {
      if v !in done {
        assert dist[v].Inf?;
        if Reachable(edges, s, v) {
          var w :| WalkBetween(edges, w, s, v);
          var y := Exit(edges, s, dist, done, w);
          assert false;
        }
      }
    }
  }

  /** The final state, read as a table, is the one `dijkstra` promises. */
  lemma FinishTable(edges: seq<Edge>, keys: set<nat>, s: nat, dist: map<nat, Dist>, prev: map<nat, Option<nat>>,
                    done: set<nat>, rank: map<nat, nat>, count: nat, table: map<nat, (Dist, Option<nat>)>)
    requires LoopState(edges, keys, s, dist, prev, [], done, rank, count)
    requires table.Keys == keys && forall v :: v in keys ==> table[v] == (dist[v], prev[v])
    ensures Table(edges, keys, s, table, rank)
  {
    Finish(edges, keys, s, dist, prev, done, rank, count);
    ShortestToSelf(edges, s);
    ShortestUnique(edges, s, s, dist[s], Fin(0));
    TableEntries(edges, keys, s, dist, prev, done, rank, table);
    TableOrder(edges, keys, dist, prev, done, rank, count, table);
  }

  /** The order of settling the loop kept, read off the final table. */
  lemma TableOrder(edges: seq<Edge>, keys: set<nat>, dist: map<nat, Dist>, prev: map<nat, Option<nat>>,
                   done: set<nat>, rank: map<nat, nat>, count: nat, table: map<nat, (Dist, Option<nat>)>)
    requires Order(edges, dist, prev, [], done, rank) && Ranked(rank, done, count)
    requires prev.Keys == keys && dist.Keys == keys
    requires table.Keys == keys && forall v :: v in keys ==> table[v] == (dist[v], prev[v])
    ensures SettleOrder(table, rank) && FirstReached(edges, table, rank)
  {
    forall a, b | a in rank && b in rank && rank[a] < rank[b] && a in table && b in table
      ensures !Shorter(table[b].0, table[a].0)
    {
      assert table[a] == (dist[a], prev[a]) && table[b] == (dist[b], prev[b]);
    }
    forall a, b | a in rank && b in rank && rank[a] < rank[b] && a in table && b in table && table[a].0 == table[b].0 && b < a
      ensures table[b].1.Some? && table[b].1.value in rank && rank[a] <= rank[table[b].1.value]
    {
      assert table[a] == (dist[a], prev[a]) && table[b] == (dist[b], prev[b]);
    }
    TableFirst(edges, keys, dist, prev, rank, table);
  }

  /** A predecessor kept by the loop is, in the final table, the first settled to reach its node's distance. */
  lemma TableFirst(edges: seq<Edge>, keys: set<nat>, dist: map<nat, Dist>, prev: map<nat, Option<nat>>,
                   rank: map<nat, nat>, table: map<nat, (Dist, Option<nat>)>)
    requires Earliest(edges, dist, prev, rank)
    requires prev.Keys == keys && dist.Keys == keys
    requires table.Keys == keys && forall v :: v in keys ==> table[v] == (dist[v], prev[v])
    ensures FirstReached(edges, table, rank)
  {
    forall v, q, k |
      v in table && table[v].1.Some? && table[v].1.value in rank && q in rank && q in table && table[q].0.Fin? &&
      0 <= k < |edges| && edges[k].Joins(q, v) && table[v].0 == Fin(table[q].0.n + edges[k].value)
      ensures rank[table[v].1.value] <= rank[q]
    {
      assert table[v] == (dist[v], prev[v]) && table[q] == (dist[q], prev[q]);
    }
  }

  /** The final table records, for each node, the distance and predecessor the loop left. */
  lemma TableEntries(edges: seq<Edge>, keys: set<nat>, s: nat, dist: map<nat, Dist>, prev: map<nat, Option<nat>>,
                     done: set<nat>, rank: map<nat, nat>, table: map<nat, (Dist, Option<nat>)>)
    requires Links(edges, s, dist, prev, rank) && prev.Keys == keys && rank.Keys == done
    requires forall v :: v in done ==> v in dist && dist[v].Fin?
    requires forall v :: v in keys && dist[v].Fin? ==> v in done
    requires forall v :: v in keys ==> ShortestIs(edges, s, v, dist[v])
    requires table.Keys == keys && forall v :: v in keys ==> table[v] == (dist[v], prev[v])
    ensures forall v :: v in keys ==> ShortestIs(edges, s, v, table[v].0)
    ensures forall v :: v in keys && table[v].0.Inf? ==> table[v].1.None? && v !in rank
    ensures forall v :: v in keys && table[v].0.Fin? ==> v in rank
    ensures forall v :: v in keys && v != s && table[v].0.Fin? ==>
              table[v].1.Some? && Predecessor(edges, table, rank, table[v].1.value, v)
  {
    forall v | v in keys
      ensures ShortestIs(edges, s, v, table[v].0)
      ensures table[v].0.Inf? ==> table[v].1.None? && v !in rank
      ensures table[v].0.Fin? ==> v in rank
    {
      assert table[v] == (dist[v], prev[v]);
    }
    forall v | v in keys && v != s && table[v].0.Fin?
      ensures table[v].1.Some? && Predecessor(edges, table, rank, table[v].1.value, v)
    {
      TablePredecessor(edges, keys, s, dist, prev, rank, table, v);
    }
  }

  /** The predecessor the loop recorded for a node at a finite distance is one in the table. */
  lemma TablePredecessor(edges: seq<Edge>, keys: set<nat>, s: nat, dist: map<nat, Dist>, prev: map<nat, Option<nat>>,
                         rank: map<nat, nat>, table: map<nat, (Dist, Option<nat>)>, v: nat)
    requires Links(edges, s, dist, prev, rank) && prev.Keys == keys
    requires table.Keys == keys && forall v :: v in keys ==> table[v] == (dist[v], prev[v])
    requires v in keys && v != s && dist[v].Fin? && v in rank
    ensures table[v].1.Some? && Predecessor(edges, table, rank, table[v].1.value, v)
  {
    assert table[v] == (dist[v], prev[v]) && prev[v].Some?;
    var u := prev[v].value;
    assert Link(edges, dist, rank, u, v);
    assert table[u] == (dist[u], prev[u]);
    var k :| 0 <= k < |edges| && edges[k].Joins(u, v) && dist[v].n == dist[u].n + edges[k].value;
    assert table[v].0.n == table[u].0.n + edges[k].value;
  }

  /**
   * Midway through reading a walk off the predecessors in `table`: `path` lists the nodes
   * read so far, from `t` back to `l`; `w` walks from `l` to `t` through them in forward
   * order and weighs what separates `l`'s distance from `n`, the distance of `t`; and
   * `current` is the predecessor recorded for `l`.
   */
  ghost predicate PathBack(edges: seq<Edge>, keys: set<nat>, table: map<nat, (Dist, Option<nat>)>, rank: map<nat, nat>,
                           path: seq<nat>, current: Option<nat>, w: Walk, t: nat, n: nat) {
    && |path| > 0
    && var l := path[|path| - 1];
    && l in keys && l in table && l in rank && table[l].0.Fin? && current == table[l].1
    && WalkBetween(edges, w, l, t) && w.nodes == Rev(path)
    && Weight(edges, w.via) + table[l].0.n == n
  }

  /**
   * In the final table, a node at a finite distance other than the start has a predecessor,
   * ranked below it, in the table and at a finite distance; the start has none.
   */
  lemma TableLink(edges: seq<Edge>, keys: set<nat>, s: nat, table: map<nat, (Dist, Option<nat>)>, rank: map<nat, nat>, v: nat)
    requires Table(edges, keys, s, table, rank) && v in keys && table[v].0.Fin?
    ensures v in rank
    ensures table[v].1.None? <==> v == s
    ensures table[v].1.Some? ==>
      var u := table[v].1.value;
      && u in keys && u in rank && rank[u] < rank[v] && table[u].0.Fin?
      && exists k :: 0 <= k < |edges| && edges[k].Joins(u, v) && table[v].0.n == table[u].0.n + edges[k].value
  {
    if v != s {
      assert Predecessor(edges, table, rank, table[v].1.value, v);
    }
  }

  /**
   * One step of reading a walk off the predecessors: the node `current` names joins the
   * front of the walk, and its own predecessor becomes the next to read.
   */
  lemma PathStep(edges: seq<Edge>, keys: set<nat>, s: nat, table: map<nat, (Dist, Option<nat>)>, rank: map<nat, nat>,
                 path: seq<nat>, current: Option<nat>, w: Walk, t: nat, n: nat)
    returns (w': Walk)
    requires Table(edges, keys, s, table, rank)
    requires current.Some? && current.value in keys && table[current.value].0.Fin?
    requires path == [] ==> current == Some(t) && table[t].0 == Fin(n)
    requires path != [] ==> PathBack(edges, keys, table, rank, path, current, w, t, n)
    ensures PathBack(edges, keys, table, rank, path + [current.value], table[current.value].1, w', t, n)
  {
    var c := current.value;
    TableLink(edges, keys, s, table, rank, c);
    RevSnoc(path, c);
    if path == [] {
      StayPut(edges, c);
      w' := Walk([c], []);
    } else {
      var l := path[|path| - 1];
      TableLink(edges, keys, s, table, rank, l);
      var k: nat :| k < |edges| && edges[k].Joins(c, l) && table[l].0.n == table[c].0.n + edges[k].value;
      Prepend(edges, k, c, w);
      w' := Walk([c] + w.nodes, [k] + w.via);
    }
  }

  /** An edge from `u` to where a walk starts, then the walk, is a walk weighing that much more. */
  lemma Prepend(edges: seq<Edge>, k: nat, u: nat, w: Walk)
    requires IsWalk(edges, w) && k < |edges| && edges[k].Joins(u, w.nodes[0])
    ensures WalkBetween(edges, Walk([u] + w.nodes, [k] + w.via), u, w.nodes[|w.nodes| - 1])
    ensures Weight(edges, [k] + w.via) == edges[k].value + Weight(edges, w.via)
  {
    var step := Walk([u, w.nodes[0]], [k]);
    assert IsWalk(edges, step);
    ConcatWalk(edges, step, w);
    assert Concat(step, w) == Walk([u] + w.nodes, [k] + w.via);
    WeightCons(edges, k, w.via);
  }
}
