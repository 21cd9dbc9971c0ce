/**
 * Circuits of the multigraph, and the depth-first search forest `has_cycle` builds while
 * it looks for one (src/Graph.py). A self-loop and a pair of parallel edges are circuits
 * too, since the graph keeps both.
 */
module Cycles {
  import opened Common
  import opened Edges
  import opened Walks
  import opened Traversals

  /** A walk that never crosses the same edge twice. */
  ghost predicate IsTrail(edges: seq<Edge>, w: Walk) {
    IsWalk(edges, w) && Distinct(w.via)
  }

  /** A trail of at least one edge that ends where it starts. */
  ghost predicate IsCircuit(edges: seq<Edge>, w: Walk) {
    IsTrail(edges, w) && |w.via| > 0 && w.nodes[0] == w.nodes[|w.via|]
  }

  /** The graph has a circuit: a closed trail, which may be a single self-loop. */
  ghost predicate HasCircuit(edges: seq<Edge>) {
    exists w :: IsCircuit(edges, w)
  }

  /** Both endpoints of every edge are in `nodes`. */
  ghost predicate Covered(edges: seq<Edge>, nodes: set<nat>) {
    forall k :: 0 <= k < |edges| ==> edges[k].from in nodes && edges[k].to in nodes
  }

  /** Every entry of `es` is the index of an edge at `v`. */
  ghost predicate AllTouch(edges: seq<Edge>, v: nat, es: seq<nat>) {
    forall j :: 0 <= j < |es| ==> es[j] < |edges| && edges[es[j]].Touches(v)
  }

  /**
   * `dfs_cycle_check(v, parent)` started when the nodes in `marked` are visited: whether
   * it answers true, and the nodes visited when it returns. `v` is marked first, then its
   * incidence list is scanned.
   */
  ghost function CheckFrom(edges: seq<Edge>, nodes: set<nat>, marked: set<nat>, v: nat, parent: Option<nat>)
    : (r: (bool, set<nat>))
    requires Covered(edges, nodes) && marked <= nodes && v in nodes && v !in marked
    ensures marked + {v} <= r.1 <= nodes
    decreases nodes - marked, 0
  {
    IncidentEntries(edges, v);
    ScanFrom(edges, nodes, marked + {v}, v, parent, Incident(edges, v), 0)
  }

  /**
   * The loop of `dfs_cycle_check(v, parent)` from entry `t` of the incidence list `es` on:
   * an unvisited neighbour is searched and a true answer passed on, a visited neighbour
   * other than `parent` answers true, and the parent is passed over.
   */
  ghost function ScanFrom(edges: seq<Edge>, nodes: set<nat>, marked: set<nat>, v: nat, parent: Option<nat>,
                          es: seq<nat>, t: nat): (r: (bool, set<nat>))
    requires Covered(edges, nodes) && marked <= nodes && AllTouch(edges, v, es) && t <= |es|
    ensures marked <= r.1 <= nodes
    decreases nodes - marked, 1, |es| - t
  {
    if t == |es| then (false, marked)
    else
      var w := edges[es[t]].GetOtherNode(v).value;
      if w !in marked then
        var r := CheckFrom(edges, nodes, marked, w, Some(v));
        if r.0 then r else ScanFrom(edges, nodes, r.1, v, parent, es, t + 1)
      else if Some(w) != parent then (true, marked)
      else ScanFrom(edges, nodes, marked, v, parent, es, t + 1)
  }

  /**
   * The loop of `has_cycle` over the node values `vs` from position `i` on: each node not
   * yet visited starts a search without a parent, and the first true answer is the result.
   */
  ghost function CycleSearch(edges: seq<Edge>, nodes: set<nat>, vs: seq<nat>, i: nat, marked: set<nat>)
    : (r: (bool, set<nat>))
    requires Covered(edges, nodes) && marked <= nodes && i <= |vs|
    requires forall j :: 0 <= j < |vs| ==> vs[j] in nodes
    ensures marked <= r.1 <= nodes
    decreases |vs| - i
  {
    if i == |vs| then (false, marked)
    else if vs[i] in marked then CycleSearch(edges, nodes, vs, i + 1, marked)
    else
      var r := CheckFrom(edges, nodes, marked, vs[i], None);
      if r.0 then r else CycleSearch(edges, nodes, vs, i + 1, r.1)
  }

  /**
   * The bookkeeping of a depth-first search: the discovery number of each marked node
   * (`ord`), the parent (`par`) and the index of the tree edge (`tree`) through which each
   * non-root node was first reached, the nodes whose scan is in progress, root first
   * (`stack`), and the next discovery number (`count`).
   */
  datatype Forest = Forest(ord: map<nat, nat>, par: map<nat, nat>, tree: map<nat, nat>, stack: seq<nat>, count: nat)

  /** Every non-root node hangs from a parent discovered before it, by an edge joining the two. */
  ghost predicate TreeEdges(edges: seq<Edge>, f: Forest) {
    forall a :: a in f.par ==>
      && a in f.ord && f.par[a] in f.ord && f.ord[f.par[a]] < f.ord[a]
      && a in f.tree && f.tree[a] < |edges| && edges[f.tree[a]].Joins(f.par[a], a)
  }

  /** The node at position `i` of the stack hangs from the one below it. */
  ghost predicate ParentBelow(f: Forest, i: nat)
    requires 0 < i < |f.stack|
  {
    f.stack[i] in f.par && f.par[f.stack[i]] == f.stack[i - 1]
  }

  /**
   * The scans in progress: each node on the stack is the parent of the one above it, and
   * the bottom one is a root.
   */
  ghost predicate StackOk(f: Forest) {
    && (forall i :: 0 <= i < |f.stack| ==> f.stack[i] in f.ord)
    && (forall i :: 0 < i < |f.stack| ==> ParentBelow(f, i))
    && (|f.stack| > 0 ==> f.stack[0] !in f.par)
  }

  /**
   * A node whose scan finished without finding a circuit: each edge at `x` is the tree
   * edge of a child of `x`, or leads back to the parent of `x`.
   */
  ghost predicate Finished(edges: seq<Edge>, f: Forest, x: nat) {
    forall k, y :: 0 <= k < |edges| && edges[k].Joins(x, y) ==>
      (y in f.par && f.par[y] == x && y in f.tree && f.tree[y] == k) || (x in f.par && f.par[x] == y)
  }

  /** The search state between two steps; the nodes of `f.ord` are those whose flag is set. */
  ghost predicate ForestOk(edges: seq<Edge>, f: Forest) {
    && (forall x :: x in f.ord ==> f.ord[x] < f.count)
    && TreeEdges(edges, f) && f.tree.Keys == f.par.Keys
    && StackOk(f)
    && (forall x :: x in f.ord && x !in f.stack ==> Finished(edges, f, x))
  }

  /** `f'` keeps every entry of `f`. */
  ghost predicate Extends(f: Forest, f': Forest) {
    && (forall x :: x in f.ord ==> x in f'.ord && f'.ord[x] == f.ord[x])
    && (forall x :: x in f.par ==> x in f'.par && f'.par[x] == f.par[x])
    && (forall x :: x in f.tree ==> x in f'.tree && f'.tree[x] == f.tree[x])
  }

  /** `parent` is the node on top of the stack, joined to `v` by edge `via`; a root starts on an empty stack. */
  ghost predicate FromParent(edges: seq<Edge>, f: Forest, v: nat, parent: Option<nat>, via: nat) {
    match parent
    case None => f.stack == []
    case Some(p) => |f.stack| > 0 && f.stack[|f.stack| - 1] == p && via < |edges| && edges[via].Joins(p, v)
  }

  /** The forest once `v` is discovered, from `parent` through edge `via` when it has one. */
  ghost function Push(f: Forest, v: nat, parent: Option<nat>, via: nat): Forest {
    match parent
    case None => Forest(f.ord[v := f.count], f.par, f.tree, f.stack + [v], f.count + 1)
    case Some(p) => Forest(f.ord[v := f.count], f.par[v := p], f.tree[v := via], f.stack + [v], f.count + 1)
  }

  /**
   * Between `f` and `f'`, `v` was attached to `parent` through `via`, and every other node
   * attached hangs from a node discovered in between.
   */
  ghost predicate Adopted(f: Forest, f': Forest, v: nat, parent: Option<nat>, via: nat) {
    && (parent.Some? ==> v in f'.par && f'.par[v] == parent.value && v in f'.tree && f'.tree[v] == via)
    && (forall c :: c in f'.par && c !in f.par && c != v ==> f'.par[c] !in f.ord)
  }

  /**
   * The search of `v`, begun on the forest `f` from `parent` through `via`, ended without
   * a circuit in `f'`: `v` is discovered and back off the stack, and the forest only grew.
   */
  ghost predicate Searched(edges: seq<Edge>, f: Forest, f': Forest, v: nat, parent: Option<nat>, via: nat) {
    && ForestOk(edges, f') && f'.stack == f.stack && Extends(f, f')
    && Adopted(f, f', v, parent, via) && v in f'.ord
  }

  /**
   * Each of the first `t` entries of the incidence list `es` of `v` led to a child of `v`
   * reached through it, or back to the parent of `v`.
   */
  ghost predicate Scanned(edges: seq<Edge>, f: Forest, v: nat, es: seq<nat>, t: nat)
    requires t <= |es|
  {
    forall j, y :: 0 <= j < t && es[j] < |edges| && edges[es[j]].Joins(v, y) ==>
      (y in f.par && f.par[y] == v && y in f.tree && f.tree[y] == es[j]) || (v in f.par && f.par[v] == y)
  }

  /** Every child of `v` was reached through one of the first `t` entries of `es`. */
  ghost predicate ChildrenBefore(f: Forest, v: nat, es: seq<nat>, t: nat)
    requires t <= |es|
  {
    forall c :: c in f.par && f.par[c] == v ==> c in f.tree && exists j :: 0 <= j < t && es[j] == f.tree[c]
  }

  /** Edge `k` is the tree edge of some node. */
  ghost predicate IsTreeEdge(f: Forest, k: nat) {
    exists a :: a in f.par && a in f.tree && f.tree[a] == k
  }

  /** What a finished node `x` says about one edge `k` at `x` and its other end `y`. */
  lemma FinishedAt(edges: seq<Edge>, f: Forest, x: nat, k: nat, y: nat)
    requires Finished(edges, f, x) && k < |edges| && edges[k].Joins(x, y)
    ensures (y in f.par && f.par[y] == x && y in f.tree && f.tree[y] == k) || (x in f.par && f.par[x] == y)
  {
  }

  /** A finished node stays finished when the forest only grows. */
  lemma FinishedMono(edges: seq<Edge>, f: Forest, f': Forest, x: nat)
    requires Extends(f, f') && Finished(edges, f, x)
    ensures Finished(edges, f', x)
  {
  }

  /** Attaching an undiscovered node to a discovered parent keeps every tree edge well formed. */
  lemma PushTree(edges: seq<Edge>, f: Forest, v: nat, parent: Option<nat>, via: nat)
    requires TreeEdges(edges, f) && f.tree.Keys == f.par.Keys && v !in f.ord
    requires forall x :: x in f.ord ==> f.ord[x] < f.count
    requires FromParent(edges, f, v, parent, via) && (parent.Some? ==> parent.value in f.ord)
    ensures TreeEdges(edges, Push(f, v, parent, via))
    ensures Push(f, v, parent, via).tree.Keys == Push(f, v, parent, via).par.Keys
  {
    match parent
    case None =>
      var g := Push(f, v, parent, via);
      assert g.par == f.par && g.tree == f.tree && g.ord == f.ord[v := f.count];
    case Some(p) =>
      var g := Push(f, v, parent, via);
      assert g.par == f.par[v := p] && g.tree == f.tree[v := via] && g.ord == f.ord[v := f.count];
      forall a | a in g.par
        ensures a in g.ord && g.par[a] in g.ord && g.ord[g.par[a]] < g.ord[a]
        ensures a in g.tree && g.tree[a] < |edges| && edges[g.tree[a]].Joins(g.par[a], a)
      {
        if a == v {
          assert g.ord[p] == f.ord[p] < f.count == g.ord[v];
        } else {
          assert a in f.par && g.par[a] == f.par[a] && g.tree[a] == f.tree[a];
          assert g.ord[a] == f.ord[a] && g.ord[f.par[a]] == f.ord[f.par[a]];
        }
      }
  }

  /** Pushing an unmarked node that hangs from the top of the stack keeps the stack well formed. */
  lemma PushStack(edges: seq<Edge>, f: Forest, v: nat, parent: Option<nat>, via: nat)
    requires ForestOk(edges, f) && v !in f.ord && FromParent(edges, f, v, parent, via)
    ensures StackOk(Push(f, v, parent, via))
  {
    var g := Push(f, v, parent, via);
    assert g.stack == f.stack + [v] && g.ord == f.ord[v := f.count];
    forall i | 0 < i < |g.stack|
      ensures ParentBelow(g, i)
    {
      if i < |f.stack| {
        assert ParentBelow(f, i) && g.stack[i] == f.stack[i] && g.stack[i - 1] == f.stack[i - 1];
      }
    }
  }

  /** Discovering an unmarked node keeps the search state and extends the forest. */
  lemma PushOk(edges: seq<Edge>, f: Forest, v: nat, parent: Option<nat>, via: nat)
    requires ForestOk(edges, f) && v !in f.ord && FromParent(edges, f, v, parent, via)
    ensures ForestOk(edges, Push(f, v, parent, via)) && Extends(f, Push(f, v, parent, via))
    ensures Adopted(f, Push(f, v, parent, via), v, parent, via)
    ensures Push(f, v, parent, via).stack == f.stack + [v]
  {
    var g := Push(f, v, parent, via);
    assert g.ord == f.ord[v := f.count] && g.stack == f.stack + [v] && g.count == f.count + 1;
    assert Extends(f, g);
    assert parent.Some? ==> parent.value in f.ord by {
      if parent.Some? {
        assert f.stack[|f.stack| - 1] in f.ord;
      }
    }
    PushTree(edges, f, v, parent, via);
    PushStack(edges, f, v, parent, via);
    forall x | x in g.ord && x !in g.stack
      ensures Finished(edges, g, x)
    {
      assert x in f.ord && x !in f.stack;
      FinishedMono(edges, f, g, x);
    }
  }

  /** Tree edges of distinct nodes are distinct edges. */
  lemma TreeInjective(edges: seq<Edge>, f: Forest, a: nat, b: nat)
    requires TreeEdges(edges, f) && a in f.par && b in f.par && f.tree[a] == f.tree[b]
    ensures a == b
  {
  }

  /**
   * The node with the larger discovery number at either end of a tree edge is the node it
   * is the tree edge of; in particular no tree edge is a self-loop.
   */
  lemma TreeEdgeAtMax(edges: seq<Edge>, f: Forest, k: nat, m: nat, x: nat)
    requires TreeEdges(edges, f) && IsTreeEdge(f, k) && k < |edges| && edges[k].Joins(m, x)
    requires m in f.ord && x in f.ord && f.ord[x] <= f.ord[m]
    ensures m in f.par && m in f.tree && f.tree[m] == k && x != m
  {
    var a :| a in f.par && a in f.tree && f.tree[a] == k;
    assert a == m || a == x;
  }

  /** A position of `s` whose node has the largest discovery number. */
  lemma {:induction false} MaxPosition(ord: map<nat, nat>, s: seq<nat>) returns (i: nat)
    requires |s| > 0 && forall j :: 0 <= j < |s| ==> s[j] in ord
    ensures i < |s| && forall j :: 0 <= j < |s| ==> ord[s[j]] <= ord[s[i]]
  {
    if |s| == 1 {
      return 0;
    }
    var i' := MaxPosition(ord, s[..|s| - 1]);
    assert forall j :: 0 <= j < |s| - 1 ==> s[..|s| - 1][j] == s[j];
    if ord[s[|s| - 1]] <= ord[s[i']] {
      i := i';
    } else {
      i := |s| - 1;
    }
  }

  /**
   * A forest has no circuit: on a circuit made of tree edges, both edges at the node
   * discovered last would be that node's own tree edge.
   */
  lemma ForestNoCircuit(edges: seq<Edge>, f: Forest, w: Walk)
    requires TreeEdges(edges, f) && forall k :: 0 <= k < |edges| ==> IsTreeEdge(f, k)
    ensures !IsCircuit(edges, w)
  {
    if IsCircuit(edges, w) {
      var n := |w.via|;
      forall j | 0 <= j < n
        ensures w.nodes[j] in f.ord
      {
        assert IsTreeEdge(f, w.via[j]);
        var a :| a in f.par && a in f.tree && f.tree[a] == w.via[j];
        assert edges[w.via[j]].Joins(f.par[a], a) && edges[w.via[j]].Joins(w.nodes[j], w.nodes[j + 1]);
      }
      var i := MaxPosition(f.ord, w.nodes[..n]);
      assert forall j :: 0 <= j < n ==> w.nodes[..n][j] == w.nodes[j];
      var m := w.nodes[i];
      var next := w.nodes[i + 1];
      assert f.ord[next] <= f.ord[m] by {
        if i + 1 < n {
          assert w.nodes[..n][i + 1] == next;
        } else {
          assert next == w.nodes[0];
        }
      }
      TreeEdgeAtMax(edges, f, w.via[i], m, next);
      if n == 1 {
        assert false;
      } else {
        var p := if i == 0 then n - 1 else i - 1;
        assert w.nodes[p + 1] == m;
        TreeEdgeAtMax(edges, f, w.via[p], m, w.nodes[p]);
        assert false;
      }
    }
  }

  /** Once every node is finished, every edge is a tree edge, so there is no circuit. */
  lemma AllFinishedNoCircuit(edges: seq<Edge>, f: Forest)
    requires ForestOk(edges, f) && f.stack == []
    requires forall k :: 0 <= k < |edges| ==> edges[k].from in f.ord && edges[k].to in f.ord
    ensures !HasCircuit(edges)
  {
    forall k | 0 <= k < |edges|
      ensures IsTreeEdge(f, k)
    {
      var a, b := edges[k].from, edges[k].to;
      assert Finished(edges, f, a) && edges[k].Joins(a, b);
      if b in f.par && f.par[b] == a && b in f.tree && f.tree[b] == k {
        assert IsTreeEdge(f, k);
      } else {
        assert a in f.par && f.par[a] == b;
        assert Finished(edges, f, b) && edges[k].Joins(b, a);
        assert !(b in f.par && f.par[b] == a);
        assert a in f.tree && f.tree[a] == k;
      }
    }
    forall w
      ensures !IsCircuit(edges, w)
    {
      ForestNoCircuit(edges, f, w);
    }
  }

  /** The tree edges of the nodes of `s`, in order. */
  ghost function TreeEdgesOf(f: Forest, s: seq<nat>): (r: seq<nat>)
    requires forall x :: x in s ==> x in f.tree
    ensures |r| == |s| && forall j :: 0 <= j < |s| ==> r[j] == f.tree[s[j]]
  {
    if s == [] then [] else [f.tree[s[0]]] + TreeEdgesOf(f, s[1..])
  }

  /**
   * The walk up the stack from position `i` through the tree edges, and back down to
   * position `i` through edge `k`.
   */
  ghost function StackLoop(f: Forest, i: nat, k: nat): (w: Walk)
    requires i < |f.stack| && forall x :: x in f.stack[i + 1..] ==> x in f.tree
    ensures |w.via| == |f.stack| - i && |w.nodes| == |w.via| + 1
    ensures forall j :: 0 <= j < |w.nodes| - 1 ==> w.nodes[j] == f.stack[i + j]
    ensures w.nodes[|w.via|] == f.stack[i]
  {
    Walk(f.stack[i..] + [f.stack[i]], TreeEdgesOf(f, f.stack[i + 1..]) + [k])
  }

  /** Every node above position `i` of the stack has a tree edge. */
  lemma StackInTree(edges: seq<Edge>, f: Forest, i: nat)
    requires TreeEdges(edges, f) && StackOk(f) && i < |f.stack|
    ensures forall x :: x in f.stack[i + 1..] ==> x in f.par && x in f.tree
  {
    var s := f.stack;
    forall x | x in s[i + 1..]
      ensures x in f.par
    {
      var j :| 0 <= j < |s[i + 1..]| && s[i + 1..][j] == x;
      assert ParentBelow(f, i + 1 + j);
    }
  }

  /** Step `j` of the stack loop from position `i` crosses an edge. */
  lemma StackLoopStep(edges: seq<Edge>, f: Forest, i: nat, k: nat, j: nat)
    requires TreeEdges(edges, f) && StackOk(f) && i < |f.stack|
    requires k < |edges| && edges[k].Joins(f.stack[|f.stack| - 1], f.stack[i])
    requires forall x :: x in f.stack[i + 1..] ==> x in f.tree
    requires j < |StackLoop(f, i, k).via|
    ensures StackLoop(f, i, k).via[j] < |edges|
    ensures edges[StackLoop(f, i, k).via[j]].Joins(StackLoop(f, i, k).nodes[j], StackLoop(f, i, k).nodes[j + 1])
  {
    var s := f.stack;
    var w := StackLoop(f, i, k);
    var t := TreeEdgesOf(f, s[i + 1..]);
    assert w.via == t + [k];
    if j < |w.via| - 1 {
      var x := s[i + 1 + j];
      assert ParentBelow(f, i + 1 + j);
      assert w.via[j] == t[j] == f.tree[x];
      assert w.nodes[j] == f.par[x] && w.nodes[j + 1] == x;
    } else {
      assert w.via[j] == k && w.nodes[j] == s[|s| - 1] && w.nodes[j + 1] == s[i];
    }
  }

  /** The stack loop from position `i` crosses an edge at each step. */
  lemma StackLoopWalk(edges: seq<Edge>, f: Forest, i: nat, k: nat)
    requires TreeEdges(edges, f) && StackOk(f) && i < |f.stack|
    requires k < |edges| && edges[k].Joins(f.stack[|f.stack| - 1], f.stack[i])
    ensures forall x :: x in f.stack[i + 1..] ==> x in f.tree
    ensures IsWalk(edges, StackLoop(f, i, k))
  {
    StackInTree(edges, f, i);
    var w := StackLoop(f, i, k);
    forall j | 0 <= j < |w.via|
      ensures w.via[j] < |edges| && edges[w.via[j]].Joins(w.nodes[j], w.nodes[j + 1])
    {
      StackLoopStep(edges, f, i, k, j);
    }
  }

  /** Discovery numbers increase up the stack. */
  lemma {:induction false} StackOrd(edges: seq<Edge>, f: Forest, i: nat, j: nat)
    requires TreeEdges(edges, f) && StackOk(f) && i < j < |f.stack|
    ensures f.stack[i] in f.ord && f.stack[j] in f.ord && f.ord[f.stack[i]] < f.ord[f.stack[j]]
    decreases j - i
  {
    assert ParentBelow(f, j);
    if i + 1 < j {
      StackOrd(edges, f, i, j - 1);
    }
  }

  /** Two nodes above the bottom of the stack have distinct tree edges. */
  lemma StackTreeDistinct(edges: seq<Edge>, f: Forest, a: nat, b: nat)
    requires TreeEdges(edges, f) && StackOk(f) && 0 < a < b < |f.stack|
    ensures f.stack[a] in f.tree && f.stack[b] in f.tree && f.tree[f.stack[a]] != f.tree[f.stack[b]]
  {
    assert ParentBelow(f, a) && ParentBelow(f, b);
    StackOrd(edges, f, a, b);
    if f.tree[f.stack[a]] == f.tree[f.stack[b]] {
      TreeInjective(edges, f, f.stack[a], f.stack[b]);
    }
  }

  /**
   * Edge `k`, from the top of the stack down to position `i`, is not the tree edge of a
   * node above position `i`, unless `i` holds the parent of the top.
   */
  lemma StackBackDistinct(edges: seq<Edge>, f: Forest, i: nat, k: nat, a: nat)
    requires TreeEdges(edges, f) && StackOk(f)
    requires i < a < |f.stack| && i + 2 != |f.stack|
    requires k < |edges| && edges[k].Joins(f.stack[|f.stack| - 1], f.stack[i])
    ensures f.stack[a] in f.tree && f.tree[f.stack[a]] != k
  {
    var s := f.stack;
    var top := |s| - 1;
    var x := s[a];
    assert ParentBelow(f, a);
    assert edges[f.tree[x]].Joins(s[a - 1], x);
    StackOrd(edges, f, i, a);
    StackOrd(edges, f, a - 1, a);
    assert a < top ==> x != s[top] by {
      if a < top {
        StackOrd(edges, f, a, top);
      }
    }
    assert a == top ==> s[a - 1] != s[i] by {
      if a == top && i < a - 1 {
        StackOrd(edges, f, i, a - 1);
      }
    }
  }

  /**
   * The stack loop from position `i` crosses no edge twice: tree edges of distinct nodes
   * differ, and `k` is no tree edge up the stack unless it joins the top to its parent.
   */
  lemma StackLoopTrail(edges: seq<Edge>, f: Forest, i: nat, k: nat)
    requires TreeEdges(edges, f) && StackOk(f)
    requires i < |f.stack| && i + 2 != |f.stack|
    requires k < |edges| && edges[k].Joins(f.stack[|f.stack| - 1], f.stack[i])
    requires forall x :: x in f.stack[i + 1..] ==> x in f.tree
    ensures Distinct(StackLoop(f, i, k).via)
  {
    var up := f.stack[i + 1..];
    var t := TreeEdgesOf(f, up);
    forall j1, j2 | 0 <= j1 < j2 < |t|
      ensures t[j1] != t[j2]
    {
      StackTreeDistinct(edges, f, i + 1 + j1, i + 1 + j2);
    }
    forall x | x in [k]
      ensures x !in t
    {
      forall j | 0 <= j < |t|
        ensures t[j] != k
      {
        StackBackDistinct(edges, f, i, k, i + 1 + j);
      }
    }
    DistinctConcat(t, [k]);
  }

  /**
   * An edge from the top of the stack down to the node at position `i`, other than the
   * parent of the top, closes a circuit with the tree edges up the stack from there.
   */
  lemma StackCircuit(edges: seq<Edge>, f: Forest, i: nat, k: nat)
    requires TreeEdges(edges, f) && StackOk(f)
    requires i < |f.stack| && i + 2 != |f.stack|
    requires k < |edges| && edges[k].Joins(f.stack[|f.stack| - 1], f.stack[i])
    ensures HasCircuit(edges)
  {
    StackLoopWalk(edges, f, i, k);
    StackLoopTrail(edges, f, i, k);
    assert IsCircuit(edges, StackLoop(f, i, k));
  }

  /** A finished child `w` of `u`, joined to `u` by an edge other than its tree edge, closes a circuit. */
  lemma ChildCircuit(edges: seq<Edge>, f: Forest, u: nat, w: nat, k: nat)
    requires TreeEdges(edges, f) && w in f.par && f.par[w] == u
    requires k < |edges| && edges[k].Joins(u, w) && k != f.tree[w]
    ensures HasCircuit(edges)
  {
    var c := Walk([u, w, u], [f.tree[w], k]);
    assert IsCircuit(edges, c);
  }

  /**
   * The scan of `v`, on top of the stack, meets through entry `t` of its ordered incidence
   * list an already marked node `w` that is not its parent: there is a circuit. Either
   * `w` is on the stack, or it is finished, and then it can only be a child of `v`
   * reached through an earlier entry.
   */
  lemma BackEdgeCircuit(edges: seq<Edge>, f: Forest, v: nat, es: seq<nat>, t: nat, w: nat)
    requires TreeEdges(edges, f) && StackOk(f) && |f.stack| > 0 && f.stack[|f.stack| - 1] == v
    requires InsertionOrdered(edges, v, es) && t < |es| && es[t] < |edges| && edges[es[t]].Joins(v, w)
    requires w !in f.stack ==> Finished(edges, f, w)
    requires |f.stack| >= 2 ==> f.stack[|f.stack| - 2] != w
    requires ChildrenBefore(f, v, es, t)
    ensures HasCircuit(edges)
  {
    var s := f.stack;
    if w in s {
      var i :| 0 <= i < |s| && s[i] == w;
      StackCircuit(edges, f, i, es[t]);
    } else {
      FinishedAt(edges, f, w, es[t], v);
      assert !(v in f.par && f.par[v] == w) by {
        if v in f.par {
          assert |s| >= 2 && ParentBelow(f, |s| - 1);
        }
      }
      var j :| 0 <= j < t && es[j] == f.tree[w];
      assert es[j] != es[t] by {
        assert w != v;
      }
      ChildCircuit(edges, f, v, w, es[t]);
    }
  }

  /** The edges scanned before entry `t` still lead where they did once `w` is searched. */
  lemma ChildEdges(edges: seq<Edge>, g: Forest, g': Forest, v: nat, es: seq<nat>, t: nat, w: nat)
    requires t < |es| && es[t] < |edges| && edges[es[t]].Joins(v, w)
    requires v in g.ord && w !in g.ord
    requires Extends(g, g') && Adopted(g, g', w, Some(v), es[t])
    requires Scanned(edges, g, v, es, t)
    ensures Scanned(edges, g', v, es, t + 1)
  {
    forall j, y | 0 <= j < t + 1 && es[j] < |edges| && edges[es[j]].Joins(v, y)
      ensures (y in g'.par && g'.par[y] == v && y in g'.tree && g'.tree[y] == es[j]) || (v in g'.par && g'.par[v] == y)
    {
      if j == t {
        assert y == w;
      }
    }
  }

  /** The only new child of `v` after the search of `w` is `w`, reached through entry `t`. */
  lemma ChildTree(g: Forest, g': Forest, v: nat, es: seq<nat>, t: nat, w: nat)
    requires t < |es| && v in g.ord
    requires Extends(g, g') && Adopted(g, g', w, Some(v), es[t])
    requires ChildrenBefore(g, v, es, t)
    ensures ChildrenBefore(g', v, es, t + 1)
  {
    forall c | c in g'.par && g'.par[c] == v
      ensures c in g'.tree && exists j :: 0 <= j < t + 1 && es[j] == g'.tree[c]
    {
      if c !in g.par {
        assert c == w;
        assert es[t] == g'.tree[c];
      }
    }
  }

  /** Searching the child `w` of `v` keeps what the scan of `v` knows about the forest it began on. */
  lemma ChildAdopted(f: Forest, g: Forest, g': Forest, v: nat, parent: Option<nat>, via: nat, w: nat, k: nat)
    requires v !in f.ord && v in g.ord
    requires Extends(f, g) && Adopted(f, g, v, parent, via)
    requires Extends(g, g') && Adopted(g, g', w, Some(v), k)
    ensures Extends(f, g') && Adopted(f, g', v, parent, via)
  {
  }

  /** The scan of `v` after entry `t` led back to its parent. */
  lemma ParentScanned(edges: seq<Edge>, f: Forest, v: nat, es: seq<nat>, t: nat, w: nat)
    requires TreeEdges(edges, f)
    requires t < |es| && es[t] < |edges| && edges[es[t]].Joins(v, w)
    requires v in f.par && f.par[v] == w
    requires Scanned(edges, f, v, es, t) && ChildrenBefore(f, v, es, t)
    ensures Scanned(edges, f, v, es, t + 1) && ChildrenBefore(f, v, es, t + 1)
  {
    assert w != v;
  }

  /** Once the whole incidence list of `v` is scanned, every edge at `v` has been accounted for. */
  lemma ScannedFinished(edges: seq<Edge>, f: Forest, v: nat, es: seq<nat>)
    requires forall k :: k in es <==> 0 <= k < |edges| && edges[k].Touches(v)
    requires Scanned(edges, f, v, es, |es|)
    ensures Finished(edges, f, v)
  {
    forall k, y | 0 <= k < |edges| && edges[k].Joins(v, y)
      ensures (y in f.par && f.par[y] == v && y in f.tree && f.tree[y] == k) || (v in f.par && f.par[v] == y)
    {
      assert k in es;
      var j :| 0 <= j < |es| && es[j] == k;
    }
  }

  /** Popping the top of the stack keeps the stack well formed. */
  lemma PopStack(f: Forest, s: seq<nat>, v: nat)
    requires StackOk(f) && f.stack == s + [v]
    ensures StackOk(f.(stack := s))
  {
    var g := f.(stack := s);
    assert forall i :: 0 <= i < |s| ==> s[i] == f.stack[i];
    forall i | 0 < i < |s|
      ensures ParentBelow(g, i)
    {
      assert ParentBelow(f, i);
    }
  }

  /** Once the whole incidence list of `v` is scanned, `v` is finished and leaves the stack. */
  lemma PopForest(edges: seq<Edge>, f: Forest, s: seq<nat>, v: nat, es: seq<nat>)
    requires ForestOk(edges, f) && f.stack == s + [v]
    requires forall k :: k in es <==> 0 <= k < |edges| && edges[k].Touches(v)
    requires Scanned(edges, f, v, es, |es|)
    ensures ForestOk(edges, f.(stack := s))
  {
    var g := f.(stack := s);
    ScannedFinished(edges, f, v, es);
    PopStack(f, s, v);
    assert Extends(f, g);
    forall x | x in f.ord && x !in s
      ensures Finished(edges, g, x)
    {
      if x != v {
        assert x !in f.stack;
      }
      FinishedMono(edges, f, g, x);
    }
  }

  /**
   * The state of the scan of `v`, begun on the forest `f0` and now at entry `t` of its
   * incidence list `es`.
   */
  ghost predicate ScanState(edges: seq<Edge>, f0: Forest, f: Forest, v: nat, parent: Option<nat>,
                            via: nat, es: seq<nat>, t: nat) {
    && t <= |es|
    && v !in f0.ord && FromParent(edges, f0, v, parent, via)
    && ForestOk(edges, f) && f.stack == f0.stack + [v]
    && Extends(f0, f) && Adopted(f0, f, v, parent, via) && v in f.ord
    && Scanned(edges, f, v, es, t) && ChildrenBefore(f, v, es, t)
  }

  /** Discovering `v` starts its scan. */
  lemma ScanStart(edges: seq<Edge>, f0: Forest, v: nat, parent: Option<nat>, via: nat, es: seq<nat>)
    requires ForestOk(edges, f0) && v !in f0.ord && FromParent(edges, f0, v, parent, via)
    ensures ScanState(edges, f0, Push(f0, v, parent, via), v, parent, via, es, 0)
  {
    PushOk(edges, f0, v, parent, via);
  }

  /** An unmarked neighbour `w` of `v` can be searched as a child of `v`. */
  lemma ScanChild(edges: seq<Edge>, f0: Forest, f: Forest, v: nat, parent: Option<nat>, via: nat,
                  es: seq<nat>, t: nat, w: nat)
    requires ScanState(edges, f0, f, v, parent, via, es, t)
    requires t < |es| && es[t] < |edges| && edges[es[t]].Joins(v, w) && w !in f.ord
    ensures ForestOk(edges, f) && FromParent(edges, f, w, Some(v), es[t])
  {
  }

  /** The scan of `v` goes on after the search of its child `w` found no circuit. */
  lemma AfterChild(edges: seq<Edge>, f0: Forest, f: Forest, f': Forest, v: nat,
                   parent: Option<nat>, via: nat, es: seq<nat>, t: nat, w: nat)
    requires ScanState(edges, f0, f, v, parent, via, es, t)
    requires t < |es| && es[t] < |edges| && edges[es[t]].Joins(v, w) && w !in f.ord
    requires Searched(edges, f, f', w, Some(v), es[t])
    ensures ScanState(edges, f0, f', v, parent, via, es, t + 1)
  {
    ChildEdges(edges, f, f', v, es, t, w);
    ChildTree(f, f', v, es, t, w);
    ChildAdopted(f0, f, f', v, parent, via, w, es[t]);
  }

  /** A marked neighbour `w` of `v` other than its parent closes a circuit. */
  lemma BackEdge(edges: seq<Edge>, f0: Forest, f: Forest, v: nat, parent: Option<nat>, via: nat,
                 es: seq<nat>, t: nat, w: nat)
    requires ScanState(edges, f0, f, v, parent, via, es, t) && es == Incident(edges, v)
    requires t < |es| && es[t] < |edges| && edges[es[t]].Joins(v, w) && w in f.ord && parent != Some(w)
    ensures HasCircuit(edges)
  {
    assert |f.stack| >= 2 ==> f.stack[|f.stack| - 2] != w by {
      if |f.stack| >= 2 {
        assert f0.stack != [] && f.stack[|f.stack| - 2] == f0.stack[|f0.stack| - 1];
      }
    }
    assert w !in f.stack ==> Finished(edges, f, w);
    IncidentOrdered(edges, v);
    BackEdgeCircuit(edges, f, v, es, t, w);
  }

  /** The scan of `v` passes over its parent. */
  lemma AfterParent(edges: seq<Edge>, f0: Forest, f: Forest, v: nat, parent: Option<nat>, via: nat,
                    es: seq<nat>, t: nat, w: nat)
    requires ScanState(edges, f0, f, v, parent, via, es, t)
    requires t < |es| && es[t] < |edges| && edges[es[t]].Joins(v, w) && parent == Some(w)
    ensures ScanState(edges, f0, f, v, parent, via, es, t + 1)
  {
    ParentScanned(edges, f, v, es, t, w);
  }

  /** At the end of its incidence list `v` is finished; the forest without it on the stack is what its search returns. */
  lemma PopOk(edges: seq<Edge>, f0: Forest, f: Forest, v: nat, parent: Option<nat>, via: nat, es: seq<nat>)
    requires ScanState(edges, f0, f, v, parent, via, es, |es|)
    requires es == Incident(edges, v)
    ensures Searched(edges, f0, f.(stack := f0.stack), v, parent, via)
  {
    IncidentMembers(edges, v);
    PopForest(edges, f, f0.stack, v, es);
    var g := f.(stack := f0.stack);
    assert g.ord == f.ord && g.par == f.par && g.tree == f.tree;
  }

  /**
   * Soundness of `dfs_cycle_check`: a true answer comes with a circuit; a false one leaves
   * `v` finished in the search forest `f'`, which records exactly the nodes now visited.
   */
  lemma CheckSound(edges: seq<Edge>, nodes: set<nat>, marked: set<nat>, v: nat, parent: Option<nat>, via: nat,
                   f: Forest) returns (f': Forest)
    requires Covered(edges, nodes) && marked <= nodes && v in nodes && v !in marked
    requires ForestOk(edges, f) && f.ord.Keys == marked && FromParent(edges, f, v, parent, via)
    ensures CheckFrom(edges, nodes, marked, v, parent).0 ==> HasCircuit(edges)
    ensures !CheckFrom(edges, nodes, marked, v, parent).0 ==>
      Searched(edges, f, f', v, parent, via) && f'.ord.Keys == CheckFrom(edges, nodes, marked, v, parent).1
    decreases nodes - marked, 0
  {
    f' := f;
    IncidentEntries(edges, v);
    var es := Incident(edges, v);
    ScanStart(edges, f, v, parent, via, es);
    var g := Push(f, v, parent, via);
    assert g.ord.Keys == marked + {v};
    f' := ScanSound(edges, nodes, marked + {v}, f, g, v, parent, via, es, 0);
  }

  /** Soundness of the loop of `dfs_cycle_check` from entry `t` of the incidence list on. */
  lemma ScanSound(edges: seq<Edge>, nodes: set<nat>, marked: set<nat>, f0: Forest, f: Forest, v: nat,
                  parent: Option<nat>, via: nat, es: seq<nat>, t: nat) returns (f': Forest)
    requires Covered(edges, nodes) && marked <= nodes && es == Incident(edges, v) && AllTouch(edges, v, es)
    requires ScanState(edges, f0, f, v, parent, via, es, t) && f.ord.Keys == marked
    ensures ScanFrom(edges, nodes, marked, v, parent, es, t).0 ==> HasCircuit(edges)
    ensures !ScanFrom(edges, nodes, marked, v, parent, es, t).0 ==>
      Searched(edges, f0, f', v, parent, via) && f'.ord.Keys == ScanFrom(edges, nodes, marked, v, parent, es, t).1
    decreases nodes - marked, 1, |es| - t, 1
  {
    f' := f;
    if t == |es| {
      PopOk(edges, f0, f, v, parent, via, es);
      f' := f.(stack := f0.stack);
    } else {
      var w := edges[es[t]].GetOtherNode(v).value;
      if w !in marked {
        f' := ChildSound(edges, nodes, marked, f0, f, v, parent, via, es, t, w);
      } else if Some(w) != parent {
        BackEdge(edges, f0, f, v, parent, via, es, t, w);
      } else {
        AfterParent(edges, f0, f, v, parent, via, es, t, w);
        f' := ScanSound(edges, nodes, marked, f0, f, v, parent, via, es, t + 1);
      }
    }
  }

  /** Soundness of the loop of `dfs_cycle_check` when entry `t` leads to an unvisited node `w`. */
  lemma ChildSound(edges: seq<Edge>, nodes: set<nat>, marked: set<nat>, f0: Forest, f: Forest, v: nat,
                   parent: Option<nat>, via: nat, es: seq<nat>, t: nat, w: nat) returns (f': Forest)
    requires Covered(edges, nodes) && marked <= nodes && es == Incident(edges, v) && AllTouch(edges, v, es)
    requires ScanState(edges, f0, f, v, parent, via, es, t) && f.ord.Keys == marked
    requires t < |es| && w == edges[es[t]].GetOtherNode(v).value && w !in marked
    ensures ScanFrom(edges, nodes, marked, v, parent, es, t).0 ==> HasCircuit(edges)
    ensures !ScanFrom(edges, nodes, marked, v, parent, es, t).0 ==>
      Searched(edges, f0, f', v, parent, via) && f'.ord.Keys == ScanFrom(edges, nodes, marked, v, parent, es, t).1
    decreases nodes - marked, 1, |es| - t, 0
  {
    f' := f;
    ScanChild(edges, f0, f, v, parent, via, es, t, w);
    var g := CheckSound(edges, nodes, marked, w, Some(v), es[t], f);
    var r := CheckFrom(edges, nodes, marked, w, Some(v));
    if !r.0 {
      AfterChild(edges, f0, f, g, v, parent, via, es, t, w);
      f' := ScanSound(edges, nodes, r.1, f0, g, v, parent, via, es, t + 1);
    }
  }

  /**
   * Soundness of the loop of `has_cycle` from position `i` on: a true answer comes with a
   * circuit; a false one leaves a search forest with an empty stack recording exactly the
   * nodes then visited.
   */
  lemma SearchSound(edges: seq<Edge>, nodes: set<nat>, vs: seq<nat>, i: nat, marked: set<nat>, f: Forest)
    returns (f': Forest)
    requires Covered(edges, nodes) && marked <= nodes && i <= |vs| && forall j :: 0 <= j < |vs| ==> vs[j] in nodes
    requires ForestOk(edges, f) && f.stack == [] && f.ord.Keys == marked
    ensures CycleSearch(edges, nodes, vs, i, marked).0 ==> HasCircuit(edges)
    ensures !CycleSearch(edges, nodes, vs, i, marked).0 ==>
      ForestOk(edges, f') && f'.stack == [] && f'.ord.Keys == CycleSearch(edges, nodes, vs, i, marked).1
    decreases |vs| - i
  {
    f' := f;
    if i == |vs| {
    } else if vs[i] in marked {
      f' := SearchSound(edges, nodes, vs, i + 1, marked, f);
    } else {
      var g := CheckSound(edges, nodes, marked, vs[i], None, 0, f);
      var r := CheckFrom(edges, nodes, marked, vs[i], None);
      if !r.0 {
        f' := SearchSound(edges, nodes, vs, i + 1, r.1, g);
      }
    }
  }

  /** When the loop of `has_cycle` answers false, it has visited every node it was given. */
  lemma {:induction false} SearchVisitsAll(edges: seq<Edge>, nodes: set<nat>, vs: seq<nat>, i: nat, marked: set<nat>)
    requires Covered(edges, nodes) && marked <= nodes && i <= |vs| && forall j :: 0 <= j < |vs| ==> vs[j] in nodes
    ensures !CycleSearch(edges, nodes, vs, i, marked).0 ==>
      forall j :: i <= j < |vs| ==> vs[j] in CycleSearch(edges, nodes, vs, i, marked).1
    decreases |vs| - i
  {
    if i < |vs| {
      if vs[i] in marked {
        SearchVisitsAll(edges, nodes, vs, i + 1, marked);
      } else {
        var r := CheckFrom(edges, nodes, marked, vs[i], None);
        if !r.0 {
          SearchVisitsAll(edges, nodes, vs, i + 1, r.1);
        }
      }
    }
  }

  /** `has_cycle` answers true exactly when the graph has a circuit, when `vs` lists every node. */
  lemma SearchCorrect(edges: seq<Edge>, nodes: set<nat>, vs: seq<nat>)
    requires Covered(edges, nodes) && (forall j :: 0 <= j < |vs| ==> vs[j] in nodes) && forall x :: x in nodes ==> x in vs
    ensures CycleSearch(edges, nodes, vs, 0, {}).0 <==> HasCircuit(edges)
  {
    var f := SearchSound(edges, nodes, vs, 0, {}, Forest(map[], map[], map[], [], 0));
    SearchVisitsAll(edges, nodes, vs, 0, {});
    var r := CycleSearch(edges, nodes, vs, 0, {});
    if !r.0 {
      forall x | x in nodes
        ensures x in r.1
      {
        var j :| 0 <= j < |vs| && vs[j] == x;
      }
      AllFinishedNoCircuit(edges, f);
    }
  }
}
