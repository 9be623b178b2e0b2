/**
 * The scheduler: `MarkedGraph.unmarked_roots` peels off, one layer at a
 * time, the nodes whose every predecessor is already marked, and
 * `execution_order` collects the layers until none is left.
 *
 * `Ready` and `Layers` are the specification functions of the two methods;
 * the lemmas below say what a layered order built this way is: its layers
 * are non-empty and disjoint, every edge into a scheduled node comes from an
 * earlier layer, no node on a cycle is ever scheduled, and every node is
 * scheduled exactly when the graph is closed and acyclic.
 */
module Scheduler {
  import opened Wrappers
  import opened Graphs

  /** The edge relation as `(from, to)` pairs. */
  type Edges = set<(string, string)>

  /** Every predecessor of `k` is marked. */
  ghost predicate PredecessorsMarked(pairs: Edges, marked: set<string>, k: string)
  {
    forall f :: (f, k) in pairs ==> f in marked
  }

  /** The unmarked nodes all of whose predecessors are marked. */
  ghost function Ready(keys: set<string>, pairs: Edges, marked: set<string>): set<string>
  {
    set k | k in keys && k !in marked && PredecessorsMarked(pairs, marked, k)
  }

  /** A set of unmarked nodes holding exactly those whose predecessors are
      marked is the ready set. */
  lemma ReadyExactly(keys: set<string>, pairs: Edges, marked: set<string>, r: set<string>)
    requires r <= keys - marked
    requires forall k :: k in keys - marked ==> (k in r <==> PredecessorsMarked(pairs, marked, k))
    ensures r == Ready(keys, pairs, marked)
  {
  }

  /** The layers `execution_order` emits, starting from the marked set `marked`. */
  ghost function Layers(keys: set<string>, pairs: Edges, marked: set<string>): seq<set<string>>
    decreases |keys - marked|
  {
    var next := Ready(keys, pairs, marked);
    if next == {} then []
    else
      ReadyShrinks(keys, pairs, marked);
      [next] + Layers(keys, pairs, marked + next)
  }

  lemma ReadyShrinks(keys: set<string>, pairs: Edges, marked: set<string>)
    requires Ready(keys, pairs, marked) != {}
    ensures |keys - (marked + Ready(keys, pairs, marked))| < |keys - marked|
  {
    var a, b := keys - (marked + Ready(keys, pairs, marked)), keys - marked;
    var k :| k in Ready(keys, pairs, marked);
    assert k in b - a;
    assert a + (b - a) == b && a * (b - a) == {};
  }

  /** `all(from_key in marked for from_key, _ in in_edges(key))` asks
      exactly whether every predecessor of `key` is marked. */
  lemma InEdgesMarked<M(!new)>(edges: Adjacency<M>, marked: set<string>, key: string)
    ensures (forall p :: p in InEdges(edges, key) ==> p.0 in marked) <==> PredecessorsMarked(EdgePairs(edges), marked, key)
  {
    if forall p :: p in InEdges(edges, key) ==> p.0 in marked {
      forall f | (f, key) in EdgePairs(edges) ensures f in marked {
        assert HasEdge(edges, f, key);
        var i :| 0 <= i < |edges[f]| && edges[f][i].0 == key;
        assert edges[f][i] == (key, edges[f][i].1);
        assert (f, edges[f][i].1) in InEdges(edges, key);
      }
    }
  }

  /** Every node of some layer. */
  function Scheduled(order: seq<set<string>>): (s: set<string>)
    ensures forall k :: k in s <==> exists i :: 0 <= i < |order| && k in order[i]
  {
    if order == [] then {}
    else
      assert forall i :: 0 < i < |order| ==> order[i] == order[1..][i - 1];
      order[0] + Scheduled(order[1..])
  }

  /** `all(from_key in marked for from_key, _ in in_edges(key))`. */
  method InEdgesAllMarked<M(==,!new)>(edges: Adjacency<M>, marked: set<string>, key: string) returns (b: bool)
    ensures b <==> PredecessorsMarked(EdgePairs(edges), marked, key)
  {
    InEdgesMarked(edges, marked, key);
    b := forall p :: p in InEdges(edges, key) ==> p.0 in marked;
  }

  /** The loop of `unmarked_roots`: scans the unmarked nodes and keeps those
      whose every in-edge starts at a marked node. */
  method ReadyNodes<M(==,!new)>(keys: set<string>, edges: Adjacency<M>, marked: set<string>) returns (toMark: set<string>)
    ensures toMark == Ready(keys, EdgePairs(edges), marked)
  {
    ghost var pairs := EdgePairs(edges);
    toMark := {};
    var todo := keys - marked;
    while todo != {}
      invariant todo <= keys - marked
      invariant forall x :: x in keys - marked && x !in todo ==> (x in toMark <==> PredecessorsMarked(pairs, marked, x))
      invariant forall x :: x in toMark ==> x in keys - marked && x !in todo
      decreases |todo|
    {
      var k :| k in todo;
      var ready := InEdgesAllMarked(edges, marked, k);
      if ready {
        toMark := toMark + {k};
      }
      todo := todo - {k};
    }
    ReadyExactly(keys, pairs, marked, toMark);
  }

  /**
   * `MarkedGraph`: a copy of a graph's nodes and edges together with the
   * set of nodes already marked.
   */
  class MarkedGraph<V, M(==,!new)> {
    var nodes: map<string, V>
    var edges: Adjacency<M>
    var marked: set<string>

    /** `MarkedGraph.from_graph(graph)`: nothing is marked yet. */
    constructor FromGraph(g: Graph<V, M>)
      ensures nodes == g.nodes && edges == g.edges && marked == {}
    {
      nodes := g.nodes;
      edges := g.edges;
      marked := {};
    }

    /** `unmarked_roots()`: marks and returns the unmarked nodes whose
        predecessors are all marked. */
    method UnmarkedRoots() returns (toMark: set<string>)
      modifies this`marked
      ensures toMark == Ready(nodes.Keys, EdgePairs(edges), old(marked))
      ensures marked == old(marked) + toMark
      ensures toMark !! old(marked) && toMark <= nodes.Keys
      ensures forall a, b :: a in toMark && b in toMark ==> (a, b) !in EdgePairs(edges)
    {
      toMark := ReadyNodes(nodes.Keys, edges, marked);
      marked := marked + toMark;
    }
  }

  /** `execution_order(attr_graph)`: the layers, until no node is ready. */
  method ExecutionOrder<V, M(==,!new)>(g: Graph<V, M>) returns (order: seq<set<string>>)
    ensures order == Layers(g.nodes.Keys, EdgePairs(g.edges), {})
  {
    var m := new MarkedGraph.FromGraph(g);
    ghost var keys, pairs := g.nodes.Keys, EdgePairs(g.edges);
    order := [];
    ghost var prev: set<string> := {};
    var roots := m.UnmarkedRoots();
    Concat([], [], Layers(keys, pairs, prev));
    while roots != {}
      invariant m.nodes == g.nodes && m.edges == g.edges
      invariant roots == Ready(keys, pairs, prev) && m.marked == prev + roots
      invariant order + Layers(keys, pairs, prev) == Layers(keys, pairs, {})
      decreases |keys - prev|
    {
      ReadyShrinks(keys, pairs, prev);
      LayersUnfold(keys, pairs, prev);
      Concat(order, [roots], Layers(keys, pairs, prev + roots));
      order := order + [roots];
      prev := m.marked;
      roots := m.UnmarkedRoots();
    }
    LayersUnfold(keys, pairs, prev);
  }

  lemma Concat(a: seq<set<string>>, b: seq<set<string>>, c: seq<set<string>>)
    ensures (a + b) + c == a + (b + c) && [] + c == c
  {
  }

  /** One step of `Layers`: the ready set, then the layers after marking it. */
  lemma LayersUnfold(keys: set<string>, pairs: Edges, marked: set<string>)
    ensures var next := Ready(keys, pairs, marked);
      Layers(keys, pairs, marked) == if next == {} then [] else [next] + Layers(keys, pairs, marked + next)
  {
  }

  /** Every layer is a non-empty set of unmarked nodes. */
  lemma {:induction false} LayersShape(keys: set<string>, pairs: Edges, marked: set<string>)
    ensures forall i :: 0 <= i < |Layers(keys, pairs, marked)| ==>
      Layers(keys, pairs, marked)[i] != {} && Layers(keys, pairs, marked)[i] <= keys && Layers(keys, pairs, marked)[i] !! marked
    decreases |keys - marked|
  {
    var next := Ready(keys, pairs, marked);
    if next != {} {
      ReadyShrinks(keys, pairs, marked);
      LayersShape(keys, pairs, marked + next);
    }
  }

  /** No node is scheduled twice. */
  lemma {:induction false} LayersDisjoint(keys: set<string>, pairs: Edges, marked: set<string>)
    ensures forall i, j :: 0 <= i < j < |Layers(keys, pairs, marked)| ==>
      Layers(keys, pairs, marked)[i] !! Layers(keys, pairs, marked)[j]
    decreases |keys - marked|
  {
    var next := Ready(keys, pairs, marked);
    if next != {} {
      ReadyShrinks(keys, pairs, marked);
      LayersDisjoint(keys, pairs, marked + next);
      LayersShape(keys, pairs, marked + next);
    }
  }

  /** Every edge into a node of `order` starts at a node of `marked` or of
      an earlier layer. */
  ghost predicate Topological(order: seq<set<string>>, pairs: Edges, marked: set<string>)
  {
    forall i, a, b :: 0 <= i < |order| && b in order[i] && (a, b) in pairs ==>
      a in marked || exists j :: 0 <= j < i && a in order[j]
  }

  /** Putting in front a layer whose predecessors are marked keeps the
      order topological. */
  lemma ConsTopological(next: set<string>, rest: seq<set<string>>, pairs: Edges, marked: set<string>)
    requires forall b :: b in next ==> PredecessorsMarked(pairs, marked, b)
    requires Topological(rest, pairs, marked + next)
    ensures Topological([next] + rest, pairs, marked)
  {
    var order := [next] + rest;
    forall i, a, b | 0 <= i < |order| && b in order[i] && (a, b) in pairs
      ensures a in marked || exists j :: 0 <= j < i && a in order[j]
    {
      if i == 0 {
        assert PredecessorsMarked(pairs, marked, b);
      } else {
        assert b in rest[i - 1];
        if a in next {
          assert a in order[0];
        } else if a !in marked {
          var j :| 0 <= j < i - 1 && a in rest[j];
          assert a in order[j + 1];
        }
      }
    }
  }

  /** Every edge into a scheduled node starts at a marked node or at a node
      of an earlier layer. */
  lemma {:induction false} LayersTopological(keys: set<string>, pairs: Edges, marked: set<string>)
    ensures Topological(Layers(keys, pairs, marked), pairs, marked)
    decreases |keys - marked|
  {
    var next := Ready(keys, pairs, marked);
    LayersUnfold(keys, pairs, marked);
    if next != {} {
      ReadyShrinks(keys, pairs, marked);
      LayersTopological(keys, pairs, marked + next);
      ConsTopological(next, Layers(keys, pairs, marked + next), pairs, marked);
    }
  }

  /** The nodes of one layer have no edge between them. */
  lemma LayerIndependent(keys: set<string>, pairs: Edges, i: nat, a: string, b: string)
    requires i < |Layers(keys, pairs, {})| && a in Layers(keys, pairs, {})[i] && b in Layers(keys, pairs, {})[i]
    ensures (a, b) !in pairs
  {
    if (a, b) in pairs {
      LayersTopological(keys, pairs, {});
      LayersDisjoint(keys, pairs, {});
    }
  }

  /** After the last layer no node is ready: the loop stops at a fixpoint. */
  lemma {:induction false} LayersFixpoint(keys: set<string>, pairs: Edges, marked: set<string>)
    ensures Ready(keys, pairs, marked + Scheduled(Layers(keys, pairs, marked))) == {}
    decreases |keys - marked|
  {
    var next := Ready(keys, pairs, marked);
    if next != {} {
      ReadyShrinks(keys, pairs, marked);
      var rest := Layers(keys, pairs, marked + next);
      LayersFixpoint(keys, pairs, marked + next);
      assert Scheduled([next] + rest) == next + Scheduled(rest) by {
        assert ([next] + rest)[1..] == rest;
      }
    }
  }

  /** `p` follows edges and ends where it started. */
  ghost predicate IsCycle(pairs: Edges, p: seq<string>)
  {
    |p| >= 2 && p[0] == p[|p| - 1] && forall t :: 0 <= t < |p| - 1 ==> (p[t], p[t + 1]) in pairs
  }

  ghost predicate Within(p: seq<string>, keys: set<string>)
  {
    forall t :: 0 <= t < |p| ==> p[t] in keys
  }

  /** No cycle runs through nodes only. */
  ghost predicate Acyclic(keys: set<string>, pairs: Edges)
  {
    forall p :: !(IsCycle(pairs, p) && Within(p, keys))
  }

  /** Every edge into a node starts at a node. */
  ghost predicate Closed(keys: set<string>, pairs: Edges)
  {
    forall f, k :: (f, k) in pairs && k in keys ==> f in keys
  }

  /** No node on a cycle is ever scheduled: each would need its predecessor
      on the cycle scheduled first. */
  lemma {:induction false} CycleNeverScheduled(keys: set<string>, pairs: Edges, p: seq<string>, i: nat)
    requires IsCycle(pairs, p) && i < |Layers(keys, pairs, {})|
    ensures forall t :: 0 <= t < |p| ==> p[t] !in Layers(keys, pairs, {})[i]
    decreases i
  {
    var order := Layers(keys, pairs, {});
    LayersTopological(keys, pairs, {});
    forall t | 0 <= t < |p| ensures p[t] !in order[i] {
      if p[t] in order[i] {
        var s := if t > 0 then t - 1 else |p| - 2;
        assert (p[s], p[t]) in pairs by {
          if t == 0 {
            assert (p[|p| - 2], p[|p| - 1]) in pairs;
          }
        }
        var j :| 0 <= j < i && p[s] in order[j];
        CycleNeverScheduled(keys, pairs, p, j);
      }
    }
  }

  /** Some edge into `x` starts inside `u`. */
  ghost predicate HasPredecessorIn(u: set<string>, pairs: Edges, x: string)
  {
    exists f :: f in u && (f, x) in pairs
  }

  /** A sequence longer than the set its elements come from repeats one. */
  lemma {:induction false} Pigeonhole(w: seq<string>, u: set<string>) returns (i: nat, j: nat)
    requires forall t :: 0 <= t < |w| ==> w[t] in u
    requires |w| > |u|
    ensures i < j < |w| && w[i] == w[j]
    decreases |w|
  {
    var last := w[|w| - 1];
    if exists t :: 0 <= t < |w| - 1 && w[t] == last {
      i :| 0 <= i < |w| - 1 && w[i] == last;
      j := |w| - 1;
    } else {
      i, j := Pigeonhole(w[..|w| - 1], u - {last});
    }
  }

  /** In a set where every node has a predecessor inside the set, one can
      walk backwards along edges for as long as one likes. */
  lemma BackWalk(u: set<string>, pairs: Edges, start: string, n: nat) returns (w: seq<string>)
    requires start in u
    requires forall x :: x in u ==> HasPredecessorIn(u, pairs, x)
    ensures |w| == n + 1
    ensures forall t :: 0 <= t < |w| ==> w[t] in u
    ensures forall t :: 0 <= t < |w| - 1 ==> (w[t + 1], w[t]) in pairs
  {
    w := [start];
    while |w| < n + 1
      invariant 1 <= |w| <= n + 1
      invariant forall t :: 0 <= t < |w| ==> w[t] in u
      invariant forall t :: 0 <= t < |w| - 1 ==> (w[t + 1], w[t]) in pairs
    {
      var f :| f in u && (f, w[|w| - 1]) in pairs;
      w := w + [f];
    }
  }

  /** A non-empty set where every node has a predecessor inside the set
      holds a cycle. */
  lemma CycleIn(u: set<string>, pairs: Edges, start: string) returns (p: seq<string>)
    requires start in u
    requires forall x :: x in u ==> HasPredecessorIn(u, pairs, x)
    ensures IsCycle(pairs, p) && Within(p, u)
  {
    var w := BackWalk(u, pairs, start, |u|);
    var i, j := Pigeonhole(w, u);
    p := Reversed(w, pairs, i, j);
    forall t | 0 <= t < |p| ensures p[t] in u {
      assert p[t] == w[j - t];
    }
  }

  /** The stretch `w[i..j+1]` of a backward walk with `w[i] == w[j]`, read
      forwards, is a cycle. */
  lemma Reversed(w: seq<string>, pairs: Edges, i: nat, j: nat) returns (p: seq<string>)
    requires i < j < |w| && w[i] == w[j]
    requires forall t :: 0 <= t < |w| - 1 ==> (w[t + 1], w[t]) in pairs
    ensures IsCycle(pairs, p)
    ensures |p| == j - i + 1 && forall t :: 0 <= t < |p| ==> p[t] == w[j - t]
  {
    p := [w[j]];
    var t := j;
    while t > i
      invariant i <= t <= j && |p| == j - t + 1
      invariant forall s :: 0 <= s < |p| ==> p[s] == w[j - s]
    {
      t := t - 1;
      p := p + [w[t]];
    }
    forall s | 0 <= s < |p| - 1 ensures (p[s], p[s + 1]) in pairs {
      assert (w[j - s], w[j - s - 1]) in pairs;
    }
  }

  /** When nothing more is ready on a closed graph, every unscheduled node
      has an unscheduled predecessor. */
  lemma StuckHavePredecessors(keys: set<string>, pairs: Edges, done: set<string>)
    requires Closed(keys, pairs) && Ready(keys, pairs, done) == {}
    ensures forall x :: x in keys - done ==> HasPredecessorIn(keys - done, pairs, x)
  {
    forall x | x in keys - done ensures HasPredecessorIn(keys - done, pairs, x) {
      assert x !in Ready(keys, pairs, done);
      var f :| (f, x) in pairs && f !in done;
      assert f in keys - done;
    }
  }

  /** On a closed acyclic graph every node is scheduled. */
  lemma LayersComplete(keys: set<string>, pairs: Edges)
    requires Closed(keys, pairs) && Acyclic(keys, pairs)
    ensures Scheduled(Layers(keys, pairs, {})) == keys
  {
    var done := Scheduled(Layers(keys, pairs, {}));
    ScheduledWithin(keys, pairs);
    var u := keys - done;
    if u != {} {
      LayersFixpoint(keys, pairs, {});
      assert {} + done == done;
      StuckHavePredecessors(keys, pairs, done);
      var start :| start in u;
      var p := CycleIn(u, pairs, start);
      assert Within(p, keys);
    }
  }

  /** Only nodes are scheduled. */
  lemma ScheduledWithin(keys: set<string>, pairs: Edges)
    ensures Scheduled(Layers(keys, pairs, {})) <= keys
  {
    LayersShape(keys, pairs, {});
  }

  /** If every node is scheduled, every edge into a node starts at a node. */
  lemma LayersClosed(keys: set<string>, pairs: Edges)
    requires Scheduled(Layers(keys, pairs, {})) == keys
    ensures Closed(keys, pairs)
  {
    LayersShape(keys, pairs, {});
    LayersTopological(keys, pairs, {});
    TopologicalClosed(Layers(keys, pairs, {}), pairs, keys);
  }

  /** A topological plan of node sets that schedules every node leaves no
      edge into a node from outside the nodes. */
  lemma TopologicalClosed(order: seq<set<string>>, pairs: Edges, keys: set<string>)
    requires Topological(order, pairs, {})
    requires forall i :: 0 <= i < |order| ==> order[i] <= keys
    requires Scheduled(order) == keys
    ensures Closed(keys, pairs)
  {
    forall f, k | (f, k) in pairs && k in keys ensures f in keys {
      var i :| 0 <= i < |order| && k in order[i];
      assert f in {} || exists j :: 0 <= j < i && f in order[j];
      var j :| 0 <= j < i && f in order[j];
      assert order[j] <= keys;
    }
  }

  /** If every node is scheduled, no cycle runs through the nodes. */
  lemma LayersAcyclic(keys: set<string>, pairs: Edges)
    requires Scheduled(Layers(keys, pairs, {})) == keys
    ensures Acyclic(keys, pairs)
  {
    var order := Layers(keys, pairs, {});
    forall p ensures !(IsCycle(pairs, p) && Within(p, keys)) {
      if IsCycle(pairs, p) && Within(p, keys) {
        assert p[0] in keys;
        var i :| 0 <= i < |order| && p[0] in order[i];
        CycleNeverScheduled(keys, pairs, p, i);
      }
    }
  }

  /** `execution_order` schedules every node exactly when every edge into a
      node starts at a node and no cycle runs through the nodes. */
  lemma LayersCompleteIff(keys: set<string>, pairs: Edges)
    ensures Scheduled(Layers(keys, pairs, {})) == keys <==> Closed(keys, pairs) && Acyclic(keys, pairs)
  {
    if Closed(keys, pairs) && Acyclic(keys, pairs) {
      LayersComplete(keys, pairs);
    }
    if Scheduled(Layers(keys, pairs, {})) == keys {
      LayersClosed(keys, pairs);
      LayersAcyclic(keys, pairs);
    }
  }

  /** Two nodes feeding each other: the loop stops at once and the plan is
      empty, with nothing to say the nodes were left out. */
  lemma TwoCycleUnscheduled()
    ensures Layers({"a", "b"}, {("a", "b"), ("b", "a")}, {}) == []
  {
    var keys, pairs := {"a", "b"}, {("a", "b"), ("b", "a")};
    assert !PredecessorsMarked(pairs, {}, "a") by {
      assert ("b", "a") in pairs;
    }
    assert !PredecessorsMarked(pairs, {}, "b") by {
      assert ("a", "b") in pairs;
    }
    assert Ready(keys, pairs, {}) == {};
    LayersUnfold(keys, pairs, {});
  }

  /** The layering leaves no node out exactly when the graph is closed and
      acyclic; then it schedules every node. */
  lemma CheckedPlan(keys: set<string>, pairs: Edges)
    ensures var missing := keys - Scheduled(Layers(keys, pairs, {}));
      (missing == {} <==> Closed(keys, pairs) && Acyclic(keys, pairs)) &&
      (missing == {} ==> Scheduled(Layers(keys, pairs, {})) == keys)
  {
    ScheduledWithin(keys, pairs);
    LayersCompleteIff(keys, pairs);
  }

  /** The nodes a plan leaves out. */
  datatype PlanError = Unschedulable(nodes: set<string>)

  /** `execution_order` that reports the nodes it cannot schedule instead
      of returning a partial plan. */
  method CheckedExecutionOrder<V, M(==,!new)>(g: Graph<V, M>) returns (r: Result<seq<set<string>>, PlanError>)
    ensures r.Success? <==> Closed(g.nodes.Keys, EdgePairs(g.edges)) && Acyclic(g.nodes.Keys, EdgePairs(g.edges))
    ensures r.Success? ==> r.value == Layers(g.nodes.Keys, EdgePairs(g.edges), {}) && Scheduled(r.value) == g.nodes.Keys
    ensures r.Failure? ==> r.error.nodes != {} && r.error.nodes == g.nodes.Keys - Scheduled(Layers(g.nodes.Keys, EdgePairs(g.edges), {}))
  {
    var order := ExecutionOrder(g);
    CheckedPlan(g.nodes.Keys, EdgePairs(g.edges));
    var missing := g.nodes.Keys - Scheduled(order);
    if missing == {} {
      r := Success(order);
    } else {
      r := Failure(Unschedulable(missing));
    }
  }
}
