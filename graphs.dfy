/**
 * The directed property graph shared by the entity graph and the attribute
 * graph: nodes map a key to a payload, and an adjacency map sends a source
 * key to its ordered list of (destination key, metadata) pairs.
 *
 * The read-only scans (`in_edges`, `out_edges`, `roots`) are functions of the
 * adjacency map so that the scheduler's marked copy can use them too; the
 * updates are the methods of class `Graph`.
 */
module Graphs {
  import opened Wrappers

  type Adjacency<M> = map<string, seq<(string, M)>>

  /** Some entry of the list goes to `to`. */
  predicate HasTarget<M>(outs: seq<(string, M)>, to: string)
  {
    exists i :: 0 <= i < |outs| && outs[i].0 == to
  }

  /** There is an edge `from -> to`. */
  predicate HasEdge<M>(edges: Adjacency<M>, from: string, to: string)
  {
    from in edges && HasTarget(edges[from], to)
  }

  /** What `add_edge` keeps true: at most one edge per ordered pair, and an
      adjacency entry exists only once an edge has been appended to it. */
  predicate WellFormed<M>(edges: Adjacency<M>)
  {
    forall f :: f in edges ==>
      edges[f] != [] &&
      forall i, j :: 0 <= i < j < |edges[f]| ==> edges[f][i].0 != edges[f][j].0
  }

  /** `add_edge(from, to, meta)` on an adjacency map: a second edge to the
      same destination is dropped, otherwise `(to, meta)` is appended. */
  function WithEdge<M>(edges: Adjacency<M>, from: string, to: string, meta: M): Adjacency<M>
  {
    var outs := if from in edges then edges[from] else [];
    if HasTarget(outs, to) then edges else edges[from := outs + [(to, meta)]]
  }

  /** `in_edges(key)`: the (source, metadata) pairs of the edges ending at `key`. */
  function InEdges<M(==,!new)>(edges: Adjacency<M>, key: string): (r: set<(string, M)>)
    ensures forall f, m :: (f, m) in r <==> f in edges && (key, m) in edges[f]
    ensures forall f :: HasEdge(edges, f, key) <==> exists m :: (f, m) in r
  {
    var r := set f, i | f in edges && 0 <= i < |edges[f]| && edges[f][i].0 == key :: (f, edges[f][i].1);
    assert forall f, m :: (f, m) in r <==> f in edges && (key, m) in edges[f] by {
      forall f, m | f in edges && (key, m) in edges[f] ensures (f, m) in r {
        var i :| 0 <= i < |edges[f]| && edges[f][i] == (key, m);
        assert (f, edges[f][i].1) in r;
      }
    }
    assert forall f :: HasEdge(edges, f, key) ==> exists m :: (f, m) in r by {
      forall f | HasEdge(edges, f, key) ensures exists m :: (f, m) in r {
        var i :| 0 <= i < |edges[f]| && edges[f][i].0 == key;
        assert (f, edges[f][i].1) in r;
      }
    }
    r
  }

  datatype KeyError = KeyError(key: string)

  /** `out_edges(key)`: the adjacency list of `key`, or a `KeyError` when
      `key` has never been the source of an edge. The Python generator raises
      the `KeyError` only when first iterated; the model reports it at the
      call. */
  function OutEdges<M>(edges: Adjacency<M>, key: string): (r: Result<seq<(string, M)>, KeyError>)
    ensures r.Failure? <==> key !in edges
    ensures r.Failure? ==> r.error == KeyError(key)
    ensures r.Success? ==> forall t :: HasTarget(r.value, t) <==> HasEdge(edges, key, t)
  {
    if key in edges then Success(edges[key]) else Failure(KeyError(key))
  }

  /** `roots()`: the nodes no edge ends at. */
  function Roots<V, M(==,!new)>(nodes: map<string, V>, edges: Adjacency<M>): (r: set<string>)
    ensures forall k :: k in r <==> k in nodes && forall f :: !HasEdge(edges, f, k)
  {
    var r := set k | k in nodes && InEdges(edges, k) == {};
    assert forall k :: k in r <==> k in nodes && forall f :: !HasEdge(edges, f, k) by {
      forall k | k in nodes && InEdges(edges, k) != {} ensures exists f :: HasEdge(edges, f, k) {
        var p :| p in InEdges(edges, k);
        assert p.0 in edges && (k, p.1) in edges[p.0];
        var i :| 0 <= i < |edges[p.0]| && edges[p.0][i] == (k, p.1);
        assert HasEdge(edges, p.0, k);
      }
    }
    r
  }

  /** Adding an edge adds exactly that pair to the edge relation. */
  lemma WithEdgeHasEdge<M>(edges: Adjacency<M>, from: string, to: string, meta: M, a: string, b: string)
    ensures HasEdge(WithEdge(edges, from, to, meta), a, b) <==> HasEdge(edges, a, b) || (a == from && b == to)
  {
    var outs := if from in edges then edges[from] else [];
    if !HasTarget(outs, to) && a == from {
      var r := outs + [(to, meta)];
      assert r[|outs|].0 == to;
      if HasTarget(r, b) && b != to {
        var i :| 0 <= i < |r| && r[i].0 == b;
        assert i < |outs| && outs[i].0 == b;
      }
      if HasEdge(edges, a, b) {
        var i :| 0 <= i < |outs| && outs[i].0 == b;
        assert r[i].0 == b;
      }
    }
  }

  /** The ordered pairs joined by an edge. */
  function EdgePairs<M>(edges: Adjacency<M>): (pairs: set<(string, string)>)
    ensures forall f, t :: (f, t) in pairs <==> HasEdge(edges, f, t)
  {
    var pairs := set f, i | f in edges && 0 <= i < |edges[f]| :: (f, edges[f][i].0);
    assert forall f, t :: HasEdge(edges, f, t) ==> (f, t) in pairs by {
      forall f, t | HasEdge(edges, f, t) ensures (f, t) in pairs {
        var i :| 0 <= i < |edges[f]| && edges[f][i].0 == t;
        assert (f, edges[f][i].0) in pairs;
      }
    }
    pairs
  }

  /** Adding an edge adds its pair to the edge relation and nothing else. */
  lemma WithEdgePairs<M>(edges: Adjacency<M>, from: string, to: string, meta: M)
    ensures EdgePairs(WithEdge(edges, from, to, meta)) == EdgePairs(edges) + {(from, to)}
  {
    forall a, b {
      WithEdgeHasEdge(edges, from, to, meta, a, b);
    }
  }

  /** Adding an edge that is already there changes nothing, whatever the
      metadata: the first edge's metadata wins. */
  lemma WithEdgeExisting<M>(edges: Adjacency<M>, from: string, to: string, meta: M)
    requires HasEdge(edges, from, to)
    ensures WithEdge(edges, from, to, meta) == edges
  {
  }

  /** `add_edge` is idempotent per ordered pair. */
  lemma WithEdgeIdempotent<M>(edges: Adjacency<M>, from: string, to: string, meta: M, meta': M)
    ensures WithEdge(WithEdge(edges, from, to, meta), from, to, meta') == WithEdge(edges, from, to, meta)
  {
    WithEdgeHasEdge(edges, from, to, meta, from, to);
  }

  /** `add_edge` keeps the adjacency map well formed. */
  lemma WithEdgeWellFormed<M>(edges: Adjacency<M>, from: string, to: string, meta: M)
    requires WellFormed(edges)
    ensures WellFormed(WithEdge(edges, from, to, meta))
  {
  }

  /** The incoming edges after `add_edge`: a new pair contributes its own
      metadata, an existing pair keeps the metadata it had. */
  lemma WithEdgeInEdges<M(!new)>(edges: Adjacency<M>, from: string, to: string, meta: M, key: string)
    ensures InEdges(WithEdge(edges, from, to, meta), key) ==
      InEdges(edges, key) + (if key == to && !HasEdge(edges, from, to) then {(from, meta)} else {})
  {
  }

  /** The out-edges of `key` are exactly the pairs whose in-edges mention `key`. */
  lemma OutInDuality<M(!new)>(edges: Adjacency<M>, key: string, to: string, meta: M)
    requires key in edges
    ensures (to, meta) in OutEdges(edges, key).value <==> (key, meta) in InEdges(edges, to)
  {
  }

  /** On a well-formed adjacency map `out_edges` fails exactly for a key
      that is the source of no edge. */
  lemma OutEdgesFailure<M>(edges: Adjacency<M>, key: string)
    requires WellFormed(edges)
    ensures OutEdges(edges, key).Failure? <==> forall t :: !HasEdge(edges, key, t)
  {
    if key in edges {
      assert HasEdge(edges, key, edges[key][0].0);
    }
  }

  /** Edge requests `(from, to, meta)` applied in order with `add_edge`. */
  function AddEdges<M>(edges: Adjacency<M>, requests: seq<(string, string, M)>): Adjacency<M>
  {
    if requests == [] then edges
    else
      var last := requests[|requests| - 1];
      WithEdge(AddEdges(edges, requests[..|requests| - 1]), last.0, last.1, last.2)
  }

  /** Applying two batches of requests is applying their concatenation. */
  lemma {:induction false} AddEdgesAppend<M>(edges: Adjacency<M>, first: seq<(string, string, M)>, second: seq<(string, string, M)>)
    ensures AddEdges(edges, first + second) == AddEdges(AddEdges(edges, first), second)
  {
    if second == [] {
      assert first + second == first;
    } else {
      var n := |second| - 1;
      AddEdgesAppend(edges, first, second[..n]);
      assert (first + second)[..|first + second| - 1] == first + second[..n];
    }
  }

  /** Some request asks for the pair `a -> b`. */
  predicate Requested<M>(requests: seq<(string, string, M)>, a: string, b: string)
  {
    exists i :: 0 <= i < |requests| && requests[i].0 == a && requests[i].1 == b
  }

  /** Request `i` is the first one asking for the pair `a -> b`. */
  predicate FirstRequest<M>(requests: seq<(string, string, M)>, i: int, a: string, b: string)
  {
    0 <= i < |requests| && requests[i].0 == a && requests[i].1 == b &&
    forall k :: 0 <= k < i ==> !(requests[k].0 == a && requests[k].1 == b)
  }

  /** After a sequence of `add_edge` calls the edge relation is the old one
      plus every requested pair. */
  lemma {:induction false} AddEdgesHasEdge<M>(edges: Adjacency<M>, requests: seq<(string, string, M)>, a: string, b: string)
    ensures HasEdge(AddEdges(edges, requests), a, b) <==> HasEdge(edges, a, b) || Requested(requests, a, b)
  {
    if requests != [] {
      var n := |requests| - 1;
      var front, last := requests[..n], requests[n];
      AddEdgesHasEdge(edges, front, a, b);
      WithEdgeHasEdge(AddEdges(edges, front), last.0, last.1, last.2, a, b);
      if Requested(requests, a, b) && !(last.0 == a && last.1 == b) {
        var i :| 0 <= i < |requests| && requests[i].0 == a && requests[i].1 == b;
        assert front[i] == requests[i];
      }
      if Requested(front, a, b) {
        var i :| 0 <= i < |front| && front[i].0 == a && front[i].1 == b;
        assert requests[i] == front[i];
      }
    }
  }

  /** The metadata of the first request for `a -> b` is `meta`. */
  ghost predicate FirstMeta<M>(requests: seq<(string, string, M)>, a: string, b: string, meta: M)
  {
    exists i :: 0 <= i < |requests| && FirstRequest(requests, i, a, b) && requests[i].2 == meta
  }

  /** The first request for a pair among `requests + [last]`: the first one
      among `requests`, or `last` when `requests` never asks for that pair. */
  lemma FirstMetaSnoc<M>(requests: seq<(string, string, M)>, last: (string, string, M), a: string, b: string, meta: M)
    ensures FirstMeta(requests + [last], a, b, meta) <==>
      FirstMeta(requests, a, b, meta) || (last == (a, b, meta) && !Requested(requests, a, b))
  {
    var all := requests + [last];
    var n := |requests|;
    if FirstMeta(requests, a, b, meta) {
      var i :| 0 <= i < n && FirstRequest(requests, i, a, b) && requests[i].2 == meta;
      assert all[i] == requests[i];
      forall k | 0 <= k < i ensures !(all[k].0 == a && all[k].1 == b) {
        assert all[k] == requests[k];
      }
      assert FirstRequest(all, i, a, b);
    }
    if last == (a, b, meta) && !Requested(requests, a, b) {
      forall k | 0 <= k < n ensures !(all[k].0 == a && all[k].1 == b) {
        assert all[k] == requests[k];
      }
      assert FirstRequest(all, n, a, b);
    }
    if FirstMeta(all, a, b, meta) {
      var i :| 0 <= i < |all| && FirstRequest(all, i, a, b) && all[i].2 == meta;
      if i < n {
        assert all[i] == requests[i];
        forall k | 0 <= k < i ensures !(requests[k].0 == a && requests[k].1 == b) {
          assert all[k] == requests[k];
        }
        assert FirstRequest(requests, i, a, b);
      } else {
        forall k | 0 <= k < n ensures !(requests[k].0 == a && requests[k].1 == b) {
          assert all[k] == requests[k];
        }
      }
    }
  }

  /** Starting from an empty graph, the metadata on the edge `a -> b` is that
      of the first request for that pair. */
  lemma {:induction false} AddEdgesInEdges<M(!new)>(requests: seq<(string, string, M)>, a: string, b: string, meta: M)
    ensures (a, meta) in InEdges(AddEdges(map[], requests), b) <==> FirstMeta(requests, a, b, meta)
  {
    if requests != [] {
      var n := |requests| - 1;
      var front, last := requests[..n], requests[n];
      assert requests == front + [last];
      AddEdgesInEdges(front, a, b, meta);
      WithEdgeInEdges(AddEdges(map[], front), last.0, last.1, last.2, b);
      AddEdgesHasEdge(map[], front, a, b);
      assert !HasEdge<M>(map[], a, b);
      FirstMetaSnoc(front, last, a, b, meta);
    }
  }

  /** A sequence of `add_edge` calls keeps the adjacency map well formed. */
  lemma {:induction false} AddEdgesWellFormed<M>(edges: Adjacency<M>, requests: seq<(string, string, M)>)
    requires WellFormed(edges)
    ensures WellFormed(AddEdges(edges, requests))
  {
    if requests != [] {
      var n := |requests| - 1;
      AddEdgesWellFormed(edges, requests[..n]);
      WithEdgeWellFormed(AddEdges(edges, requests[..n]), requests[n].0, requests[n].1, requests[n].2);
    }
  }

  class Graph<V, M> {
    var nodes: map<string, V>
    var edges: Adjacency<M>

    constructor ()
      ensures nodes == map[] && edges == map[]
    {
      nodes := map[];
      edges := map[];
    }

    /** `add_node`: inserts or overwrites the payload at `key`. */
    method AddNode(key: string, val: V)
      modifies this`nodes
      ensures nodes == old(nodes)[key := val]
    {
      nodes := nodes[key := val];
    }

    /** `add_edge`: creates the adjacency entry if needed, then appends
        `(to, meta)` unless an edge to `to` is already listed. */
    method AddEdge(from: string, to: string, meta: M)
      modifies this`edges
      ensures edges == WithEdge(old(edges), from, to, meta)
    {
      if from !in edges {
        edges := edges[from := []];
      }
      if HasTarget(edges[from], to) {
        return;
      }
      edges := edges[from := edges[from] + [(to, meta)]];
    }
  }
}
