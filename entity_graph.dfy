/**
 * The entity graph (`build_entity_graph`) and the alias resolver
 * (`lookup_input_keys`) that reads it.
 *
 * Nodes are entity names; an edge runs from each join's upstream entity to
 * the entity declaring the join and carries `{name: alias, join: join}`.
 * Because `add_edge` drops a second edge for the same pair, two joins of one
 * entity to the same upstream keep only the first join's metadata.
 */
module EntityGraphs {
  import opened Wrappers
  import opened Strings
  import opened Graphs
  import opened Catalog

  /** The metadata of an entity-graph edge. */
  datatype JoinMeta = JoinMeta(name: string, join: Join)

  /** The `add_edge` calls made for one entity, in `RELATIONSHIPS` order. */
  function EntityRequests(e: Entity): (reqs: seq<(string, string, JoinMeta)>)
    ensures |reqs| == |e.Relationships()|
    ensures forall k :: 0 <= k < |reqs| ==>
      reqs[k] == (e.Relationships()[k].1.entity.name, e.name, JoinMeta(e.Relationships()[k].0, e.Relationships()[k].1))
  {
    var rels := e.Relationships();
    seq(|rels|, k requires 0 <= k < |rels| => (rels[k].1.entity.name, e.name, JoinMeta(rels[k].0, rels[k].1)))
  }

  /** The `add_edge` calls made by `build_entity_graph`, in order. */
  function JoinRequests(entities: seq<Entity>): seq<(string, string, JoinMeta)>
  {
    if entities == [] then []
    else JoinRequests(entities[..|entities| - 1]) + EntityRequests(entities[|entities| - 1])
  }

  /** The node table: an entity is filed under its name, and a later entity
      of the same name overwrites an earlier one. */
  function EntityNodes(entities: seq<Entity>): map<string, Entity>
  {
    if entities == [] then map[]
    else
      var last := entities[|entities| - 1];
      EntityNodes(entities[..|entities| - 1])[last.name := last]
  }

  /** `build_entity_graph(entities)`. */
  method BuildEntityGraph(entities: seq<Entity>) returns (g: Graph<Entity, JoinMeta>)
    ensures fresh(g)
    ensures g.nodes == EntityNodes(entities)
    ensures g.edges == AddEdges(map[], JoinRequests(entities))
  {
    g := new Graph();
    for k := 0 to |entities|
      invariant g.nodes == EntityNodes(entities[..k])
      invariant g.edges == AddEdges(map[], JoinRequests(entities[..k]))
    {
      var entity := entities[k];
      PrefixStep(entities, k);
      g.AddNode(entity.name, entity);
      AddEdgesAppend(map[], JoinRequests(entities[..k]), EntityRequests(entity));
      AddJoinEdges(g, entity);
    }
    assert entities[..|entities|] == entities;
  }

  /** One more entity: its requests follow the earlier ones, and its node
      overwrites any earlier one of the same name. */
  lemma PrefixStep(entities: seq<Entity>, k: nat)
    requires k < |entities|
    ensures JoinRequests(entities[..k + 1]) == JoinRequests(entities[..k]) + EntityRequests(entities[k])
    ensures EntityNodes(entities[..k + 1]) == EntityNodes(entities[..k])[entities[k].name := entities[k]]
  {
    assert entities[..k + 1][..k] == entities[..k];
  }

  /** The inner loop of `build_entity_graph`: one edge per join of `entity`. */
  method AddJoinEdges(g: Graph<Entity, JoinMeta>, entity: Entity)
    modifies g`edges
    ensures g.edges == AddEdges(old(g.edges), EntityRequests(entity))
  {
    var rels := entity.Relationships();
    for i := 0 to |rels|
      invariant g.edges == AddEdges(old(g.edges), EntityRequests(entity)[..i])
    {
      var (alias, join) := rels[i];
      assert EntityRequests(entity)[..i + 1][..i] == EntityRequests(entity)[..i];
      g.AddEdge(join.entity.name, entity.name, JoinMeta(alias, join));
    }
    assert EntityRequests(entity)[..|rels|] == EntityRequests(entity);
  }

  /** Request `r` is made for the join `k` of entity `i`. */
  predicate RequestFor(entities: seq<Entity>, i: int, k: int, r: (string, string, JoinMeta))
  {
    0 <= i < |entities| && 0 <= k < |entities[i].Relationships()| &&
    r == EntityRequests(entities[i])[k]
  }

  /** Every request comes from a declared join. */
  lemma {:induction false} JoinRequestsSound(entities: seq<Entity>, r: (string, string, JoinMeta))
    requires r in JoinRequests(entities)
    ensures exists i, k :: RequestFor(entities, i, k, r)
  {
    var n := |entities| - 1;
    var front := entities[..n];
    var reqs := EntityRequests(entities[n]);
    assert JoinRequests(entities) == JoinRequests(front) + reqs;
    if r in JoinRequests(front) {
      JoinRequestsSound(front, r);
      var i, k :| RequestFor(front, i, k, r);
      assert entities[i] == front[i];
      assert RequestFor(entities, i, k, r);
    } else {
      var k :| 0 <= k < |reqs| && reqs[k] == r;
      assert RequestFor(entities, n, k, r);
    }
  }

  /** Every declared join makes a request. */
  lemma {:induction false} JoinRequestsComplete(entities: seq<Entity>, i: nat, k: nat)
    requires i < |entities| && k < |entities[i].Relationships()|
    ensures EntityRequests(entities[i])[k] in JoinRequests(entities)
  {
    var n := |entities| - 1;
    var front := entities[..n];
    var reqs := EntityRequests(entities[n]);
    assert JoinRequests(entities) == JoinRequests(front) + reqs;
    if i < n {
      assert entities[i] == front[i];
      JoinRequestsComplete(front, i, k);
    } else {
      assert reqs[k] in reqs;
    }
  }

  /** Every request comes from a declared join, and every declared join
      makes a request. */
  lemma JoinRequestsMembers(entities: seq<Entity>, r: (string, string, JoinMeta))
    ensures r in JoinRequests(entities) <==> exists i, k :: RequestFor(entities, i, k, r)
  {
    if r in JoinRequests(entities) {
      JoinRequestsSound(entities, r);
    }
    if exists i, k :: RequestFor(entities, i, k, r) {
      var i, k :| RequestFor(entities, i, k, r);
      JoinRequestsComplete(entities, i, k);
    }
  }

  /** The entity graph's nodes: one per entity name, holding the last entity
      of that name. */
  lemma {:induction false} EntityNodesSpec(entities: seq<Entity>, name: string)
    ensures name in EntityNodes(entities) <==> exists i :: 0 <= i < |entities| && entities[i].name == name
    ensures name in EntityNodes(entities) ==>
      exists i :: 0 <= i < |entities| && entities[i] == EntityNodes(entities)[name] &&
        entities[i].name == name && forall j :: i < j < |entities| ==> entities[j].name != name
  {
    if entities != [] {
      var n := |entities| - 1;
      var front := entities[..n];
      EntityNodesSpec(front, name);
      if entities[n].name == name {
        assert EntityNodes(entities)[name] == entities[n];
      } else {
        assert EntityNodes(entities) == EntityNodes(front)[entities[n].name := entities[n]];
        if exists i :: 0 <= i < |entities| && entities[i].name == name {
          var i :| 0 <= i < |entities| && entities[i].name == name;
          assert front[i].name == name;
        }
        if name in EntityNodes(front) {
          var i :| 0 <= i < |front| && front[i] == EntityNodes(front)[name] &&
            front[i].name == name && forall j :: i < j < |front| ==> front[j].name != name;
          assert entities[i] == front[i];
          assert forall j :: i < j < |entities| ==> entities[j].name != name by {
            forall j | i < j < |entities| ensures entities[j].name != name {
              if j < n {
                assert entities[j] == front[j];
              }
            }
          }
        }
      }
    }
  }

  /** The entity graph has an edge `a -> b` exactly when some entity named
      `b` declares a join whose upstream entity is named `a`. */
  lemma EntityGraphEdges(entities: seq<Entity>, a: string, b: string)
    ensures HasEdge(AddEdges(map[], JoinRequests(entities)), a, b) <==>
      exists i, k :: 0 <= i < |entities| && 0 <= k < |entities[i].Relationships()| &&
        entities[i].Relationships()[k].1.entity.name == a && entities[i].name == b
  {
    var reqs := JoinRequests(entities);
    AddEdgesHasEdge(map[], reqs, a, b);
    assert !HasEdge<JoinMeta>(map[], a, b);
    if Requested(reqs, a, b) {
      var m :| 0 <= m < |reqs| && reqs[m].0 == a && reqs[m].1 == b;
      JoinRequestsMembers(entities, reqs[m]);
      var i, k :| RequestFor(entities, i, k, reqs[m]);
      assert entities[i].Relationships()[k].1.entity.name == a && entities[i].name == b;
    }
    if exists i, k :: 0 <= i < |entities| && 0 <= k < |entities[i].Relationships()| &&
        entities[i].Relationships()[k].1.entity.name == a && entities[i].name == b {
      var i, k :| 0 <= i < |entities| && 0 <= k < |entities[i].Relationships()| &&
        entities[i].Relationships()[k].1.entity.name == a && entities[i].name == b;
      var r := EntityRequests(entities[i])[k];
      assert RequestFor(entities, i, k, r);
      JoinRequestsMembers(entities, r);
      var m :| 0 <= m < |reqs| && reqs[m] == r;
    }
  }

  /** The metadata on an entity-graph edge is that of the first join that
      asked for the pair, and it names a join its target entity declares. */
  lemma EntityGraphMeta(entities: seq<Entity>, a: string, b: string, meta: JoinMeta)
    requires (a, meta) in InEdges(AddEdges(map[], JoinRequests(entities)), b)
    ensures FirstMeta(JoinRequests(entities), a, b, meta)
    ensures meta.join.entity.name == a
    ensures exists i, k ::
      (0 <= i < |entities| && 0 <= k < |entities[i].Relationships()| &&
       entities[i].name == b && entities[i].Relationships()[k] == (meta.name, meta.join))
  {
    var reqs := JoinRequests(entities);
    AddEdgesInEdges(reqs, a, b, meta);
    var m :| 0 <= m < |reqs| && FirstRequest(reqs, m, a, b) && reqs[m].2 == meta;
    JoinRequestsMembers(entities, reqs[m]);
    var i, k :| RequestFor(entities, i, k, reqs[m]);
  }

  /** The entity graph satisfies the `add_edge` invariant. */
  lemma EntityGraphWellFormed(entities: seq<Entity>)
    ensures WellFormed(AddEdges(map[], JoinRequests(entities)))
  {
    var empty: Adjacency<JoinMeta> := map[];
    AddEdgesWellFormed(empty, JoinRequests(entities));
  }

  datatype LookupError =
    | MalformedSelector(selector: string)             // the unpacking of `split('.')` fails
    | UnresolvedAlias(entity: string, alias: string, matches: nat)  // `len(input_joins) == 1` fails

  /** The incoming edges of `entityName` whose metadata carries `alias`. */
  function AliasEdges(edges: Adjacency<JoinMeta>, entityName: string, alias: string): set<(string, JoinMeta)>
  {
    set p | p in InEdges(edges, entityName) && p.1.name == alias
  }

  /** Two members of a one-element set are equal. */
  lemma SingletonUnique<T>(s: set<T>)
    requires |s| == 1
    ensures forall x, y :: x in s && y in s ==> x == y
  {
    forall x, y | x in s && y in s ensures x == y {
      SingletonIs(s, x);
    }
  }

  /** A one-element set is the singleton of its member. */
  lemma SingletonIs<T>(s: set<T>, x: T)
    requires |s| == 1 && x in s
    ensures s == {x}
  {
    assert |s - {x}| == 0;
  }

  /** The one member of a one-element set. */
  function TheElement<T>(s: set<T>): (x: T)
    requires |s| == 1
    ensures s == {x}
  {
    SingletonUnique(s);
    var x :| x in s; x
  }

  /**
   * `lookup_input_keys(entity_graph, entity_name, attr_key)`: split the
   * selector at its one dot into an alias and a column, find the single
   * incoming edge carrying the alias, and return the upstream column's key
   * and the joining entity's match attribute key. On an adjacency map with
   * at most one edge per pair, `AliasEdges` has one member per edge of
   * `input_joins`.
   */
  function LookupInputKeys(edges: Adjacency<JoinMeta>, entityName: string, selector: string): Result<(string, string), LookupError>
  {
    var parts := Split(selector, '.');
    if |parts| != 2 then Failure(MalformedSelector(selector))
    else
      var alias, column := parts[0], parts[1];
      var matches := AliasEdges(edges, entityName, alias);
      if |matches| != 1 then Failure(UnresolvedAlias(entityName, alias, |matches|))
      else
        var p := TheElement(matches);
        Success((Key(p.1.join.entity.name, column), Key(entityName, p.1.join.matchName)))
  }

  /**
   * What `lookup_input_keys` promises: it fails on a selector without
   * exactly one dot, and otherwise succeeds exactly when one incoming edge
   * carries the alias, returning the key of the column on that edge's
   * upstream entity and the key of the match attribute on `entityName`.
   */
  lemma LookupInputKeysSpec(edges: Adjacency<JoinMeta>, entityName: string, selector: string)
    ensures LookupInputKeys(edges, entityName, selector) == Failure(MalformedSelector(selector)) <==> Count(selector, '.') != 1
    ensures LookupInputKeys(edges, entityName, selector).Success? <==>
      |Split(selector, '.')| == 2 && |AliasEdges(edges, entityName, Split(selector, '.')[0])| == 1
    ensures LookupInputKeys(edges, entityName, selector).Success? ==>
      var alias, column := Split(selector, '.')[0], Split(selector, '.')[1];
      exists f, j :: AliasEdges(edges, entityName, alias) == {(f, JoinMeta(alias, j))} &&
        LookupInputKeys(edges, entityName, selector).value == (Key(j.entity.name, column), Key(entityName, j.matchName))
  {
    var parts := Split(selector, '.');
    SplitLength(selector, '.');
    if |parts| == 2 {
      var matches := AliasEdges(edges, entityName, parts[0]);
      if |matches| == 1 {
        var p := TheElement(matches);
        assert p == (p.0, JoinMeta(parts[0], p.1.join));
      }
    }
  }

  /** Splitting `alias + "." + column` gives back the two pieces. */
  lemma SplitSelector(alias: string, column: string)
    requires '.' !in alias && '.' !in column
    ensures Split(alias + "." + column, '.') == [alias, column]
  {
    assert alias + "." + column == alias + ['.'] + column;
    SplitPrefix(alias, column, '.');
    SplitFree(column, '.');
  }

  /** Request `m` is the first for its pair, and no other request into the
      same entity carries its alias. */
  predicate SoleAliasRequest(reqs: seq<(string, string, JoinMeta)>, m: int)
  {
    0 <= m < |reqs| && FirstRequest(reqs, m, reqs[m].0, reqs[m].1) &&
    forall j :: 0 <= j < |reqs| && reqs[j].1 == reqs[m].1 && reqs[j].2.name == reqs[m].2.name ==> j == m
  }

  /** The alias of such a request is carried by exactly its edge. */
  lemma SoleAliasEdge(reqs: seq<(string, string, JoinMeta)>, m: int)
    requires SoleAliasRequest(reqs, m)
    ensures AliasEdges(AddEdges(map[], reqs), reqs[m].1, reqs[m].2.name) == {(reqs[m].0, reqs[m].2)}
  {
    var edges := AddEdges(map[], reqs);
    var r := reqs[m];
    AddEdgesInEdges(reqs, r.0, r.1, r.2);
    forall p | p in AliasEdges(edges, r.1, r.2.name) ensures p == (r.0, r.2) {
      AddEdgesInEdges(reqs, p.0, r.1, p.1);
      var i :| 0 <= i < |reqs| && FirstRequest(reqs, i, p.0, r.1) && reqs[i].2 == p.1;
    }
  }

  /**
   * Resolution through a declared join: when the request for the join is
   * the first for its pair and its alias is unique on the target entity,
   * the selector `alias.column` resolves to the upstream entity's column
   * and the target entity's match attribute.
   */
  lemma LookupDeclaredAlias(entities: seq<Entity>, m: int, column: string)
    requires SoleAliasRequest(JoinRequests(entities), m)
    requires '.' !in JoinRequests(entities)[m].2.name && '.' !in column
    ensures var r := JoinRequests(entities)[m];
      LookupInputKeys(AddEdges(map[], JoinRequests(entities)), r.1, r.2.name + "." + column) ==
        Success((Key(r.2.join.entity.name, column), Key(r.1, r.2.join.matchName)))
  {
    var reqs := JoinRequests(entities);
    var r := reqs[m];
    SplitSelector(r.2.name, column);
    SoleAliasEdge(reqs, m);
    LookupInputKeysSpec(AddEdges(map[], reqs), r.1, r.2.name + "." + column);
  }

  /**
   * An alias that no surviving edge into the entity carries fails to
   * resolve with no match: the alias is undeclared, or its join's edge was
   * dropped because an earlier join asked for the same pair.
   */
  lemma LookupUnresolvedAlias(reqs: seq<(string, string, JoinMeta)>, entityName: string, alias: string, column: string)
    requires '.' !in alias && '.' !in column
    requires forall j :: 0 <= j < |reqs| && reqs[j].1 == entityName && reqs[j].2.name == alias ==>
      !FirstRequest(reqs, j, reqs[j].0, entityName)
    ensures LookupInputKeys(AddEdges(map[], reqs), entityName, alias + "." + column) ==
      Failure(UnresolvedAlias(entityName, alias, 0))
  {
    SplitSelector(alias, column);
    var edges := AddEdges(map[], reqs);
    forall p | p in InEdges(edges, entityName) ensures FirstMeta(reqs, p.0, entityName, p.1) {
      AddEdgesInEdges(reqs, p.0, entityName, p.1);
    }
    assert AliasEdges(edges, entityName, alias) == {};
  }

  /** The position of the call for join `k` of entity `i`: the calls of the
      entities before it, then its joins in order. */
  function RequestIndex(entities: seq<Entity>, i: int, k: int): int
    requires 0 <= i <= |entities|
  {
    |JoinRequests(entities[..i])| + k
  }

  /** The call for join `k` of entity `i` sits at `RequestIndex(entities, i, k)`. */
  lemma {:induction false} JoinRequestsAt(entities: seq<Entity>, i: int, k: int)
    requires 0 <= i < |entities| && 0 <= k < |entities[i].Relationships()|
    ensures RequestIndex(entities, i, k) < |JoinRequests(entities)|
    ensures JoinRequests(entities)[RequestIndex(entities, i, k)] == EntityRequests(entities[i])[k]
  {
    var n := |entities| - 1;
    var front := entities[..n];
    var before, last := JoinRequests(front), EntityRequests(entities[n]);
    assert JoinRequests(entities) == before + last;
    if i < n {
      assert entities[..i] == front[..i] && entities[i] == front[i];
      JoinRequestsAt(front, i, k);
      assert RequestIndex(entities, i, k) == RequestIndex(front, i, k);
      assert (before + last)[RequestIndex(front, i, k)] == before[RequestIndex(front, i, k)];
    } else {
      assert entities[..i] == front;
      assert (before + last)[|before| + k] == last[k];
    }
  }

  /**
   * Two joins `k0 < k1` of entity `i` to the same upstream entity: the
   * alias of the later one never resolves on that entity when no other
   * join into it uses that alias, because its edge collapsed into the
   * earlier join's edge.
   */
  lemma SecondAliasCollapsed(entities: seq<Entity>, i: int, k0: int, k1: int, column: string)
    requires 0 <= i < |entities| && 0 <= k0 < k1 < |entities[i].Relationships()|
    requires entities[i].Relationships()[k0].1.entity.name == entities[i].Relationships()[k1].1.entity.name
    requires '.' !in entities[i].Relationships()[k1].0 && '.' !in column
    requires var reqs := JoinRequests(entities);
      forall j :: 0 <= j < |reqs| && reqs[j].1 == entities[i].name && reqs[j].2.name == entities[i].Relationships()[k1].0 ==>
        j == RequestIndex(entities, i, k1)
    ensures var alias := entities[i].Relationships()[k1].0;
      LookupInputKeys(AddEdges(map[], JoinRequests(entities)), entities[i].name, alias + "." + column) ==
        Failure(UnresolvedAlias(entities[i].name, alias, 0))
  {
    var reqs := JoinRequests(entities);
    var name, alias := entities[i].name, entities[i].Relationships()[k1].0;
    JoinRequestsAt(entities, i, k0);
    JoinRequestsAt(entities, i, k1);
    var j0, j1 := RequestIndex(entities, i, k0), RequestIndex(entities, i, k1);
    assert reqs[j0].0 == reqs[j1].0 && reqs[j0].1 == reqs[j1].1 == name;
    forall j | 0 <= j < |reqs| && reqs[j].1 == name && reqs[j].2.name == alias
      ensures !FirstRequest(reqs, j, reqs[j].0, name)
    {
      assert j == j1 && j0 < j1;
    }
    LookupUnresolvedAlias(reqs, name, alias, column);
  }
}
