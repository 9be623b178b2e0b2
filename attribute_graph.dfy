/**
 * The attribute graph (`build_attribute_graph`) and its validation
 * (`validate_graph`).
 *
 * A node `"<entity>.<attribute>"` per attribute of every entity of the
 * entity graph; each input selector of an attribute is resolved through the
 * entity graph and contributes an edge from the upstream column's key and,
 * unless it is the attribute's own key, one from the match attribute's key.
 * Edge metadata is Python's `None`, here the unit value.
 *
 * The entity graph's nodes, an entity's attributes and an attribute's
 * inputs are dicts; their iteration order only decides the order of the
 * adjacency lists and which attribute a clashing key keeps, so the builder
 * walks them in an unspecified order and every property stated here holds
 * whatever the order.
 */
module AttributeGraphs {
  import opened Wrappers
  import opened Strings
  import opened Graphs
  import opened Catalog
  import opened EntityGraphs

  /** An alias resolver: an entity name and an input selector to the input
      key and the parent key, or the lookup error. */
  type Resolver = (string, string) -> Result<(string, string), LookupError>

  /** `lookup_input_keys` bound to the entity graph whose edges are `ee`. */
  function ResolverOf(ee: Adjacency<JoinMeta>): Resolver
  {
    (entityName, selector) => LookupInputKeys(ee, entityName, selector)
  }

  /** The edges one input selector contributes to the attribute keyed `key`
      of the entity named `entityName`. */
  function InputEdges(resolve: Resolver, entityName: string, key: string, selector: string): set<(string, string)>
  {
    var r := resolve(entityName, selector);
    if r.Failure? then {}
    else
      var (inputKey, parentKey) := r.value;
      {(inputKey, key)} + (if parentKey != key then {(parentKey, key)} else {})
  }

  /** The edges contributed by the selectors in `selectors`. */
  function SelectorEdges(resolve: Resolver, entityName: string, key: string, selectors: set<string>): set<(string, string)>
  {
    set sel, p | sel in selectors && p in InputEdges(resolve, entityName, key, sel) :: p
  }

  /** The edges into the node of attribute `a` of entity `e`. */
  function AttributeEdges(resolve: Resolver, e: Entity, a: Attribute): set<(string, string)>
  {
    SelectorEdges(resolve, e.name, Key(e.name, a.name), a.inputs.Values)
  }

  /** The edges contributed by the attributes in `attrs` of entity `e`. */
  function EntityEdges(resolve: Resolver, e: Entity, attrs: set<Attribute>): set<(string, string)>
  {
    set a, p | a in attrs && p in AttributeEdges(resolve, e, a) :: p
  }

  /** The edges of the attribute graph of the entities `es`. */
  function AttrEdges(resolve: Resolver, es: set<Entity>): set<(string, string)>
  {
    set e, p | e in es && p in EntityEdges(resolve, e, e.attributes.Values) :: p
  }

  /** The node keys of the attributes in `attrs` of entity `e`. */
  function EntityKeys(e: Entity, attrs: set<Attribute>): set<string>
  {
    set a | a in attrs :: Key(e.name, a.name)
  }

  /** The node keys of the attribute graph of the entities `es`. */
  function AttrKeys(es: set<Entity>): set<string>
  {
    set e, k | e in es && k in EntityKeys(e, e.attributes.Values) :: k
  }

  /** Every selector in `selectors` resolves. */
  predicate SelectorsResolve(resolve: Resolver, entityName: string, selectors: set<string>)
  {
    forall sel :: sel in selectors ==> resolve(entityName, sel).Success?
  }

  /** Every input of every attribute in `attrs` of entity `e` resolves. */
  predicate AttributesResolve(resolve: Resolver, e: Entity, attrs: set<Attribute>)
  {
    forall a :: a in attrs ==> SelectorsResolve(resolve, e.name, a.inputs.Values)
  }

  /** Every input of every attribute of the entities `es` resolves. */
  predicate Resolves(resolve: Resolver, es: set<Entity>)
  {
    forall e :: e in es ==> AttributesResolve(resolve, e, e.attributes.Values)
  }

  /** `a` is an attribute of one of the entities `es`, keyed `key`. */
  ghost predicate IsAttributeOf(es: set<Entity>, key: string, a: Attribute)
  {
    exists e :: e in es && a in e.attributes.Values && key == Key(e.name, a.name)
  }

  /** A failing lookup of some input of some attribute of the entities `es`. */
  ghost predicate FailingInput(resolve: Resolver, es: set<Entity>, err: LookupError)
  {
    exists e, a, sel :: e in es && a in e.attributes.Values && sel in a.inputs.Values &&
      resolve(e.name, sel) == Failure(err)
  }

  /** The graph `build_attribute_graph` returns for the entity graph whose
      inputs resolve with `resolve` and whose entities are `es`. */
  ghost predicate AttributeGraphOf(nodes: map<string, Attribute>, edges: Adjacency<()>, resolve: Resolver, es: set<Entity>)
  {
    nodes.Keys == AttrKeys(es) &&
    (forall k :: k in nodes ==> IsAttributeOf(es, k, nodes[k])) &&
    WellFormed(edges) && EdgePairs(edges) == AttrEdges(resolve, es)
  }

  /** `build_attribute_graph(entity_graph)`: the attribute graph, or the
      error of a selector that does not resolve. */
  method BuildAttributeGraph(eg: Graph<Entity, JoinMeta>) returns (r: Result<Graph<Attribute, ()>, LookupError>)
    ensures r.Success? <==> Resolves(ResolverOf(eg.edges), eg.nodes.Values)
    ensures r.Failure? ==> FailingInput(ResolverOf(eg.edges), eg.nodes.Values, r.error)
    ensures r.Success? ==> fresh(r.value) && AttributeGraphOf(r.value.nodes, r.value.edges, ResolverOf(eg.edges), eg.nodes.Values)
  {
    var resolve, es := ResolverOf(eg.edges), eg.nodes.Values;
    var g := new Graph<Attribute, ()>();
    var todo := es;
    ghost var done: set<Entity> := {};
    while todo != {}
      invariant todo <= es && done == es - todo
      invariant ResolverOf(eg.edges) == resolve && eg.nodes.Values == es
      invariant Resolves(resolve, done)
      invariant g.nodes.Keys == AttrKeys(done)
      invariant forall k :: k in g.nodes ==> IsAttributeOf(es, k, g.nodes[k])
      invariant WellFormed(g.edges) && EdgePairs(g.edges) == AttrEdges(resolve, done)
      decreases todo
    {
      var entity :| entity in todo;
      var err := AddEntityAttributes(g, resolve, entity, es);
      if err.Some? {
        return Failure(err.value);
      }
      AttrKeysUnion(done, entity);
      AttrEdgesUnion(resolve, done, entity);
      todo, done := todo - {entity}, done + {entity};
    }
    return Success(g);
  }

  /** The body of the loop over an entity's attributes. */
  method AddEntityAttributes(g: Graph<Attribute, ()>, resolve: Resolver, e: Entity, ghost es: set<Entity>) returns (err: Option<LookupError>)
    requires e in es && WellFormed(g.edges)
    requires forall k :: k in g.nodes ==> IsAttributeOf(es, k, g.nodes[k])
    modifies g
    ensures WellFormed(g.edges)
    ensures forall k :: k in g.nodes ==> IsAttributeOf(es, k, g.nodes[k])
    ensures err.None? <==> AttributesResolve(resolve, e, e.attributes.Values)
    ensures err.Some? ==> exists a, sel ::
      (a in e.attributes.Values && sel in a.inputs.Values && resolve(e.name, sel) == Failure(err.value))
    ensures old(g.nodes.Keys) <= g.nodes.Keys
    ensures KeepsOutside(old(g.nodes), g.nodes, EntityKeys(e, e.attributes.Values))
    ensures err.None? ==> g.nodes.Keys == old(g.nodes.Keys) + EntityKeys(e, e.attributes.Values)
    ensures err.None? ==> EdgePairs(g.edges) == old(EdgePairs(g.edges)) + EntityEdges(resolve, e, e.attributes.Values)
  {
    ghost var attrs := e.attributes.Values;
    ghost var nodesBefore, edgesBefore := g.nodes, EdgePairs(g.edges);
    var todo := e.attributes.Values;
    ghost var done: set<Attribute> := {};
    while todo != {}
      invariant todo <= attrs && done == attrs - todo
      invariant AttributesResolve(resolve, e, done)
      invariant g.nodes.Keys == nodesBefore.Keys + EntityKeys(e, done)
      invariant KeepsOutside(nodesBefore, g.nodes, EntityKeys(e, done))
      invariant forall k :: k in g.nodes ==> IsAttributeOf(es, k, g.nodes[k])
      invariant WellFormed(g.edges)
      invariant EdgePairs(g.edges) == edgesBefore + EntityEdges(resolve, e, done)
      decreases todo
    {
      var attribute :| attribute in todo;
      var err' := AddNextAttribute(g, resolve, e, attribute, es, done, nodesBefore, edgesBefore);
      if err'.Some? {
        EntityKeysMono(e, done + {attribute}, attrs);
        KeepsOutsideWiden(nodesBefore, g.nodes, EntityKeys(e, done + {attribute}), EntityKeys(e, attrs));
        FailingAttribute(resolve, e, attrs, attribute);
        return err';
      }
      todo, done := todo - {attribute}, done + {attribute};
    }
    return None;
  }

  /** One attribute with an unresolved input makes the attributes fail. */
  lemma FailingAttribute(resolve: Resolver, e: Entity, attrs: set<Attribute>, a: Attribute)
    requires a in attrs && !SelectorsResolve(resolve, e.name, a.inputs.Values)
    ensures !AttributesResolve(resolve, e, attrs)
  {
  }

  /** Every node of `before` outside `keys` is still in `after` with the
      same attribute. */
  ghost predicate KeepsOutside(before: map<string, Attribute>, after: map<string, Attribute>, keys: set<string>)
  {
    forall k :: k in before && k !in keys ==> k in after && after[k] == before[k]
  }

  /** Writing one more key keeps every node outside the written keys. */
  lemma KeepsOutsideStep(before: map<string, Attribute>, mid: map<string, Attribute>, keys: set<string>, key: string, a: Attribute)
    requires KeepsOutside(before, mid, keys)
    ensures KeepsOutside(before, mid[key := a], keys + {key})
  {
  }

  /** A frame over fewer keys is a frame over more. */
  lemma KeepsOutsideWiden(before: map<string, Attribute>, after: map<string, Attribute>, keys: set<string>, more: set<string>)
    requires KeepsOutside(before, after, keys) && keys <= more
    ensures KeepsOutside(before, after, more)
  {
  }

  /** More attributes, more keys. */
  lemma EntityKeysMono(e: Entity, attrs: set<Attribute>, more: set<Attribute>)
    requires attrs <= more
    ensures EntityKeys(e, attrs) <= EntityKeys(e, more)
  {
  }

  /** One iteration of the loop over an entity's attributes, carrying what
      the earlier iterations `done` have written since `nodes0` and `edges0`. */
  method AddNextAttribute(g: Graph<Attribute, ()>, resolve: Resolver, e: Entity, a: Attribute, ghost es: set<Entity>,
                          ghost done: set<Attribute>, ghost nodes0: map<string, Attribute>, ghost edges0: set<(string, string)>)
    returns (err: Option<LookupError>)
    requires e in es && a in e.attributes.Values && WellFormed(g.edges)
    requires forall k :: k in g.nodes ==> IsAttributeOf(es, k, g.nodes[k])
    requires g.nodes.Keys == nodes0.Keys + EntityKeys(e, done)
    requires KeepsOutside(nodes0, g.nodes, EntityKeys(e, done))
    requires EdgePairs(g.edges) == edges0 + EntityEdges(resolve, e, done)
    modifies g
    ensures WellFormed(g.edges)
    ensures forall k :: k in g.nodes ==> IsAttributeOf(es, k, g.nodes[k])
    ensures g.nodes.Keys == nodes0.Keys + EntityKeys(e, done + {a})
    ensures KeepsOutside(nodes0, g.nodes, EntityKeys(e, done + {a}))
    ensures err.None? <==> SelectorsResolve(resolve, e.name, a.inputs.Values)
    ensures err.Some? ==> exists sel :: sel in a.inputs.Values && resolve(e.name, sel) == Failure(err.value)
    ensures err.None? ==> EdgePairs(g.edges) == edges0 + EntityEdges(resolve, e, done + {a})
  {
    ghost var mid := g.nodes;
    err := AddAttribute(g, resolve, e, a, es);
    EntityUnion(resolve, e, done, a);
    KeepsOutsideStep(nodes0, mid, EntityKeys(e, done), Key(e.name, a.name), a);
  }

  /** The body of the loop over an entity's attributes: the attribute's node,
      then the edges of its inputs. */
  method AddAttribute(g: Graph<Attribute, ()>, resolve: Resolver, e: Entity, a: Attribute, ghost es: set<Entity>)
    returns (err: Option<LookupError>)
    requires e in es && a in e.attributes.Values && WellFormed(g.edges)
    requires forall k :: k in g.nodes ==> IsAttributeOf(es, k, g.nodes[k])
    modifies g
    ensures WellFormed(g.edges)
    ensures forall k :: k in g.nodes ==> IsAttributeOf(es, k, g.nodes[k])
    ensures g.nodes == old(g.nodes)[Key(e.name, a.name) := a]
    ensures err.None? <==> SelectorsResolve(resolve, e.name, a.inputs.Values)
    ensures err.Some? ==> exists sel :: sel in a.inputs.Values && resolve(e.name, sel) == Failure(err.value)
    ensures err.None? ==> EdgePairs(g.edges) == old(EdgePairs(g.edges)) + AttributeEdges(resolve, e, a)
  {
    var key := Key(e.name, a.name);
    g.AddNode(key, a);
    assert IsAttributeOf(es, key, a);
    err := AddInputEdges(g, resolve, e, a);
  }

  /** The loop over an attribute's inputs. */
  method AddInputEdges(g: Graph<Attribute, ()>, resolve: Resolver, e: Entity, a: Attribute) returns (err: Option<LookupError>)
    requires WellFormed(g.edges)
    modifies g`edges
    ensures WellFormed(g.edges)
    ensures err.None? <==> SelectorsResolve(resolve, e.name, a.inputs.Values)
    ensures err.Some? ==> exists sel :: sel in a.inputs.Values && resolve(e.name, sel) == Failure(err.value)
    ensures err.None? ==> EdgePairs(g.edges) == old(EdgePairs(g.edges)) + AttributeEdges(resolve, e, a)
  {
    var key := Key(e.name, a.name);
    ghost var selectors := a.inputs.Values;
    var todo := a.inputs.Values;
    ghost var done: set<string> := {};
    ghost var before := EdgePairs(g.edges);
    while todo != {}
      invariant todo <= selectors && done == selectors - todo
      invariant SelectorsResolve(resolve, e.name, done)
      invariant WellFormed(g.edges)
      invariant EdgePairs(g.edges) == before + SelectorEdges(resolve, e.name, key, done)
      decreases todo
    {
      var inp :| inp in todo;
      var err' := AddInput(g, resolve, e.name, key, inp);
      if err'.Some? {
        assert inp in selectors && !SelectorsResolve(resolve, e.name, selectors);
        return err';
      }
      SelectorEdgesUnion(resolve, e.name, key, done, inp);
      todo, done := todo - {inp}, done + {inp};
    }
    return None;
  }

  /** The body of the loop over an attribute's inputs: resolve the selector,
      then add the edge from the input key and, unless it is the attribute's
      own key, the edge from the parent key. */
  method AddInput(g: Graph<Attribute, ()>, resolve: Resolver, entityName: string, key: string, selector: string)
    returns (err: Option<LookupError>)
    requires WellFormed(g.edges)
    modifies g`edges
    ensures WellFormed(g.edges)
    ensures err.None? <==> resolve(entityName, selector).Success?
    ensures err.Some? ==> resolve(entityName, selector) == Failure(err.value)
    ensures err.None? ==> EdgePairs(g.edges) == old(EdgePairs(g.edges)) + InputEdges(resolve, entityName, key, selector)
  {
    var r := resolve(entityName, selector);
    if r.Failure? {
      return Some(r.error);
    }
    var (inputKey, parentKey) := r.value;
    WithEdgePairs(g.edges, inputKey, key, ());
    WithEdgeWellFormed(g.edges, inputKey, key, ());
    g.AddEdge(inputKey, key, ());
    if parentKey != key {
      WithEdgePairs(g.edges, parentKey, key, ());
      WithEdgeWellFormed(g.edges, parentKey, key, ());
      g.AddEdge(parentKey, key, ());
    }
    return None;
  }

  /** The keys of one more entity. */
  lemma AttrKeysUnion(es: set<Entity>, e: Entity)
    ensures AttrKeys(es + {e}) == AttrKeys(es) + EntityKeys(e, e.attributes.Values)
  {
  }

  /** The edges of one more entity. */
  lemma AttrEdgesUnion(resolve: Resolver, es: set<Entity>, e: Entity)
    ensures AttrEdges(resolve, es + {e}) == AttrEdges(resolve, es) + EntityEdges(resolve, e, e.attributes.Values)
  {
  }

  /** The keys and edges of one more attribute. */
  lemma EntityUnion(resolve: Resolver, e: Entity, attrs: set<Attribute>, a: Attribute)
    ensures EntityKeys(e, attrs + {a}) == EntityKeys(e, attrs) + {Key(e.name, a.name)}
    ensures EntityEdges(resolve, e, attrs + {a}) == EntityEdges(resolve, e, attrs) + AttributeEdges(resolve, e, a)
  {
  }

  /** The edges of one more selector. */
  lemma SelectorEdgesUnion(resolve: Resolver, entityName: string, key: string, selectors: set<string>, sel: string)
    ensures SelectorEdges(resolve, entityName, key, selectors + {sel}) ==
      SelectorEdges(resolve, entityName, key, selectors) + InputEdges(resolve, entityName, key, sel)
  {
  }

  /** The dependency edge `x -> y` comes from selector `sel` of attribute `a`
      of entity `e`: `y` is the attribute's key and `x` the input key, or the
      parent key when that differs from `y`. */
  predicate DependsVia(resolve: Resolver, e: Entity, a: Attribute, sel: string, x: string, y: string)
  {
    var r := resolve(e.name, sel);
    r.Success? && y == Key(e.name, a.name) &&
    (x == r.value.0 || (x == r.value.1 && r.value.1 != y))
  }

  /** Every attribute-graph edge comes from some input of some attribute. */
  lemma AttrEdgesSound(resolve: Resolver, es: set<Entity>, x: string, y: string)
    requires (x, y) in AttrEdges(resolve, es)
    ensures exists e, a, sel :: e in es && a in e.attributes.Values && sel in a.inputs.Values && DependsVia(resolve, e, a, sel, x, y)
  {
    var e :| e in es && (x, y) in EntityEdges(resolve, e, e.attributes.Values);
    var a :| a in e.attributes.Values && (x, y) in AttributeEdges(resolve, e, a);
    var sel :| sel in a.inputs.Values && (x, y) in InputEdges(resolve, e.name, Key(e.name, a.name), sel);
    assert DependsVia(resolve, e, a, sel, x, y);
  }

  /** Every resolved input of every attribute yields its edges. */
  lemma AttrEdgesComplete(resolve: Resolver, es: set<Entity>, e: Entity, a: Attribute, sel: string, x: string, y: string)
    requires e in es && a in e.attributes.Values && sel in a.inputs.Values
    requires DependsVia(resolve, e, a, sel, x, y)
    ensures (x, y) in AttrEdges(resolve, es)
  {
    assert (x, y) in InputEdges(resolve, e.name, Key(e.name, a.name), sel);
    assert (x, y) in AttributeEdges(resolve, e, a);
    assert (x, y) in EntityEdges(resolve, e, e.attributes.Values);
  }

  /**
   * The attribute graph's edges: for every input of every attribute there
   * is an edge from the input key, and one from the parent key unless that
   * is the attribute's own key; there are no other edges.
   */
  lemma AttrEdgesSpec(resolve: Resolver, es: set<Entity>, x: string, y: string)
    ensures (x, y) in AttrEdges(resolve, es) <==>
      exists e, a, sel :: e in es && a in e.attributes.Values && sel in a.inputs.Values && DependsVia(resolve, e, a, sel, x, y)
  {
    if (x, y) in AttrEdges(resolve, es) {
      AttrEdgesSound(resolve, es, x, y);
    }
    if exists e, a, sel :: e in es && a in e.attributes.Values && sel in a.inputs.Values && DependsVia(resolve, e, a, sel, x, y) {
      var e, a, sel :| e in es && a in e.attributes.Values && sel in a.inputs.Values && DependsVia(resolve, e, a, sel, x, y);
      AttrEdgesComplete(resolve, es, e, a, sel, x, y);
    }
  }

  /** A self-loop `k -> k` only arises from an input key equal to the
      attribute's own key, never from a parent key. */
  lemma NoParentSelfLoop(resolve: Resolver, es: set<Entity>, k: string)
    requires (k, k) in AttrEdges(resolve, es)
    ensures exists e, a, sel :: (e in es && a in e.attributes.Values && sel in a.inputs.Values &&
      k == Key(e.name, a.name) && resolve(e.name, sel).Success? && resolve(e.name, sel).value.0 == k)
  {
    AttrEdgesSound(resolve, es, k, k);
  }

  /** The node keys: one per attribute of every entity. */
  lemma AttrKeysSpec(es: set<Entity>, k: string)
    ensures k in AttrKeys(es) <==> exists e, a :: e in es && a in e.attributes.Values && k == Key(e.name, a.name)
  {
    if exists e, a :: e in es && a in e.attributes.Values && k == Key(e.name, a.name) {
      var e, a :| e in es && a in e.attributes.Values && k == Key(e.name, a.name);
      assert k in EntityKeys(e, e.attributes.Values);
    }
  }

  /** No attribute with key `k` declares an input. */
  ghost predicate Inputless(es: set<Entity>, k: string)
  {
    forall e, a :: e in es && a in e.attributes.Values && k == Key(e.name, a.name) ==> a.inputs == map[]
  }

  /**
   * On the attribute graph of a catalog whose inputs all resolve, a node is
   * a root exactly when every attribute with that key declares no input.
   */
  lemma RootsWithoutInputs(nodes: map<string, Attribute>, edges: Adjacency<()>, resolve: Resolver, es: set<Entity>, k: string)
    requires AttributeGraphOf(nodes, edges, resolve, es)
    requires Resolves(resolve, es)
    ensures k in Roots(nodes, edges) <==> k in nodes && Inputless(es, k)
  {
    if k in Roots(nodes, edges) {
      forall e, a | e in es && a in e.attributes.Values && k == Key(e.name, a.name) ensures a.inputs == map[] {
        if a.inputs != map[] {
          var n :| n in a.inputs;
          var sel := a.inputs[n];
          assert sel in a.inputs.Values;
          assert resolve(e.name, sel).Success?;
          AttrEdgesComplete(resolve, es, e, a, sel, resolve(e.name, sel).value.0, k);
        }
      }
    }
    if k in nodes && Inputless(es, k) {
      forall f ensures !HasEdge(edges, f, k) {
        if HasEdge(edges, f, k) {
          AttrEdgesSound(resolve, es, f, k);
        }
      }
    }
  }

  /** No two attributes of the catalog share a node key. */
  ghost predicate UniqueKeys(es: set<Entity>)
  {
    forall e1, a1, e2, a2 ::
      (e1 in es && a1 in e1.attributes.Values && e2 in es && a2 in e2.attributes.Values &&
       Key(e1.name, a1.name) == Key(e2.name, a2.name)) ==> a1 == a2
  }

  datatype ValidationError = NonSourceRoots(roots: set<string>)

  /** `validate_graph(attr_graph)`: every root must hold an attribute of a
      source; the failure lists the roots that do not. */
  function ValidateGraph<M(==,!new)>(nodes: map<string, Attribute>, edges: Adjacency<M>): (r: Result<(), ValidationError>)
    ensures r.Success? <==> forall k :: k in Roots(nodes, edges) ==> nodes[k].entity.isSource
    ensures r.Failure? ==>
      r.error.roots != {} &&
      forall k :: k in r.error.roots ==> k in nodes && (forall f :: !HasEdge(edges, f, k)) && !nodes[k].entity.isSource
  {
    var bad := set k | k in Roots(nodes, edges) && !nodes[k].entity.isSource;
    if bad == {} then
      assert forall k :: k in Roots(nodes, edges) ==> k in bad || nodes[k].entity.isSource;
      Success(())
    else Failure(NonSourceRoots(bad))
  }

  /** Every derived attribute declares at least one input. */
  ghost predicate DerivedHaveInputs(es: set<Entity>)
  {
    forall e, a :: e in es && e.Derived? && a in e.attributes.Values ==> a.inputs != map[]
  }

  /** With unique keys, an attribute without inputs is a root of the
      attribute graph. */
  lemma InputlessIsRoot(nodes: map<string, Attribute>, edges: Adjacency<()>, resolve: Resolver, es: set<Entity>, e: Entity, a: Attribute)
    requires AttributeGraphOf(nodes, edges, resolve, es)
    requires Resolves(resolve, es)
    requires UniqueKeys(es)
    requires e in es && a in e.attributes.Values && a.inputs == map[]
    ensures Key(e.name, a.name) in Roots(nodes, edges) && nodes[Key(e.name, a.name)] == a
  {
    var k := Key(e.name, a.name);
    InputlessKey(es, e, a);
    KeyedNode(nodes, es, e, a);
    RootsWithoutInputs(nodes, edges, resolve, es, k);
  }

  /** With unique keys, an attribute without inputs is the only attribute
      under its key. */
  lemma InputlessKey(es: set<Entity>, e: Entity, a: Attribute)
    requires UniqueKeys(es)
    requires e in es && a in e.attributes.Values && a.inputs == map[]
    ensures Inputless(es, Key(e.name, a.name))
  {
    forall e2, a2 | e2 in es && a2 in e2.attributes.Values && Key(e.name, a.name) == Key(e2.name, a2.name) ensures a2.inputs == map[] {
      assert a2 == a;
    }
  }

  /** With unique keys, the node under an attribute's key holds that attribute. */
  lemma KeyedNode(nodes: map<string, Attribute>, es: set<Entity>, e: Entity, a: Attribute)
    requires nodes.Keys == AttrKeys(es)
    requires forall k :: k in nodes ==> IsAttributeOf(es, k, nodes[k])
    requires UniqueKeys(es)
    requires e in es && a in e.attributes.Values
    ensures Key(e.name, a.name) in nodes && nodes[Key(e.name, a.name)] == a
  {
    var k := Key(e.name, a.name);
    AttrKeysSpec(es, k);
    assert IsAttributeOf(es, k, nodes[k]);
  }

  /** A derived attribute without inputs is a root that fails validation. */
  lemma InputlessDerivedFails(nodes: map<string, Attribute>, edges: Adjacency<()>, resolve: Resolver, es: set<Entity>, e: Entity, a: Attribute)
    requires AttributeGraphOf(nodes, edges, resolve, es)
    requires Resolves(resolve, es)
    requires UniqueKeys(es)
    requires e in es && e.Derived? && ValidEntity(e) && a in e.attributes.Values && a.inputs == map[]
    ensures ValidateGraph(nodes, edges).Failure?
  {
    InputlessIsRoot(nodes, edges, resolve, es, e, a);
    ValidEntityAttribute(e, a);
  }

  /** When every derived attribute has an input, every root is a source
      attribute and validation passes. */
  lemma InputfulCatalogPasses(nodes: map<string, Attribute>, edges: Adjacency<()>, resolve: Resolver, es: set<Entity>)
    requires AttributeGraphOf(nodes, edges, resolve, es)
    requires Resolves(resolve, es)
    requires forall e :: e in es ==> ValidEntity(e)
    requires DerivedHaveInputs(es)
    ensures ValidateGraph(nodes, edges).Success?
  {
    forall k | k in Roots(nodes, edges) ensures nodes[k].entity.isSource {
      RootsWithoutInputs(nodes, edges, resolve, es, k);
      var e :| e in es && nodes[k] in e.attributes.Values && k == Key(e.name, nodes[k].name);
      ValidEntityAttribute(e, nodes[k]);
    }
  }

  /**
   * Validation of the attribute graph of a catalog of well-formed entities
   * with unique keys whose inputs all resolve passes exactly when every
   * attribute of every derived entity declares at least one input.
   */
  lemma ValidateAttributeGraph(nodes: map<string, Attribute>, edges: Adjacency<()>, resolve: Resolver, es: set<Entity>)
    requires AttributeGraphOf(nodes, edges, resolve, es)
    requires Resolves(resolve, es)
    requires forall e :: e in es ==> ValidEntity(e)
    requires UniqueKeys(es)
    ensures ValidateGraph(nodes, edges).Success? <==> DerivedHaveInputs(es)
  {
    if DerivedHaveInputs(es) {
      InputfulCatalogPasses(nodes, edges, resolve, es);
    } else {
      var e, a :| e in es && e.Derived? && a in e.attributes.Values && a.inputs == map[];
      InputlessDerivedFails(nodes, edges, resolve, es, e, a);
    }
  }
}
