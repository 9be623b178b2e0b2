# eavt engine core in Dafny

This project models the engine of `eavt`. `eavt` is a small dependency planner for data transforms. A catalog declares:

- **sources**: raw tables whose columns come from a schema;
- **derived entities**: tables whose attributes read named inputs through `alias.column` selectors;
- **joins**: the way a derived entity reaches an upstream entity.

The engine works in five steps:

1. It builds an **entity graph**, with one edge per joined (upstream entity, joining entity) pair. The edge carries the alias and the join of the first join for that pair.
2. It resolves every input selector of every attribute against that graph (`lookup_input_keys`).
3. It builds an **attribute graph** whose nodes are `"<entity>.<attribute>"` keys.
4. It checks that every root of that graph belongs to a source (`validate_graph`).
5. It turns the graph into an execution plan, a sequence of layers (`execution_order`). It does this by repeatedly marking every unmarked node whose predecessors are all marked.

Modules, one per part of the engine:

- `Wrappers`: `Option` and `Result`. Python exceptions become `Result` failures.
- `Strings`: `str.split`, the `'{}.{}'` key format, and their round-trip lemmas.
- `Catalog`: `Attribute`, `Entity`, `Source`, `Derived`, `Join` and `entity[name]`.
- `Graphs`: the `Graph` class, a `class` with `nodes` and `edges` fields that its methods update in place. It also holds the functions `in_edges`, `out_edges` and `roots` over the adjacency map, and the specification of a sequence of `add_edge` calls.
- `EntityGraphs`: `build_entity_graph` (a method over a `Graph`) and `lookup_input_keys`.
- `AttributeGraphs`: `build_attribute_graph` (a method, with one helper method per nested loop) and `validate_graph`. Their specification functions are written over a generic resolver, so the same lemmas hold for any way selectors resolve.
- `Example`: a cut-down `Sales` from the example catalog (attributes `id` and `shop_name`, joins to `orders` and `shops`), taken through the entity graph, the selector lookups and the attribute-graph edges. The upstream entities are parameters.
- `Scheduler`: the `MarkedGraph` class with `unmarked_roots`, the `execution_order` loop, and the layering function `Layers` both are proved against. It also holds the layering's properties and a checked variant that reports a cycle instead of returning a partial plan.

The edge rule (`add_edge`) has these consequences:

- `add_edge` drops a second edge for a pair it already holds. So every adjacency map keeps at most one edge per pair, and the first caller's metadata wins.
- On the entity graph, two joins of one entity to the same upstream entity therefore keep only the earlier join's alias. A selector through the later join's alias never resolves, provided no other join into that entity uses the same alias (`EntityGraphs.SecondAliasCollapsed`).

Two points where the code's behaviour may surprise:

- Entity names come from two different places. A derived entity is named by its lower-cased class name (main.py:68: `Shops` becomes `shops`, `Sales` becomes `sales`), and a source by its schema path. So attribute keys read `data/raw/shops.country` next to `sales.shop_name`. In the model, `Catalog.NewDerived` and `Catalog.NewSource` take these names as given.
- On a cyclic attribute graph, `execution_order` does not loop forever. It stops as soon as no node is ready and returns the layers found so far, which is empty when every node lies on or behind a cycle. See "## Findings".

## Model

| member | source | states |
|---|---|---|
| Catalog.Entity.Get | main.py:48-51 | succeeds exactly when the name is declared and returns that attribute; otherwise it fails with `AttributeNotFound` carrying the entity, the name and the legal names |
| Catalog.Attributes | main.py:37-42 | the table has exactly the defined names; each attribute is filed under its own name, points back at its owner and carries the defined inputs and type |
| Catalog.ValidEntityAttribute | main.py:22-27 | every attribute of a well-formed entity is filed under its own name and points back at its entity; a source's attributes have no inputs |
| Catalog.NewSource | main.py:54-63 | a source is a well-formed entity named by its path, with one attribute per schema column of the schema's type, no inputs and no joins |
| Catalog.Entity.Relationships | main.py:35 | a source has no joins, since it inherits the empty `RELATIONSHIPS` of `Entity`; a derived entity has its declared joins, in declaration order |
| Catalog.NewJoin | main.py:79-83 | a join records the upstream entity, the `name` argument (an upstream column such as `'id'` or `'order_id'`, which the engine never reads) and the match attribute, which defaults to `"id"`; the alias is the join's key in `RELATIONSHIPS`, not part of the join |
| Catalog.NewDerived | main.py:66-76 | given joins with distinct aliases, as the `RELATIONSHIPS` dict guarantees, a derived entity is well formed, has one attribute per definition with that definition's inputs and type, and declares the given joins |
| Strings.Split | main.py:337 | splitting always yields at least one piece |
| Strings.SplitLength | main.py:337 | the number of pieces is one more than the number of separators, so unpacking into two needs exactly one dot |
| Strings.SplitPiecesFree | main.py:337 | no piece contains the separator |
| Strings.JoinSplit | main.py:337 | joining the pieces with the separator gives back the string |
| Strings.SplitJoin | main.py:337 | splitting a separator-free list of pieces joined by the separator gives back the pieces |
| Strings.SplitFree | main.py:337 | a string without the separator splits into itself |
| Strings.SplitPrefix | main.py:337 | splitting `a + sep + b` with `a` separator-free gives `a` followed by the pieces of `b` |
| Strings.KeyInjective | main.py:349-350 | `'{}.{}'` keys of dot-free table names determine the table and the attribute |
| Graphs.Graph.constructor | main.py:236-239 | a new graph has no nodes and no edges |
| Graphs.Graph.AddNode | main.py:241-242 | the node table maps the key to the value, overwriting any earlier value, and nothing else changes |
| Graphs.Graph.AddEdge | main.py:244-249 | the edges become `WithEdge` of the old edges: the edge is appended unless the pair already has one |
| Graphs.WithEdgeHasEdge | main.py:244-249 | after `add_edge` a pair has an edge exactly when it had one or it is the added pair |
| Graphs.WithEdgePairs | main.py:244-249 | `add_edge` adds exactly the pair to the set of connected pairs |
| Graphs.WithEdgeExisting | main.py:247-248 | adding an edge for a pair that already has one changes nothing, metadata included |
| Graphs.WithEdgeIdempotent | main.py:244-249 | adding the same pair twice equals adding it once with the first metadata |
| Graphs.WithEdgeWellFormed | main.py:244-249 | `add_edge` keeps at most one edge per pair |
| Graphs.WithEdgeInEdges | main.py:244-255 | the in-edges after `add_edge` are the old ones plus the new edge when it targets the key and the pair was new |
| Graphs.InEdges | main.py:251-255 | `(f, m)` is an in-edge of a key exactly when `f`'s adjacency list holds `(key, m)`; a pair has an edge exactly when some in-edge comes from its source |
| Graphs.OutEdges | main.py:257-259 | fails with `KeyError` exactly when the key has no adjacency list; otherwise lists exactly the targets the key has edges to |
| Graphs.OutInDuality | main.py:251-259 | `(to, m)` is an out-edge of `key` exactly when `(key, m)` is an in-edge of `to` |
| Graphs.OutEdgesFailure | main.py:244-249 | on a graph built by `add_edge`, `out_edges` fails exactly for keys with no outgoing edge |
| Graphs.Roots | main.py:261-264 | a key is a root exactly when it is a node and no edge ends at it |
| Graphs.EdgePairs | main.py:244-249 | the connected pairs are exactly the pairs with an edge |
| Graphs.AddEdgesAppend | main.py:244-249 | two runs of `add_edge` calls compose like one run over the concatenated calls |
| Graphs.AddEdgesHasEdge | main.py:244-249 | after a run of calls a pair has an edge exactly when it had one or some call asked for it |
| Graphs.FirstMetaSnoc | main.py:247-249 | the metadata kept for a pair after one more call is the earlier kept metadata, or the new call's when it is the first for that pair |
| Graphs.AddEdgesInEdges | main.py:244-255 | from an empty graph, `(a, m)` is an in-edge of `b` exactly when `m` is the metadata of the first call for `a -> b` |
| Graphs.AddEdgesWellFormed | main.py:244-249 | any run of `add_edge` calls keeps at most one edge per pair |
| EntityGraphs.EntityRequests | main.py:326-331 | one `add_edge` call per join, in declaration order, from the upstream entity to the entity, carrying the alias and the join |
| EntityGraphs.BuildEntityGraph | main.py:321-333 | the nodes file each entity under its name, the last of a name winning; the edges are those of the `add_edge` calls of all joins in order |
| EntityGraphs.PrefixStep | main.py:324-331 | one more entity appends its join calls and files its node |
| EntityGraphs.AddJoinEdges | main.py:326-331 | the edges become the old edges with the entity's join calls applied |
| EntityGraphs.JoinRequestsSound | main.py:324-331 | every `add_edge` call comes from a declared join |
| EntityGraphs.JoinRequestsComplete | main.py:324-331 | every declared join makes an `add_edge` call |
| EntityGraphs.JoinRequestsMembers | main.py:324-331 | a call is made exactly when it belongs to a declared join |
| EntityGraphs.EntityNodesSpec | main.py:324-325 | a name is a node exactly when some entity has it, and it holds the last such entity |
| EntityGraphs.EntityGraphEdges | main.py:321-333 | the entity graph has an edge `a -> b` exactly when an entity named `b` declares a join to an entity named `a` |
| EntityGraphs.EntityGraphMeta | main.py:326-331 | the metadata on an entity-graph edge is that of the first join asking for the pair, and it names a join the target entity declares |
| EntityGraphs.EntityGraphWellFormed | main.py:321-333 | the entity graph keeps at most one edge per pair |
| EntityGraphs.TheElement | main.py:345-346 | the element picked from a one-element set is its only member |
| EntityGraphs.LookupInputKeys | main.py:336-351 | `lookup_input_keys`; its contract is stated by `EntityGraphs.LookupInputKeysSpec`, the next row |
| EntityGraphs.LookupInputKeysSpec | main.py:336-351 | fails as malformed exactly when the selector does not have exactly one dot; succeeds exactly when one in-edge carries the alias; then returns the upstream entity's key for the column and the entity's key for the join's match attribute |
| EntityGraphs.SplitSelector | main.py:337 | `alias.column` with dot-free parts splits into the alias and the column |
| EntityGraphs.SoleAliasEdge | main.py:338-344 | when a join's call is the first for its pair and its alias is unique on the entity, exactly its edge carries the alias |
| EntityGraphs.LookupDeclaredAlias | main.py:336-351 | through such a join, `alias.column` resolves to the upstream entity's column and the joining entity's match attribute |
| EntityGraphs.LookupUnresolvedAlias | main.py:338-345 | an alias no surviving edge into the entity carries fails the single-match check with no match |
| EntityGraphs.JoinRequestsAt | main.py:322-331 | the `add_edge` call for join `k` of entity `i` comes after the calls of the earlier entities and the entity's earlier joins |
| EntityGraphs.SecondAliasCollapsed | main.py:244-249 | in the entity graph of any catalog, for joins `k0 < k1` of one entity to the same upstream entity, a selector through the alias of `k1` fails with no match, when no other join into that entity uses that alias: the edge of `k1` collapsed into the edge of `k0` |
| AttributeGraphs.BuildAttributeGraph | main.py:354-368 | succeeds exactly when every input of every attribute resolves, failing with the error of a failing input; on success the nodes are exactly the attribute keys, each holding an attribute with that key, and the edges are exactly those the resolved inputs demand, at most one per pair |
| AttributeGraphs.AddEntityAttributes | main.py:358-366 | only the entity's attribute keys are written: every other node keeps its attribute and no node is removed; when all its inputs resolve it adds exactly the entity's attribute keys and exactly its attributes' edges; otherwise it reports the error of a failing input |
| AttributeGraphs.AddNextAttribute | main.py:358-366 | one pass of the attribute loop: after the attributes done so far plus this one, the nodes are the old keys plus exactly their keys, nodes outside their keys are unchanged, and the edges are the old edges plus theirs when this attribute's inputs resolve |
| AttributeGraphs.AddAttribute | main.py:359-366 | the node table becomes the old one with the attribute's key mapped to the attribute, and nothing else in it changes; it adds exactly the attribute's input edges when all its inputs resolve, and otherwise reports the error of a failing input |
| AttributeGraphs.AddInputEdges | main.py:362-366 | succeeds exactly when every input resolves, adding exactly the attribute's input edges; otherwise it reports the error of a failing input |
| AttributeGraphs.AddInput | main.py:363-366 | one selector: on resolution adds the input edge and, unless the parent key is the attribute's own key, the parent edge; otherwise reports the lookup error |
| AttributeGraphs.AttrKeysUnion | main.py:357-360 | the keys of one more entity are the old keys plus that entity's keys |
| AttributeGraphs.AttrEdgesUnion | main.py:357-366 | the edges of one more entity are the old edges plus that entity's edges |
| AttributeGraphs.EntityUnion | main.py:358-366 | the keys and edges of one more attribute are the old ones plus that attribute's |
| AttributeGraphs.SelectorEdgesUnion | main.py:362-366 | the edges of one more selector are the old ones plus that selector's |
| AttributeGraphs.AttrEdgesSound | main.py:362-366 | every attribute-graph edge comes from a resolved input of some attribute, as its input key or as a parent key differing from the attribute's key |
| AttributeGraphs.AttrEdgesComplete | main.py:362-366 | every resolved input of every attribute yields its edges |
| AttributeGraphs.AttrEdgesSpec | main.py:354-368 | `x -> y` is an attribute-graph edge exactly when some input of the attribute keyed `y` resolves to input key `x`, or to parent key `x` other than `y` |
| AttributeGraphs.NoParentSelfLoop | main.py:365-366 | a self-loop can only come from an input key equal to the attribute's own key, never from the parent key |
| AttributeGraphs.AttrKeysSpec | main.py:357-360 | a key is a node exactly when it is `entity.attribute` for some attribute of some entity |
| AttributeGraphs.RootsWithoutInputs | main.py:261-264 | in a graph built from resolving inputs, a node is a root exactly when every attribute with that key declares no input |
| AttributeGraphs.ValidateGraph | main.py:371-374 | succeeds exactly when every root holds a source attribute; a failure names a nonempty set of roots, each a node without in-edges holding a non-source attribute |
| AttributeGraphs.InputlessIsRoot | main.py:371-374 | with unique keys, an attribute without inputs is a root whose node holds it |
| AttributeGraphs.InputlessKey | main.py:359-360 | with unique keys, an input-less attribute is the only attribute under its key |
| AttributeGraphs.KeyedNode | main.py:359-360 | with unique keys, the node under an attribute's key holds that attribute |
| AttributeGraphs.InputlessDerivedFails | main.py:371-374 | a derived attribute without inputs makes validation fail |
| AttributeGraphs.InputfulCatalogPasses | main.py:371-374 | when every derived attribute declares an input, validation succeeds |
| AttributeGraphs.ValidateAttributeGraph | main.py:371-374 | on a well-formed catalog with unique keys, validation succeeds exactly when every derived attribute declares at least one input |
| Example.Sales | main.py:192-218 | the cut-down `Sales` is named `sales`; its joins are `orders` to `Join(orders, "id", "id")` and `shops` to `Join(shops, "id", "shop_id")`, in that order; attribute `id` reads `orders.id` and attribute `shop_name` reads `shops.name` |
| Example.SalesRequests | main.py:192-197 | the `add_edge` calls for `[orders, shops, sales]` are the upstream entities' calls followed by one call per join of `sales`, in declaration order |
| Example.SalesSoleAliases | main.py:192-197 | each join of `sales` makes the first call for its pair and is the only join into `sales` with its alias |
| Example.SalesLookupShopName | main.py:215-218 | `shops.name` on `sales` resolves to the column `shops.name` and the join key `sales.shop_id` |
| Example.SalesLookupOrderId | main.py:200-203 | `orders.id` on `sales` resolves to `data/raw/orders.id` and `sales.id` |
| Example.SalesShopNameEdges | main.py:215-218 | in any attribute graph holding `sales`, `sales.shop_name` has edges from `shops.name` and from the join key `sales.shop_id` |
| Example.SalesIdEdges | main.py:200-203 | `sales.id` gets exactly one edge, from `data/raw/orders.id`: its parent key is its own key, so no self-loop is added |
| Scheduler.ReadyExactly | main.py:301-306 | a set of unmarked nodes that holds exactly the unmarked nodes with all predecessors marked is the ready set |
| Scheduler.ReadyShrinks | main.py:381-384 | marking a nonempty ready set strictly shrinks the unmarked nodes, so the plan loop terminates |
| Scheduler.InEdgesMarked | main.py:304-305 | every in-edge comes from a marked node exactly when every predecessor is marked |
| Scheduler.Scheduled | main.py:377-386 | a node is scheduled exactly when some layer holds it |
| Scheduler.InEdgesAllMarked | main.py:304-305 | the `all(...)` test holds exactly when every predecessor of the node is marked |
| Scheduler.ReadyNodes | main.py:302-306 | collects exactly the unmarked nodes whose predecessors are all marked |
| Scheduler.MarkedGraph.FromGraph | main.py:289-298 | the copy has the graph's nodes and edges and no marked node |
| Scheduler.MarkedGraph.UnmarkedRoots | main.py:301-309 | returns exactly the unmarked nodes whose predecessors are all marked and adds them to the marked set; the returned nodes are nodes, none was marked before, and no edge joins two of them |
| Scheduler.ExecutionOrder | main.py:377-386 | the plan is the layering of the graph's nodes and connected pairs |
| Scheduler.LayersUnfold | main.py:381-384 | the layering is empty when nothing is ready and otherwise starts with the ready set, followed by the layering after marking it |
| Scheduler.LayersShape | main.py:381-384 | every layer is a nonempty set of nodes, none of them marked before the plan started |
| Scheduler.LayersDisjoint | main.py:377-386 | layers are pairwise disjoint |
| Scheduler.ConsTopological | main.py:381-384 | putting a layer whose predecessors are all marked before a topological plan keeps it topological |
| Scheduler.LayersTopological | main.py:377-386 | every predecessor of a scheduled node is marked beforehand or sits in a strictly earlier layer |
| Scheduler.LayerIndependent | main.py:377-386 | two nodes of the same layer are not connected |
| Scheduler.LayersFixpoint | main.py:382 | once the plan ends, no unscheduled node is ready |
| Scheduler.CycleNeverScheduled | main.py:377-386 | no node on a cycle is ever scheduled |
| Scheduler.Pigeonhole | main.py:377-386 | a walk longer than the set it stays in repeats a node |
| Scheduler.BackWalk | main.py:377-386 | in a set where every node has a predecessor inside it, there is a backward walk of any length |
| Scheduler.CycleIn | main.py:377-386 | such a set contains a cycle |
| Scheduler.Reversed | main.py:377-386 | a repeated node on a backward walk closes a forward cycle |
| Scheduler.StuckHavePredecessors | main.py:382 | when the plan stops on a closed graph, every unscheduled node has an unscheduled predecessor |
| Scheduler.LayersComplete | main.py:377-386 | on an acyclic graph whose edges start at nodes, every node is scheduled |
| Scheduler.ScheduledWithin | main.py:377-386 | only nodes are scheduled |
| Scheduler.LayersClosed | main.py:377-386 | if every node is scheduled, every edge into a node starts at a node |
| Scheduler.LayersAcyclic | main.py:377-386 | if every node is scheduled, the nodes hold no cycle |
| Scheduler.LayersCompleteIff | main.py:377-386 | every node is scheduled exactly when the graph is acyclic and its edges into nodes start at nodes |
| Scheduler.TwoCycleUnscheduled | main.py:377-386 | on nodes `a`, `b` with edges `a -> b` and `b -> a` the plan is empty |
| Scheduler.CheckedPlan | main.py:377-386 | the layering leaves no node out exactly when the graph is closed and acyclic, and then it schedules exactly the nodes |
| Scheduler.CheckedExecutionOrder | main.py:377-386 | succeeds exactly when the graph is acyclic and closed, returning the plan, which then schedules every node; otherwise reports exactly the nodes left unscheduled, a nonempty set |

## Left out

- `Graph.dot`, `Graph.render`, `Graph._dot_nodes` and `MarkedGraph._dot_nodes` (main.py:266-286, 311-318) produce Graphviz text, write a temporary file and start external programs. That is I/O and not part of this model.
- The decorators `input`/`output` and the reflection in `Derived.__init__` (`dir`, `getattr`, `hasattr`, `__class__.__name__.lower()`) are not modelled. `Catalog.NewDerived` takes the name and the attribute definitions those would produce.
- `SCHEMAS` and `Source._load_schema` are not modelled as a global. `Catalog.NewSource` takes the schema of the path as a parameter.
- Transform function bodies, `__repr__`, the text of the `AttributeNotFound` message and the integer values of `AttributeType` are not modelled; the engine never inspects them.
- `Attribute.entity` is a back-reference to the entity object. It is modelled as `Owner(name, isSource)`, the only facts the engine reads from it.
- `deepcopy` in `MarkedGraph.from_graph` is modelled as copying the immutable `nodes` and `edges` values.
- Iteration order of the dicts the attribute graph walks (`entity_graph.nodes`, `entity.attributes`, `attribute.inputs`) is not modelled. The builder picks the next element in an unspecified order, so adjacency-list order, which attribute a clashing key keeps, and which failing input is reported first are left open. Every stated property holds for any order. `Entity.RELATIONSHIPS` keeps its order, because it decides which join's metadata survives.
- Graphs.OutEdges: reports the `KeyError` at the call. The Python generator raises it only when first iterated. The engine never calls `out_edges`.
- Graphs.InEdges: returns a set of `(from, meta)` pairs rather than a generator in dict order. On graphs built by `add_edge` each pair has one edge, so only the order is lost.
- AttributeGraphs.ValidateGraph: reports every non-source root. Python's `assert` stops at the first, in dict order, and raises `AssertionError`.
- AttributeGraphs.BuildAttributeGraph: resolves selectors through `ResolverOf`, a function value bound to the entity graph's edges. A failing lookup (a `ValueError` from unpacking or an `AssertionError` from the single-match check) becomes a `LookupError` result instead of an exception.
- Catalog.Entity.Get: returns the intended `AttributeNotFound` failure for an undeclared name. As written, the code never gets that far: the message format string at main.py:11-12 has a lone `}` after `{{`, so `str.format` raises `ValueError` while the exception is being constructed, and `entity[name]` on an unknown name raises `ValueError` instead of `AttributeNotFound`.
- Scheduler.ExecutionOrder: the plan is stated as a ghost layering over the set of connected pairs. The order of nodes inside a Python set is not modelled.
- The example catalog and the top-level calls (main.py:117-231, 389-391) are concrete data and a script that runs the pipeline once. Only `Sales`, cut down to `id`, `shop_name` and the joins to `orders` and `shops`, is modelled, in `Example`; the other entities, the other attributes and the script are not part of this model.

## Findings

| source | as written | input that shows it | evidently intended | confidence | as-written member | corrected member |
|---|---|---|---|---|---|---|
| main.py:377-386 | the loop stops when no node is ready and returns the layers found so far, without error, even when nodes remain unscheduled | nodes `a`, `b` with edges `a -> b` and `b -> a`: the plan is `[]` | a plan that schedules every node, or an explicit error naming the nodes that cannot be scheduled (`Scheduler.CheckedPlan` proves the layering misses no node exactly on closed acyclic graphs) | not executed | Scheduler.TwoCycleUnscheduled | Scheduler.CheckedExecutionOrder |

The same silent truncation happens when an edge into a node starts at a key that is not a node. For example, an input selector names a column the upstream entity does not declare. `Scheduler.LayersCompleteIff` proves that every node is scheduled exactly when the graph is acyclic and closed in this sense.
