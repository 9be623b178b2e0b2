/**
 * A cut-down `Sales` from the example catalog, run through the engine's
 * specifications: its joins become entity-graph edges, its selectors resolve
 * through them, and its attributes get their attribute-graph edges. The
 * upstream entities are parameters, so the facts hold whatever attributes
 * and joins `orders` and `shops` themselves declare.
 */
module Example {
  import opened Wrappers
  import opened Strings
  import opened Catalog
  import opened Graphs
  import opened EntityGraphs
  import opened AttributeGraphs

  /** `Sales` with its attributes `id` (from `orders.id`) and `shop_name`
      (from `shops.name`), joined to `orders` on `id` and to `shops` on
      `shop_id`. */
  function Sales(orders: Entity, shops: Entity): (e: Entity)
    ensures e.name == "sales"
    ensures e.Relationships() == [("orders", Join(orders, "id", "id")), ("shops", Join(shops, "id", "shop_id"))]
    ensures "id" in e.attributes && e.attributes["id"].name == "id"
    ensures e.attributes["id"].inputs == map["id" := Key("orders", "id")]
    ensures "shop_name" in e.attributes && e.attributes["shop_name"].name == "shop_name"
    ensures e.attributes["shop_name"].inputs == map["name" := Key("shops", "name")]
  {
    NewDerived("sales",
      map["id" := (map["id" := Key("orders", "id")], Int), "shop_name" := (map["name" := Key("shops", "name")], String)],
      [("orders", NewJoin(orders, "id")), ("shops", NewJoin(shops, "id", "shop_id"))])
  }

  /** The `add_edge` calls for `[orders, shops, sales]`: those of the two
      upstream entities, then one per join of `sales`. */
  lemma SalesRequests(orders: Entity, shops: Entity)
    ensures JoinRequests([orders, shops, Sales(orders, shops)]) ==
      EntityRequests(orders) + EntityRequests(shops) +
      [(orders.name, "sales", JoinMeta("orders", Join(orders, "id", "id"))),
       (shops.name, "sales", JoinMeta("shops", Join(shops, "id", "shop_id")))]
  {
    var sales := Sales(orders, shops);
    assert EntityRequests(sales) ==
      [(orders.name, "sales", JoinMeta("orders", Join(orders, "id", "id"))),
       (shops.name, "sales", JoinMeta("shops", Join(shops, "id", "shop_id")))];
    assert [orders, shops, sales][..2] == [orders, shops];
    assert [orders, shops][..1] == [orders];
    assert [orders][..0] == [];
    calc {
      JoinRequests([orders, shops, sales]);
      JoinRequests([orders, shops]) + EntityRequests(sales);
      JoinRequests([orders]) + EntityRequests(shops) + EntityRequests(sales);
      JoinRequests([]) + EntityRequests(orders) + EntityRequests(shops) + EntityRequests(sales);
    }
  }

  /** Among the calls for `[orders, shops, sales]`, the two joins of
      `sales` are each the first call for their pair and the only one of
      their alias into `sales`. */
  lemma SalesSoleAliases(orders: Entity, shops: Entity, n: int)
    requires orders.name == "data/raw/orders" && shops.name == "shops"
    requires n == |EntityRequests(orders)| + |EntityRequests(shops)|
    ensures var reqs := JoinRequests([orders, shops, Sales(orders, shops)]);
      SoleAliasRequest(reqs, n) && SoleAliasRequest(reqs, n + 1) &&
      reqs[n] == (orders.name, "sales", JoinMeta("orders", Join(orders, "id", "id"))) &&
      reqs[n + 1] == (shops.name, "sales", JoinMeta("shops", Join(shops, "id", "shop_id")))
  {
    var reqs := JoinRequests([orders, shops, Sales(orders, shops)]);
    SalesRequests(orders, shops);
    forall k | 0 <= k < n
      ensures reqs[k].1 != "sales"
    {
      if k < |EntityRequests(orders)| {
        assert reqs[k] == EntityRequests(orders)[k];
      } else {
        assert reqs[k] == EntityRequests(shops)[k - |EntityRequests(orders)|];
      }
    }
  }

  /** In the entity graph of `[orders, shops, sales]`, `shops.name` resolves
      to the shops column and the join key `sales.shop_id`. Keys and
      selectors are written with `Key`, the `'{}.{}'` format. */
  lemma SalesLookupShopName(orders: Entity, shops: Entity)
    requires orders.name == "data/raw/orders" && shops.name == "shops"
    ensures LookupInputKeys(AddEdges(map[], JoinRequests([orders, shops, Sales(orders, shops)])), "sales", Key("shops", "name"))
      == Success((Key("shops", "name"), Key("sales", "shop_id")))
  {
    var n := |EntityRequests(orders)| + |EntityRequests(shops)|;
    SalesSoleAliases(orders, shops, n);
    LookupDeclaredAlias([orders, shops, Sales(orders, shops)], n + 1, "name");
  }

  /** ... and `orders.id` resolves to the orders column and `sales.id`. */
  lemma SalesLookupOrderId(orders: Entity, shops: Entity)
    requires orders.name == "data/raw/orders" && shops.name == "shops"
    ensures LookupInputKeys(AddEdges(map[], JoinRequests([orders, shops, Sales(orders, shops)])), "sales", Key("orders", "id"))
      == Success((Key("data/raw/orders", "id"), Key("sales", "id")))
  {
    var n := |EntityRequests(orders)| + |EntityRequests(shops)|;
    SalesSoleAliases(orders, shops, n);
    LookupDeclaredAlias([orders, shops, Sales(orders, shops)], n, "id");
  }

  /** The attribute graph of any set of entities holding `sales`, resolved
      through that entity graph: `shop_name` depends on the shops column and
      on the join key `sales.shop_id`. */
  lemma SalesShopNameEdges(orders: Entity, shops: Entity, es: set<Entity>)
    requires orders.name == "data/raw/orders" && shops.name == "shops"
    requires Sales(orders, shops) in es
    ensures var resolve := ResolverOf(AddEdges(map[], JoinRequests([orders, shops, Sales(orders, shops)])));
      (Key("shops", "name"), Key("sales", "shop_name")) in AttrEdges(resolve, es) &&
      (Key("sales", "shop_id"), Key("sales", "shop_name")) in AttrEdges(resolve, es)
  {
    var sales := Sales(orders, shops);
    var resolve := ResolverOf(AddEdges(map[], JoinRequests([orders, shops, sales])));
    SalesLookupShopName(orders, shops);
    var shopName, sel := sales.attributes["shop_name"], Key("shops", "name");
    assert sel in shopName.inputs.Values by {
      assert shopName.inputs["name"] == sel;
    }
    assert DependsVia(resolve, sales, shopName, sel, sel, Key("sales", "shop_name"));
    AttrEdgesComplete(resolve, es, sales, shopName, sel, sel, Key("sales", "shop_name"));
    assert DependsVia(resolve, sales, shopName, sel, Key("sales", "shop_id"), Key("sales", "shop_name"));
    AttrEdgesComplete(resolve, es, sales, shopName, sel, Key("sales", "shop_id"), Key("sales", "shop_name"));
  }

  /** `id` depends on `orders.id` only: its parent key is its own key, so no
      self-loop is added. */
  lemma SalesIdEdges(orders: Entity, shops: Entity)
    requires orders.name == "data/raw/orders" && shops.name == "shops"
    ensures var resolve := ResolverOf(AddEdges(map[], JoinRequests([orders, shops, Sales(orders, shops)])));
      AttributeEdges(resolve, Sales(orders, shops), Sales(orders, shops).attributes["id"]) ==
        {(Key("data/raw/orders", "id"), Key("sales", "id"))}
  {
    var sales := Sales(orders, shops);
    var resolve := ResolverOf(AddEdges(map[], JoinRequests([orders, shops, sales])));
    SalesLookupOrderId(orders, shops);
    var id, sel, key := sales.attributes["id"], Key("orders", "id"), Key("sales", "id");
    var edge := (Key("data/raw/orders", "id"), key);
    assert InputEdges(resolve, "sales", key, sel) == {edge};
    assert "id" in id.inputs && id.inputs["id"] == sel;
    forall p | p in AttributeEdges(resolve, sales, id)
      ensures p == edge
    {
      var s' :| s' in id.inputs.Values && p in InputEdges(resolve, "sales", key, s');
      var k :| k in id.inputs && id.inputs[k] == s';
    }
    assert edge in AttributeEdges(resolve, sales, id);
  }
}
