/**
 * The catalog the engine consumes: sources and derived entities, their
 * attributes and the joins a derived entity declares.
 *
 * Python's `Attribute.entity` back-reference cannot be a value (the entity
 * holds the attribute), so an attribute records its owner by name together
 * with the one fact the engine asks of it, `isinstance(entity, Source)`.
 * `Entity.RELATIONSHIPS` is an insertion-ordered dict whose order decides
 * which join survives edge de-duplication, so it is a sequence of
 * `(alias, join)` pairs.
 */
module Catalog {
  import opened Wrappers

  datatype AttributeType = Int | String | Decimal | Timestamp

  /** The owning entity as an attribute sees it. */
  datatype Owner = Owner(name: string, isSource: bool)

  /** An attribute: its owner, its name, its type, and its inputs, mapping
      an input name to an `"<alias>.<column>"` selector. */
  datatype Attribute = Attribute(entity: Owner, name: string, attrType: AttributeType, inputs: map<string, string>)

  /** A join to the upstream `entity`. `name` is an upstream column (`'id'`,
      `'order_id'`) that the engine never reads; `matchName` names the
      attribute of the joining entity compared with the upstream row. The
      join's alias is its key in `RELATIONSHIPS`, not part of the join. */
  datatype Join = Join(entity: Entity, name: string, matchName: string)

  datatype Entity =
    | Source(name: string, attributes: map<string, Attribute>)
    | Derived(name: string, attributes: map<string, Attribute>, joins: seq<(string, Join)>)
  {
    /** `RELATIONSHIPS`: a source inherits the empty dict of `Entity`. */
    function Relationships(): (r: seq<(string, Join)>)
      ensures Source? ==> r == []
      ensures Derived? ==> r == joins
    {
      if Source? then [] else joins
    }

    /** `entity[name]`: the declared attribute, or `AttributeNotFound`. */
    function Get(attrName: string): (r: Result<Attribute, AttributeNotFound>)
      ensures r.Success? <==> attrName in attributes
      ensures r.Success? ==> r.value in attributes.Values && r.value == attributes[attrName]
      ensures r.Failure? ==> r.error == AttributeNotFound(name, attrName, attributes.Keys)
    {
      if attrName !in attributes then Failure(AttributeNotFound(name, attrName, attributes.Keys))
      else Success(attributes[attrName])
    }
  }

  /** The failure raised by an unknown attribute name, with the legal names. */
  datatype AttributeNotFound = AttributeNotFound(entity: string, attribute: string, legal: set<string>)

  /** An attribute definition: the inputs and the output type. */
  type AttributeDef = (map<string, string>, AttributeType)

  /** What `Entity.__init__` establishes: every attribute is filed under its
      own name and points back at its entity; a source's attributes read no
      inputs. `RELATIONSHIPS` is a dict, so no alias appears twice. */
  predicate ValidEntity(e: Entity)
  {
    (forall n :: n in e.attributes ==>
      e.attributes[n].name == n &&
      e.attributes[n].entity == Owner(e.name, e.Source?) &&
      (e.Source? ==> e.attributes[n].inputs == map[])) &&
    DistinctAliases(e.Relationships())
  }

  /** No alias is declared twice. */
  predicate DistinctAliases(joins: seq<(string, Join)>)
  {
    forall i, j :: 0 <= i < j < |joins| ==> joins[i].0 != joins[j].0
  }

  /** Every attribute of a well-formed entity points back at it; a source's
      attributes have no inputs. */
  lemma ValidEntityAttribute(e: Entity, a: Attribute)
    requires ValidEntity(e) && a in e.attributes.Values
    ensures a.entity == Owner(e.name, e.Source?) && a.name in e.attributes && e.attributes[a.name] == a
    ensures e.Source? ==> a.inputs == map[]
  {
    var n :| n in e.attributes && e.attributes[n] == a;
  }

  /** The attribute table `Entity.__init__` builds from `attr_defs`. */
  function Attributes(owner: Owner, defs: map<string, AttributeDef>): (attrs: map<string, Attribute>)
    ensures attrs.Keys == defs.Keys
    ensures forall n :: n in attrs ==>
      attrs[n].name == n && attrs[n].entity == owner &&
      attrs[n].inputs == defs[n].0 && attrs[n].attrType == defs[n].1
  {
    map n | n in defs :: Attribute(owner, n, defs[n].1, defs[n].0)
  }

  /** `Source(path)`: one input-less attribute per column of the schema. */
  function NewSource(path: string, schema: map<string, AttributeType>): (e: Entity)
    ensures e.Source? && e.name == path && ValidEntity(e)
    ensures e.attributes.Keys == schema.Keys
    ensures forall n :: n in e.attributes ==> e.attributes[n].attrType == schema[n]
    ensures e.Relationships() == []
  {
    Source(path, Attributes(Owner(path, true), map n | n in schema :: (map[], schema[n])))
  }

  /** A derived entity with its attribute table and its joins. */
  function NewDerived(name: string, defs: map<string, AttributeDef>, joins: seq<(string, Join)>): (e: Entity)
    requires DistinctAliases(joins)
    ensures e.Derived? && e.name == name && ValidEntity(e)
    ensures e.attributes.Keys == defs.Keys
    ensures forall n :: n in e.attributes ==> (e.attributes[n].inputs, e.attributes[n].attrType) == defs[n]
    ensures e.Relationships() == joins
  {
    Derived(name, Attributes(Owner(name, false), defs), joins)
  }

  /** `Join(entity, name)` with the default match attribute `'id'`. */
  function NewJoin(entity: Entity, name: string, matchName: string := "id"): (j: Join)
    ensures j.entity == entity && j.name == name && j.matchName == matchName
  {
    Join(entity, name, matchName)
  }
}
