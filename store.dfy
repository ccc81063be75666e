/**
 * The graph store the engine works on: the loaded crate as a map from node
 * identifier to the node's JSON-LD property map ("@id" and "@type" are
 * properties like any other). `Crate` is the one mutable object of a run.
 *
 * Only the interface the engine uses is modelled: `get`, `add`/`add_file`
 * as insert-or-replace at the identifier, `delete`, `get_by_type`,
 * `append_to` and `update_jsonld`.
 */
module Store {
  import opened Values

  type Props = map<string, Json>
  type Nodes = map<string, Props>

  const RootId := "./"
  const MetadataId := "ro-crate-metadata.json"

  /** The node at `id`, if there is one. */
  function Lookup(nodes: Nodes, id: string): (r: Option<Props>)
    ensures r.Some? <==> id in nodes
    ensures r.Some? ==> r.value == nodes[id]
  {
    if id in nodes then Some(nodes[id]) else None
  }

  /** Storing twice at the same identifier keeps only the second node. */
  lemma StoreTwice(nodes: Nodes, id: string, first: Props, second: Props)
    ensures nodes[id := first][id := second] == nodes[id := second]
  {
  }

  /** The entity class a node is built with; each brings a default "@type". */
  datatype Kind = PersonKind | FileKind | ContextKind

  /** The "@type" a node of each class gets when the supplied properties name none. */
  function DefaultType(kind: Kind): string {
    match kind
    case PersonKind => "Person"
    case FileKind => "File"
    case ContextKind => "Thing"
  }

  /**
   * The node the store builds for `id`: the class's default "@id" and
   * "@type", overridden by every supplied property.
   */
  function Construct(id: string, kind: Kind, props: Props): (p: Props)
    ensures p.Keys == props.Keys + {"@id", "@type"}
    ensures forall k :: k in props ==> p[k] == props[k]
    ensures "@id" !in props ==> p["@id"] == JStr(id)
    ensures "@type" !in props ==> p["@type"] == JStr(DefaultType(kind))
  {
    map["@id" := JStr(id), "@type" := JStr(DefaultType(kind))] + props
  }

  /** The types a node declares: one string or a list of strings under "@type". */
  function TypesOf(p: Props): set<string> {
    if "@type" !in p then {}
    else match p["@type"]
      case JStr(t) => {t}
      case JList(items) => set i | 0 <= i < |items| && items[i].JStr? :: items[i].s
      case _ => {}
  }

  /** `get_by_type(t)` selects the nodes for which this holds. */
  predicate HasType(p: Props, t: string) {
    t in TypesOf(p)
  }

  /**
   * `append_to(key, values)`: the current value becomes a list if it is not
   * one (a missing key counts as the empty list) and `values` are added at
   * its end; nothing else changes.
   */
  function AppendedTo(p: Props, key: string, values: seq<Json>): (r: Props)
    ensures r.Keys == p.Keys + {key}
    ensures forall k :: k in p && k != key ==> r[k] == p[k]
    ensures r[key].JList?
    ensures key in p && p[key].JList? ==> r[key].items == p[key].items + values
    ensures key !in p ==> r[key].items == values
  {
    var current := if key in p then Listify(p[key]).items else [];
    p[key := JList(current + values)]
  }

  /** Two appends to the same key are one append of both lists. */
  lemma AppendedToTwice(p: Props, key: string, a: seq<Json>, b: seq<Json>)
    ensures AppendedTo(AppendedTo(p, key, a), key, b) == AppendedTo(p, key, a + b)
  {
    var current := if key in p then Listify(p[key]).items else [];
    assert current + a + b == current + (a + b);
  }

  class Crate {
    var nodes: Nodes

    /** A crate loaded from its serialised form. */
    constructor (loaded: Nodes)
      ensures nodes == loaded
    {
      nodes := loaded;
    }

    /** `crate.get(id)` */
    function Get(id: string): (r: Option<Props>)
      reads this
      ensures r == Lookup(nodes, id)
    {
      Lookup(nodes, id)
    }

    /** The identifiers of `crate.get_by_type(t)`. */
    function GetByType(t: string): (ids: set<string>)
      reads this
      ensures forall id :: id in ids <==> id in nodes && HasType(nodes[id], t)
    {
      set id | id in nodes && HasType(nodes[id], t)
    }

    /** `crate.add(Entity(crate, id, properties=props))` and `crate.add_file(id, properties=props)`. */
    method Add(id: string, kind: Kind, props: Props)
      modifies this
      ensures nodes == old(nodes)[id := Construct(id, kind, props)]
    {
      nodes := nodes[id := Construct(id, kind, props)];
    }

    /** `crate.delete(entity)`; deleting an absent node does nothing. */
    method Delete(id: string)
      modifies this
      ensures nodes == old(nodes) - {id}
    {
      nodes := nodes - {id};
    }

    /** `entity.append_to(key, values)` on the node at `id`. */
    method AppendTo(id: string, key: string, values: seq<Json>)
      requires id in nodes
      modifies this
      ensures nodes == old(nodes)[id := AppendedTo(old(nodes)[id], key, values)]
    {
      nodes := nodes[id := AppendedTo(nodes[id], key, values)];
    }

    /**
     * `crate.update_jsonld(props)`: the properties are written into the
     * existing node named by props["@id"]; an unknown node is a ValueError.
     */
    method UpdateJsonld(id: string, props: Props) returns (r: Outcome)
      modifies this
      ensures r.Pass? <==> id in old(nodes)
      ensures r.Pass? ==> nodes == old(nodes)[id := old(nodes)[id] + props]
      ensures r.Fail? ==> nodes == old(nodes)
    {
      if id !in nodes {
        return Fail(ValueError("entity " + id + " does not exist in the crate"));
      }
      nodes := nodes[id := nodes[id] + props];
      r := Pass;
    }
  }
}
