/**
 * JSON values as the crate's property maps hold them, the exceptions the
 * engine lets propagate, and the small value-shaping helpers every component
 * shares: Python truthiness, `listify` and `id_ify`.
 */
module Values {

  datatype Option<+T> = None | Some(value: T)

  /** The Python exceptions that abort a run (nothing is written after one). */
  datatype Error =
    | KeyError(key: string)
    | TypeError(reason: string)
    | ValueError(reason: string)
    | AttributeError(reason: string)
    | FileNotFound(path: string)
    | TransportFailure(url: string)
    | ExtractionFailure(notebook: string)

  datatype Result<+T> = Ok(value: T) | Err(error: Error)

  /** The outcome of an operation that returns nothing but may raise. */
  datatype Outcome = Pass | Fail(error: Error)

  /**
   * A JSON value. Objects are unordered: the model never depends on the
   * order of an object's keys.
   */
  datatype Json =
    | JNull
    | JBool(b: bool)
    | JInt(i: int)
    | JStr(s: string)
    | JList(items: seq<Json>)
    | JObj(fields: map<string, Json>)

  /** Python's truth value of a JSON value (`if value:`). */
  predicate Truthy(v: Json) {
    match v
    case JNull => false
    case JBool(b) => b
    case JInt(i) => i != 0
    case JStr(s) => s != ""
    case JList(items) => items != []
    case JObj(fields) => fields != map[]
  }

  /** `listify`: a list is kept as it is, anything else becomes a one-element list. */
  function Listify(v: Json): (r: Json)
    ensures r.JList?
    ensures v.JList? ==> r == v
    ensures !v.JList? ==> r.items == [v]
  {
    if v.JList? then v else JList([v])
  }

  /** Listifying twice is the same as listifying once. */
  lemma ListifyIdempotent(v: Json)
    ensures Listify(Listify(v)) == Listify(v)
  {
  }

  /** A JSON-LD reference `{"@id": target}`. */
  function RefTo(target: Json): Json {
    JObj(map["@id" := target])
  }

  /** The reference to the node with identifier `id`. */
  function Ref(id: string): Json {
    RefTo(JStr(id))
  }

  /** The target of a JSON-LD reference, if `v` is one. */
  function RefTarget(v: Json): Option<Json> {
    if v.JObj? && "@id" in v.fields then Some(v.fields["@id"]) else None
  }

  /** The identifiers `ids`, each wrapped as a reference, in order. */
  function Refs(ids: seq<string>): (r: seq<Json>)
    ensures |r| == |ids|
    ensures forall i :: 0 <= i < |ids| ==> r[i] == Ref(ids[i])
  {
    seq(|ids|, i requires 0 <= i < |ids| => Ref(ids[i]))
  }

  /**
   * `id_ify`: a string becomes one reference (single elements are not
   * wrapped in a list); a list becomes the list of references to its
   * elements.
   */
  function IdIfy(elements: Json): (r: Json)
    requires elements.JStr? || elements.JList?
    ensures elements.JStr? ==> RefTarget(r) == Some(elements)
    ensures elements.JList? ==> r.JList? && |r.items| == |elements.items|
    ensures elements.JList? ==>
      forall i :: 0 <= i < |elements.items| ==> RefTarget(r.items[i]) == Some(elements.items[i])
  {
    if elements.JStr? then RefTo(elements)
    else JList(seq(|elements.items|, i requires 0 <= i < |elements.items| => RefTo(elements.items[i])))
  }

  /** Reading the targets back out of `id_ify`'s references recovers the list. */
  lemma IdIfyRoundTrip(elements: seq<Json>)
    ensures var r := IdIfy(JList(elements));
            seq(|r.items|, i requires 0 <= i < |r.items| => RefTarget(r.items[i]).value) == elements
  {
    var r := IdIfy(JList(elements));
    var back := seq(|r.items|, i requires 0 <= i < |r.items| => RefTarget(r.items[i]).value);
    assert |back| == |elements|;
    forall i | 0 <= i < |elements| ensures back[i] == elements[i] {
      assert RefTarget(r.items[i]) == Some(elements[i]);
    }
  }
}
