/**
 * The two garbage-collection passes of scripts/update_crate.py.
 * `remove_deleted_files` drops every File that no longer exists locally or
 * that no CreateAction references. `remove_unreferenced_authors` drops every
 * Person that neither the root nor any File names as an author.
 *
 * Each pass first accumulates references in a loop and then deletes in a
 * second loop. Each loop is proved against a filter function over the node
 * map.
 */
module Collector {
  import opened Values
  import opened Text
  import opened Store
  import opened FileStats
  import opened Identity
  import DataFiles
  import Actions

  const CREATE_ACTION := "CreateAction"
  const FILE := "File"
  const PERSON := "Person"

  /**
   * `[o["@id"] for o in items]`. The first element that is not a mapping
   * raises TypeError. The first mapping without "@id" raises KeyError; the
   * caller catches it and the whole list then contributes nothing
   * (`Ok(None)`).
   */
  function ElementIds(items: seq<Json>): (r: Result<Option<seq<Json>>>)
    ensures r.Err? ==> r.error.TypeError?
    ensures r.Ok? && r.value.Some? <==> forall i :: 0 <= i < |items| ==> RefTarget(items[i]).Some?
    ensures r.Ok? && r.value.Some? ==>
      |r.value.value| == |items| &&
      forall i :: 0 <= i < |items| ==> r.value.value[i] == RefTarget(items[i]).value
    ensures r.Err? <==>
      exists i :: 0 <= i < |items| && !items[i].JObj? &&
        forall j :: 0 <= j < i ==> RefTarget(items[j]).Some?
    decreases |items|
  {
    if items == [] then Ok(Some([]))
    else if !items[0].JObj? then
      Err(TypeError("entity reference is not a mapping"))
    else if "@id" !in items[0].fields then
      assert RefTarget(items[0]).None?;
      Ok(None)
    else
      var rest := ElementIds(items[1..]);
      assert forall i :: 0 < i < |items| ==> items[i] == items[1..][i - 1];
      match rest
      case Err(e) =>
        var i :| 0 <= i < |items[1..]| && !items[1..][i].JObj? &&
          forall j :: 0 <= j < i ==> RefTarget(items[1..][j]).Some?;
        assert !items[i + 1].JObj?;
        Err(e)
      case Ok(None) => Ok(None)
      case Ok(Some(ids)) => Ok(Some([items[0].fields["@id"]] + ids))
  }

  /**
   * Iterating one property value the way the comprehension does. A list
   * yields its elements. A mapping yields its keys and a string its
   * characters, and indexing either with "@id" raises TypeError, so only
   * the empty ones pass. Any other value is not iterable.
   */
  function EdgeIds(v: Json): (r: Result<Option<seq<Json>>>)
    ensures r.Err? ==> r.error.TypeError?
    ensures !v.JList? ==> (r.Ok? <==> v == JObj(map[]) || v == JStr(""))
    ensures !v.JList? && r.Ok? ==> r.value == Some([])
    ensures v.JList? && (forall i :: 0 <= i < |v.items| ==> RefTarget(v.items[i]).Some?) ==>
      r.Ok? && r.value.Some? && |r.value.value| == |v.items| &&
      forall i :: 0 <= i < |v.items| ==> r.value.value[i] == RefTarget(v.items[i]).value
  {
    match v
    case JList(items) => ElementIds(items)
    case JObj(fields) =>
      if fields == map[] then Ok(Some([])) else Err(TypeError("string indices must be integers"))
    case JStr(s) =>
      if s == "" then Ok(Some([])) else Err(TypeError("string indices must be integers"))
    case _ => Err(TypeError("object is not iterable"))
  }

  /**
   * The identifiers one edge of an action adds to the reference list: none
   * when the action lacks the key or the comprehension raised KeyError.
   */
  function KeyIds(p: Props, key: string): (r: Result<seq<Json>>)
    ensures key !in p ==> r == Ok([])
    ensures r.Err? <==> key in p && EdgeIds(p[key]).Err?
    ensures key in p && p[key].JList? && (forall i :: 0 <= i < |p[key].items| ==> RefTarget(p[key].items[i]).Some?) ==>
      r.Ok? && |r.value| == |p[key].items| &&
      forall i :: 0 <= i < |p[key].items| ==> r.value[i] == RefTarget(p[key].items[i]).value
  {
    if key !in p then Ok([])
    else match EdgeIds(p[key])
      case Err(e) => Err(e)
      case Ok(None) => Ok([])
      case Ok(Some(ids)) => Ok(ids)
  }

  /** What one CreateAction adds: the ids of its "object", then of its "result". */
  function ActionFileIds(p: Props): (r: Result<seq<Json>>)
    ensures r.Ok? <==> KeyIds(p, "object").Ok? && KeyIds(p, "result").Ok?
    ensures r.Ok? ==>
      forall x :: x in r.value <==> x in KeyIds(p, "object").value || x in KeyIds(p, "result").value
    ensures "object" !in p && "result" !in p ==> r == Ok([])
  {
    match KeyIds(p, "object")
    case Err(e) => Err(e)
    case Ok(inputs) =>
      match KeyIds(p, "result")
      case Err(e) => Err(e)
      case Ok(outputs) =>
        assert inputs == [] && outputs == [] ==> inputs + outputs == [];
        Ok(inputs + outputs)
  }

  /** Every CreateAction's edges can be read without a TypeError. */
  predicate ActionsReadable(nodes: Nodes) {
    forall id :: id in nodes && HasType(nodes[id], CREATE_ACTION) ==> ActionFileIds(nodes[id]).Ok?
  }

  /** Whether `x` is among the ids some readable CreateAction references. */
  predicate ReferencedBy(nodes: Nodes, id: string, x: Json) {
    id in nodes && HasType(nodes[id], CREATE_ACTION) &&
    ActionFileIds(nodes[id]).Ok? && x in ActionFileIds(nodes[id]).value
  }

  /** The union of every CreateAction's `object` and `result` ids. */
  function ReferencedFiles(nodes: Nodes): set<Json> {
    set id, x | id in nodes && ActionFileIds(nodes[id]).Ok? && x in ActionFileIds(nodes[id]).value &&
      ReferencedBy(nodes, id, x) :: x
  }

  /** Gathering one more action's ids keeps the gathered set equal to what the visited actions reference. */
  lemma CollectStep(nodes: Nodes, done: set<string>, ids: set<Json>, id: string)
    requires id in nodes && HasType(nodes[id], CREATE_ACTION) && ActionFileIds(nodes[id]).Ok?
    requires forall x :: x in ids <==> exists d :: d in done && ReferencedBy(nodes, d, x)
    ensures forall x :: x in ids || x in ActionFileIds(nodes[id]).value <==>
      exists d :: d in done + {id} && ReferencedBy(nodes, d, x)
  {
    forall x | x in ActionFileIds(nodes[id]).value
      ensures exists d :: d in done + {id} && ReferencedBy(nodes, d, x)
    {
      assert ReferencedBy(nodes, id, x);
    }
  }

  /** The ids referenced by every CreateAction are the referenced files. */
  lemma CollectedAll(nodes: Nodes, actions: set<string>, ids: set<Json>)
    requires forall id :: id in actions <==> id in nodes && HasType(nodes[id], CREATE_ACTION)
    requires forall x :: x in ids <==> exists d :: d in actions && ReferencedBy(nodes, d, x)
    ensures ids == ReferencedFiles(nodes)
  {
    forall x ensures x in ids <==> x in ReferencedFiles(nodes) {
      if x in ReferencedFiles(nodes) {
        var id, y :| id in nodes && ActionFileIds(nodes[id]).Ok? &&
          y in ActionFileIds(nodes[id]).value && ReferencedBy(nodes, id, y) && x == y;
        assert id in actions;
      }
    }
  }

  /**
   * The first loop of `remove_deleted_files`: every CreateAction's edge ids
   * gathered into one reference list. The first action whose edges raise
   * TypeError aborts the run.
   */
  method CollectFileIds(crate: Crate) returns (r: Result<set<Json>>)
    ensures r.Ok? <==> ActionsReadable(crate.nodes)
    ensures r.Ok? ==> r.value == ReferencedFiles(crate.nodes)
    ensures r.Err? ==> r.error.TypeError?
  {
    var actions := crate.GetByType(CREATE_ACTION);
    var ids: set<Json> := {};
    var pending := actions;
    ghost var done: set<string> := {};
    while pending != {}
      invariant pending <= actions && done == actions - pending
      invariant forall id :: id in done ==> ActionFileIds(crate.nodes[id]).Ok?
      invariant forall x :: x in ids <==> exists d :: d in done && ReferencedBy(crate.nodes, d, x)
      decreases pending
    {
      var id :| id in pending;
      var found := ActionFileIds(crate.nodes[id]);
      if found.Err? {
        return Err(found.error);
      }
      CollectStep(crate.nodes, done, ids, id);
      ids := ids + set x | x in found.value;
      done := done + {id};
      pending := pending - {id};
    }
    CollectedAll(crate.nodes, actions, ids);
    r := Ok(ids);
  }

  /**
   * Whether the file pass deletes the File at `id`: it neither exists
   * locally nor is a web link, or it is neither referenced by an action nor
   * a notebook.
   */
  predicate Doomed(id: string, refs: set<Json>, env: Env) {
    (!env.present(id) && !IsUrl(id)) ||
    (JStr(id) !in refs && !EndsWith(id, NOTEBOOK_EXTENSION))
  }

  /**
   * The crate after the file pass: exactly the doomed Files are gone and
   * every other node is as it was.
   */
  function FilesCollected(nodes: Nodes, refs: set<Json>, env: Env): (r: Nodes)
    ensures r.Keys <= nodes.Keys
    ensures forall id :: id in r ==> r[id] == nodes[id]
    ensures forall id :: id in nodes && !HasType(nodes[id], FILE) ==> id in r
    ensures forall id :: id in r && HasType(r[id], FILE) ==> env.present(id) || IsUrl(id)
    ensures forall id :: id in r && HasType(r[id], FILE) ==> JStr(id) in refs || EndsWith(id, NOTEBOOK_EXTENSION)
    ensures forall id ::
      (id in nodes && HasType(nodes[id], FILE) && (env.present(id) || IsUrl(id)) &&
       (JStr(id) in refs || EndsWith(id, NOTEBOOK_EXTENSION))) ==> id in r
  {
    map id | id in nodes && !(HasType(nodes[id], FILE) && Doomed(id, refs, env)) :: nodes[id]
  }

  /**
   * One iteration of `remove_deleted_files`: the File is deleted when it is
   * missing, and deleted (again) when nothing references it. Both delete
   * conditions may fire; the second delete finds nothing left to remove.
   */
  method DeleteIfDoomed(crate: Crate, f: string, refs: set<Json>, env: Env)
    modifies crate
    ensures crate.nodes == if Doomed(f, refs, env) then old(crate.nodes) - {f} else old(crate.nodes)
  {
    if !env.present(f) && !IsUrl(f) {
      crate.Delete(f);
    }
    if JStr(f) !in refs && !EndsWith(f, NOTEBOOK_EXTENSION) {
      crate.Delete(f);
    }
  }

  /** `remove_deleted_files`: every File of the crate visited once. */
  method RemoveDeletedFiles(crate: Crate, env: Env) returns (r: Outcome)
    modifies crate
    ensures r.Pass? <==> ActionsReadable(old(crate.nodes))
    ensures r.Pass? ==> crate.nodes == FilesCollected(old(crate.nodes), ReferencedFiles(old(crate.nodes)), env)
    ensures r.Fail? ==> crate.nodes == old(crate.nodes)
  {
    var collected := CollectFileIds(crate);
    if collected.Err? {
      return Fail(collected.error);
    }
    var refs := collected.value;
    ghost var start := crate.nodes;
    var files := crate.GetByType(FILE);
    var pending := files;
    while pending != {}
      invariant pending <= files
      invariant forall id :: id in crate.nodes <==>
        id in start && !(id in files && id !in pending && Doomed(id, refs, env))
      invariant forall id :: id in crate.nodes ==> crate.nodes[id] == start[id]
      decreases pending
    {
      var f :| f in pending;
      DeleteIfDoomed(crate, f, refs, env);
      pending := pending - {f};
    }
    ghost var collectedNodes := FilesCollected(start, refs, env);
    assert crate.nodes.Keys == collectedNodes.Keys;
    assert forall id :: id in crate.nodes ==> crate.nodes[id] == collectedNodes[id];
    r := Pass;
  }

  /**
   * The person ids an author value names, once `authors += value` has
   * dereferenced it. A list contributes the target of each reference in it.
   * A single reference dereferences to one entity, and extending the list
   * by it raises KeyError, which the caller catches; a string extends the
   * list by its characters, which are never a Person. Either way they
   * contribute nothing. Null, a number and a boolean cannot be added to a
   * list: TypeError.
   */
  function AuthorRefIds(v: Json): (r: Result<set<string>>)
    ensures r.Ok? <==> v.JList? || v.JObj? || v.JStr?
    ensures r.Err? ==> r.error.TypeError?
    ensures r.Ok? && !v.JList? ==> r.value == {}
    ensures v.JList? ==> forall id :: id in r.value <==>
      exists i :: 0 <= i < |v.items| && RefTarget(v.items[i]) == Some(JStr(id))
  {
    match v
    case JList(items) =>
      var ids := set i | 0 <= i < |items| && RefTarget(items[i]).Some? && RefTarget(items[i]).value.JStr? ::
        RefTarget(items[i]).value.s;
      assert forall id :: id in ids <==> exists i :: 0 <= i < |items| && RefTarget(items[i]) == Some(JStr(id)) by {
        forall id | id in ids ensures exists i :: 0 <= i < |items| && RefTarget(items[i]) == Some(JStr(id)) {
          var i :| 0 <= i < |items| && RefTarget(items[i]).Some? && RefTarget(items[i]).value.JStr? &&
            RefTarget(items[i]).value.s == id;
          assert RefTarget(items[i]) == Some(JStr(id));
        }
      }
      Ok(ids)
    case JObj(_) => Ok({})
    case JStr(_) => Ok({})
    case _ => Err(TypeError("can only concatenate list to list"))
  }

  /**
   * The person ids the root's "author" names. A missing root raises
   * TypeError and a root without "author" raises KeyError. A root author
   * that is not a list is read as a one-element list, so a mapping names
   * its reference's target and a scalar names nobody; what a scalar does
   * to the rest of the pass is `FileAuthorIds` and `AuthorPassRuns`.
   */
  function RootAuthorIds(nodes: Nodes): (r: Result<set<string>>)
    ensures RootId !in nodes ==> r.Err? && r.error.TypeError?
    ensures RootId in nodes && "author" !in nodes[RootId] ==> r == Err(KeyError("author"))
    ensures r.Ok? ==> RootId in nodes && "author" in nodes[RootId]
    ensures r.Ok? ==> forall id :: id in r.value <==>
      exists i :: 0 <= i < |Listify(nodes[RootId]["author"]).items| &&
        RefTarget(Listify(nodes[RootId]["author"]).items[i]) == Some(JStr(id))
  {
    if RootId !in nodes then Err(TypeError("'NoneType' object is not subscriptable"))
    else if "author" !in nodes[RootId] then Err(KeyError("author"))
    else
      AuthorRefIds(Listify(nodes[RootId]["author"]))
  }

  /**
   * A root "author" that is neither a list nor a mapping: a string, null, a
   * number or a boolean. The accumulator `authors` is then that value
   * itself, not a list.
   */
  predicate ScalarAuthor(v: Json) {
    !v.JList? && !v.JObj?
  }

  /**
   * Whether `acc += v` succeeds for a scalar accumulator: a string takes a
   * string, and numbers and booleans add to each other. The sum keeps the
   * accumulator's kind, so every File is checked against the root's value.
   */
  predicate Concatenable(acc: Json, v: Json) {
    (acc.JStr? && v.JStr?) || ((acc.JInt? || acc.JBool?) && (v.JInt? || v.JBool?))
  }

  /** The root's "author" value; an empty list stands in when there is none. */
  function RootAuthor(nodes: Nodes): Json {
    if RootId in nodes && "author" in nodes[RootId] then nodes[RootId]["author"] else JList([])
  }

  /**
   * The person ids `authors += value` adds for one File's "author", where
   * `authors` started as the root's author value `root`. Against a list (or
   * a mapping, read as a list) it is `AuthorRefIds`. Against a scalar the
   * addition succeeds only for a value of the same kind, and then names
   * nobody; anything else raises TypeError.
   */
  function FileAuthorIds(root: Json, v: Json): (r: Result<set<string>>)
    ensures ScalarAuthor(root) ==> (r.Ok? <==> Concatenable(root, v))
    ensures ScalarAuthor(root) && r.Ok? ==> r.value == {}
    ensures ScalarAuthor(root) && r.Err? ==> r.error.TypeError?
    ensures !ScalarAuthor(root) ==> r == AuthorRefIds(v)
  {
    if !ScalarAuthor(root) then AuthorRefIds(v)
    else if Concatenable(root, v) then Ok({})
    else Err(TypeError("unsupported operand type(s) for +="))
  }

  /** Every File's "author", where it has one, can be added to the accumulator. */
  predicate FileAuthorsReadable(nodes: Nodes) {
    forall id :: id in nodes && HasType(nodes[id], FILE) && "author" in nodes[id] ==>
      FileAuthorIds(RootAuthor(nodes), nodes[id]["author"]).Ok?
  }

  /** Whether the File at `id` names person `a` as an author. */
  predicate AuthoredBy(nodes: Nodes, id: string, a: string) {
    id in nodes && HasType(nodes[id], FILE) && "author" in nodes[id] &&
    FileAuthorIds(RootAuthor(nodes), nodes[id]["author"]).Ok? &&
    a in FileAuthorIds(RootAuthor(nodes), nodes[id]["author"]).value
  }

  /** The author pass reads every list it needs without raising. */
  predicate AuthorsReadable(nodes: Nodes) {
    RootAuthorIds(nodes).Ok? && FileAuthorsReadable(nodes)
  }

  /** The person ids named by the root or by any File. */
  function ReferencedAuthors(nodes: Nodes): set<string>
    requires RootAuthorIds(nodes).Ok?
  {
    RootAuthorIds(nodes).value +
    set id, a | id in nodes && "author" in nodes[id] && FileAuthorIds(RootAuthor(nodes), nodes[id]["author"]).Ok? &&
      a in FileAuthorIds(RootAuthor(nodes), nodes[id]["author"]).value && AuthoredBy(nodes, id, a) :: a
  }

  /** No node of the crate is a Person. */
  predicate PersonFree(nodes: Nodes) {
    forall id :: id in nodes ==> !HasType(nodes[id], PERSON)
  }

  /**
   * Whether the author pass runs to the end. Both loops must read what they
   * need, and with a scalar root author the membership test `person in
   * authors` raises TypeError at the first Person, so there must be none.
   */
  predicate AuthorPassRuns(nodes: Nodes) {
    AuthorsReadable(nodes) && (ScalarAuthor(RootAuthor(nodes)) ==> PersonFree(nodes))
  }

  /**
   * The first loop of `remove_unreferenced_authors`: the root's authors,
   * extended by the authors of every File that has some.
   */
  method CollectAuthorIds(crate: Crate) returns (r: Result<set<string>>)
    ensures r.Ok? <==> AuthorsReadable(crate.nodes)
    ensures r.Ok? ==> r.value == ReferencedAuthors(crate.nodes)
    ensures RootAuthorIds(crate.nodes).Err? ==> r == Err(RootAuthorIds(crate.nodes).error)
  {
    var root := RootAuthorIds(crate.nodes);
    if root.Err? {
      return Err(root.error);
    }
    var authors := root.value;
    var files := crate.GetByType(FILE);
    var pending := files;
    while pending != {}
      invariant pending <= files
      invariant forall id :: id in files - pending && "author" in crate.nodes[id] ==>
        FileAuthorIds(RootAuthor(crate.nodes), crate.nodes[id]["author"]).Ok?
      invariant forall a :: a in authors <==>
        a in root.value || exists id :: id in files - pending && AuthoredBy(crate.nodes, id, a)
      decreases pending
    {
      var f :| f in pending;
      ghost var done := files - pending;
      if "author" in crate.nodes[f] {
        var found := FileAuthorIds(RootAuthor(crate.nodes), crate.nodes[f]["author"]);
        if found.Err? {
          return Err(found.error);
        }
        authors := authors + found.value;
      }
      pending := pending - {f};
      assert files - pending == done + {f};
    }
    assert forall a :: a in authors <==> a in ReferencedAuthors(crate.nodes) by {
      forall a ensures a in authors <==> a in ReferencedAuthors(crate.nodes) {
        if a in ReferencedAuthors(crate.nodes) && a !in root.value {
          var id, b :| id in crate.nodes && "author" in crate.nodes[id] &&
            FileAuthorIds(RootAuthor(crate.nodes), crate.nodes[id]["author"]).Ok? &&
            b in FileAuthorIds(RootAuthor(crate.nodes), crate.nodes[id]["author"]).value &&
            AuthoredBy(crate.nodes, id, b) && a == b;
          assert id in files;
        }
      }
    }
    r := Ok(authors);
  }

  /**
   * The crate after the author pass: exactly the Persons nobody names are
   * gone and every other node is as it was.
   */
  function PersonsCollected(nodes: Nodes, authors: set<string>): (r: Nodes)
    ensures r.Keys <= nodes.Keys
    ensures forall id :: id in r ==> r[id] == nodes[id]
    ensures forall id :: id in nodes && !HasType(nodes[id], PERSON) ==> id in r
    ensures forall id :: id in nodes && HasType(nodes[id], PERSON) ==> (id in r <==> id in authors)
  {
    map id | id in nodes && !(HasType(nodes[id], PERSON) && id !in authors) :: nodes[id]
  }

  /**
   * `remove_unreferenced_authors`. With a scalar root author the second
   * loop raises at the first Person, before anything is deleted.
   */
  method RemoveUnreferencedAuthors(crate: Crate) returns (r: Outcome)
    modifies crate
    ensures r.Pass? <==> AuthorPassRuns(old(crate.nodes))
    ensures r.Pass? ==> crate.nodes == PersonsCollected(old(crate.nodes), ReferencedAuthors(old(crate.nodes)))
    ensures r.Fail? ==> crate.nodes == old(crate.nodes)
  {
    var collected := CollectAuthorIds(crate);
    if collected.Err? {
      return Fail(collected.error);
    }
    var authors := collected.value;
    ghost var start := crate.nodes;
    var people := crate.GetByType(PERSON);
    if ScalarAuthor(RootAuthor(crate.nodes)) && people != {} {
      return Fail(TypeError("a Person cannot be looked up in a non-list author value"));
    }
    assert ScalarAuthor(RootAuthor(crate.nodes)) ==> PersonFree(crate.nodes);
    var pending := people;
    while pending != {}
      invariant pending <= people
      invariant forall id :: id in crate.nodes <==>
        id in start && !(id in people && id !in pending && id !in authors)
      invariant forall id :: id in crate.nodes ==> crate.nodes[id] == start[id]
      decreases pending
    {
      var p :| p in pending;
      if p !in authors {
        crate.Delete(p);
      }
      pending := pending - {p};
    }
    assert crate.nodes.Keys == PersonsCollected(start, authors).Keys;
    r := Pass;
  }

  /**
   * A File that a CreateAction's `object` or `result` references survives
   * the file pass as long as it exists locally or is a web link.
   */
  lemma ActionReferenceProtects(nodes: Nodes, action: string, key: string, ids: seq<string>, f: string, env: Env)
    requires ActionsReadable(nodes)
    requires action in nodes && HasType(nodes[action], CREATE_ACTION)
    requires key == "object" || key == "result"
    requires key in nodes[action] && nodes[action][key] == JList(Refs(ids))
    requires f in ids && f in nodes && (env.present(f) || IsUrl(f))
    ensures f in FilesCollected(nodes, ReferencedFiles(nodes), env)
  {
    var i :| 0 <= i < |ids| && ids[i] == f;
    var items := Refs(ids);
    forall j | 0 <= j < |items| ensures RefTarget(items[j]).Some? {
      assert items[j] == Ref(ids[j]);
    }
    assert RefTarget(items[i]) == Some(JStr(f));
    assert KeyIds(nodes[action], key).value[i] == JStr(f);
    assert JStr(f) in ActionFileIds(nodes[action]).value;
    assert ReferencedBy(nodes, action, JStr(f));
  }

  /**
   * An action `add_action` has rebuilt is no longer typed CreateAction, so
   * it protects none of its files: a data file that no other CreateAction
   * references is deleted by the next file pass.
   */
  lemma UpdatedActionProtectsNothing(nodes: Nodes, action: string, notebookId: string, end: Json,
                                     inputs: seq<DataFiles.Entity>, outputs: seq<DataFiles.Entity>, f: string, env: Env)
    requires action in nodes && nodes[action] == Actions.ActionNode(action, true, notebookId, end, inputs, outputs)
    requires forall id :: id in nodes && id != action ==> !ReferencedBy(nodes, id, JStr(f))
    requires f in nodes && HasType(nodes[f], FILE) && !EndsWith(f, NOTEBOOK_EXTENSION)
    ensures f !in FilesCollected(nodes, ReferencedFiles(nodes), env)
  {
    Actions.UpdatedActionNode(action, notebookId, end, inputs, outputs);
    assert !ReferencedBy(nodes, action, JStr(f));
  }

  /**
   * Running the file pass a second time deletes nothing more, provided no
   * node is both a CreateAction and a File: the pass keeps every action,
   * so the reference list is the same.
   */
  lemma FilesCollectedIdempotent(nodes: Nodes, env: Env)
    requires ActionsReadable(nodes)
    requires forall id :: id in nodes && HasType(nodes[id], CREATE_ACTION) ==> !HasType(nodes[id], FILE)
    ensures var once := FilesCollected(nodes, ReferencedFiles(nodes), env);
      ActionsReadable(once) && ReferencedFiles(once) == ReferencedFiles(nodes) &&
      FilesCollected(once, ReferencedFiles(once), env) == once
  {
    var once := FilesCollected(nodes, ReferencedFiles(nodes), env);
    forall id, x | ReferencedBy(nodes, id, x) ensures ReferencedBy(once, id, x) {
      assert id in once;
    }
    assert ReferencedFiles(once) == ReferencedFiles(nodes);
    assert FilesCollected(once, ReferencedFiles(once), env).Keys == once.Keys;
  }

  /** A person the root's author list references survives the author pass. */
  lemma RootAuthorKept(nodes: Nodes, ids: seq<string>, person: string)
    requires AuthorsReadable(nodes)
    requires RootId in nodes && "author" in nodes[RootId] && nodes[RootId]["author"] == JList(Refs(ids))
    requires person in ids && person in nodes
    ensures person in PersonsCollected(nodes, ReferencedAuthors(nodes))
  {
    var i :| 0 <= i < |ids| && ids[i] == person;
    assert RefTarget(Refs(ids)[i]) == Some(JStr(person));
    assert person in RootAuthorIds(nodes).value;
  }

  /**
   * A person that a File's author list references survives the author
   * pass. Notebooks are Files, so a notebook's authors are kept too.
   */
  lemma FileAuthorKept(nodes: Nodes, f: string, ids: seq<string>, person: string)
    requires AuthorsReadable(nodes)
    requires f in nodes && HasType(nodes[f], FILE) && "author" in nodes[f] && nodes[f]["author"] == JList(Refs(ids))
    requires person in ids && person in nodes
    ensures person in PersonsCollected(nodes, ReferencedAuthors(nodes))
  {
    var i :| 0 <= i < |ids| && ids[i] == person;
    assert RefTarget(Refs(ids)[i]) == Some(JStr(person));
    assert !ScalarAuthor(RootAuthor(nodes));
    assert person in AuthorRefIds(nodes[f]["author"]).value;
    assert AuthoredBy(nodes, f, person);
  }

  /**
   * Running the author pass a second time deletes nothing more, provided
   * the root is not a Person and no node is both a Person and a File.
   */
  lemma PersonsCollectedIdempotent(nodes: Nodes)
    requires AuthorsReadable(nodes)
    requires RootId in nodes && !HasType(nodes[RootId], PERSON)
    requires forall id :: id in nodes && HasType(nodes[id], FILE) ==> !HasType(nodes[id], PERSON)
    ensures var once := PersonsCollected(nodes, ReferencedAuthors(nodes));
      AuthorsReadable(once) && ReferencedAuthors(once) == ReferencedAuthors(nodes) &&
      PersonsCollected(once, ReferencedAuthors(once)) == once
  {
    var once := PersonsCollected(nodes, ReferencedAuthors(nodes));
    assert RootId in once && once[RootId] == nodes[RootId];
    assert RootAuthorIds(once) == RootAuthorIds(nodes) && RootAuthor(once) == RootAuthor(nodes);
    forall id, a | AuthoredBy(nodes, id, a) ensures AuthoredBy(once, id, a) {
      assert id in once;
    }
    assert ReferencedAuthors(once) == ReferencedAuthors(nodes);
    assert PersonsCollected(once, ReferencedAuthors(once)).Keys == once.Keys;
  }

  /** With a root author that is a scalar, the author pass does not raise only in a crate without Persons. */
  lemma ScalarRootAuthorRaises(nodes: Nodes, person: string)
    requires RootId in nodes && "author" in nodes[RootId] && ScalarAuthor(nodes[RootId]["author"])
    requires person in nodes && HasType(nodes[person], PERSON)
    ensures !AuthorPassRuns(nodes)
  {
    assert RootAuthor(nodes) == nodes[RootId]["author"];
  }

  /**
   * When the author pass runs to the end with a scalar root author, it
   * deletes nothing: there was no Person to delete.
   */
  lemma ScalarRootDeletesNobody(nodes: Nodes)
    requires AuthorPassRuns(nodes) && ScalarAuthor(RootAuthor(nodes))
    ensures PersonsCollected(nodes, ReferencedAuthors(nodes)) == nodes
  {
    assert PersonsCollected(nodes, ReferencedAuthors(nodes)).Keys == nodes.Keys;
  }
}
