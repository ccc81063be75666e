/**
 * `add_notebook` of scripts/update_crate.py: one notebook's metadata merged
 * into the crate. The data files it names are upserted first, then the
 * notebook node, then the CreateAction that links them, and last the
 * authors.
 */
module Notebooks {
  import opened Values
  import opened Store
  import opened FileStats
  import opened Identity
  import opened ExtractMetadata
  import opened People
  import opened DataFiles
  import opened Actions
  import Context

  const NOTEBOOK_FORMAT := "application/x-ipynb+json"
  const NOTEBOOK_PROFILE := "https://purl.archive.org/textcommons/profile#Notebook"

  /** The keys read from a notebook's metadata, with their defaults. */
  function MetadataKeys(name: string): map<string, Json> {
    map["name" := JStr(name), "author" := JList([]), "description" := JStr(""),
        "object" := JList([]), "result" := JList([])]
  }

  /** The author records a notebook declares (always a list: "author" is listified). */
  function AuthorRecords(metadata: map<string, Json>): seq<Json> {
    SelectedValue(metadata, "author", JList([])).items
  }

  /**
   * The properties `add_notebook` supplies for the notebook node. A notebook
   * already in the crate keeps every property, with "name" and
   * "description" refreshed and "author" emptied; a new one gets the full
   * description, its code repository taken from the root's "url" (a
   * KeyError when the root has none).
   */
  function NotebookProps(current: Option<Props>, meta: map<string, Json>, root: Props): (r: Result<Props>)
    requires "name" in meta && "description" in meta
    ensures current.Some? ==>
      r.Ok? &&
      r.value.Keys == current.value.Keys + {"name", "description", "author"} &&
      r.value["author"] == JList([]) &&
      (forall k :: k in current.value && k != "name" && k != "description" && k != "author" ==>
        r.value[k] == current.value[k])
    ensures current.None? ==> (r.Ok? <==> "url" in root)
    ensures current.None? && r.Ok? ==>
      r.value.Keys == {"@type", "name", "description", "programmingLanguage", "encodingFormat",
                       "conformsTo", "codeRepository"} &&
      r.value["@type"] == JList([JStr("File"), JStr("SoftwareSourceCode")]) &&
      r.value["codeRepository"] == root["url"] &&
      r.value["programmingLanguage"] == Ref(Context.PYTHON_ID) &&
      r.value["encodingFormat"] == JStr(NOTEBOOK_FORMAT) &&
      r.value["conformsTo"] == Ref(NOTEBOOK_PROFILE)
    ensures r.Ok? ==>
      "name" in r.value && r.value["name"] == meta["name"] &&
      "description" in r.value && r.value["description"] == meta["description"]
  {
    if current.Some? then
      Ok(current.value + map["name" := meta["name"], "description" := meta["description"], "author" := JList([])])
    else if "url" !in root then
      Err(KeyError("url"))
    else
      Ok(map["@type" := JList([JStr("File"), JStr("SoftwareSourceCode")]),
             "name" := meta["name"],
             "description" := meta["description"],
             "programmingLanguage" := IdIfy(JStr(Context.PYTHON_ID)),
             "encodingFormat" := JStr(NOTEBOOK_FORMAT),
             "conformsTo" := IdIfy(JStr(NOTEBOOK_PROFILE)),
             "codeRepository" := root["url"]])
  }

  /**
   * What `for datafile in value` hands to `add_files`: the strings of a
   * list, the characters of a string (each as a one-character reference),
   * nothing for an empty object; anything else raises TypeError.
   */
  function FileRefs(v: Json): (r: Result<seq<string>>)
    ensures v.JList? ==> (r.Ok? <==> forall i :: 0 <= i < |v.items| ==> v.items[i].JStr?)
    ensures v.JList? && r.Ok? ==>
      |r.value| == |v.items| && forall i :: 0 <= i < |v.items| ==> JStr(r.value[i]) == v.items[i]
    ensures v.JStr? ==> r.Ok? && |r.value| == |v.s| && forall i :: 0 <= i < |v.s| ==> r.value[i] == [v.s[i]]
    ensures v.JNull? || v.JBool? || v.JInt? ==> r.Err?
  {
    match v
    case JList(items) =>
      if forall i :: 0 <= i < |items| ==> items[i].JStr? then
        Ok(seq(|items|, i requires 0 <= i < |items| => items[i].s))
      else
        Err(TypeError("a file reference is not a string"))
    case JStr(s) => Ok(seq(|s|, i requires 0 <= i < |s| => [s[i]]))
    case JObj(fields) =>
      if fields == map[] then Ok([]) else Err(TypeError("file references given as an object"))
    case _ => Err(TypeError("file references are not iterable"))
  }

  /** The identifiers in order of first occurrence, each once. */
  function Distinct(ids: seq<string>): (r: seq<string>)
    ensures forall x :: x in r <==> x in ids
    ensures forall i, j :: 0 <= i < j < |r| ==> r[i] != r[j]
    ensures |r| <= |ids|
    decreases |ids|
  {
    if ids == [] then []
    else
      var init := ids[..|ids| - 1];
      var last := ids[|ids| - 1];
      assert forall x :: x in ids <==> x in init || x == last;
      var before := Distinct(init);
      if last in before then before else before + [last]
  }

  /** A reference `{"@id": id}` to a node of the crate. */
  predicate Resolves(nodes: Nodes, x: Json) {
    RefTarget(x).Some? && RefTarget(x).value.JStr? && RefTarget(x).value.s in nodes
  }

  /** When `p[key]` is a list, every element of it is a reference that resolves. */
  predicate ListResolves(nodes: Nodes, p: Props, key: string) {
    key in p && p[key].JList? ==> forall x :: x in p[key].items ==> Resolves(nodes, x)
  }

  /** Every reference on the `object` and `result` lists of node `id` names a node of the crate. */
  predicate EdgesResolve(nodes: Nodes, id: string) {
    id in nodes && ListResolves(nodes, nodes[id], "object") && ListResolves(nodes, nodes[id], "result")
  }

  /** Every entity of the list has a node in the crate. */
  predicate AllStored(entities: seq<Entity>, nodes: Nodes) {
    forall i :: 0 <= i < |entities| ==> entities[i].id in nodes
  }

  /** Edges survive a crate that only grows and keeps the node's edge lists. */
  lemma EdgesResolveGrow(nodes: Nodes, after: Nodes, id: string)
    requires EdgesResolve(nodes, id)
    requires nodes.Keys <= after.Keys && id in after
    requires ("object" in after[id] <==> "object" in nodes[id]) &&
             ("object" in nodes[id] ==> after[id]["object"] == nodes[id]["object"])
    requires ("result" in after[id] <==> "result" in nodes[id]) &&
             ("result" in nodes[id] ==> after[id]["result"] == nodes[id]["result"])
    ensures EdgesResolve(after, id)
  {
  }

  /** References to stored entities resolve. */
  lemma StoredRefsResolve(nodes: Nodes, entities: seq<Entity>)
    requires AllStored(entities, nodes)
    ensures forall x :: x in Refs(Ids(entities)) ==> Resolves(nodes, x)
  {
    forall x | x in Refs(Ids(entities)) ensures Resolves(nodes, x) {
      var i :| 0 <= i < |Refs(Ids(entities))| && Refs(Ids(entities))[i] == x;
      assert x == Ref(entities[i].id);
    }
  }

  /** An action built from stored inputs and outputs has edges that resolve. */
  lemma ActionEdgesResolve(nodes: Nodes, id: string, existing: bool, notebookId: string, end: Json,
                           inputs: seq<Entity>, outputs: seq<Entity>)
    requires AllStored(inputs, nodes) && AllStored(outputs, nodes)
    requires id in nodes && nodes[id] == ActionNode(id, existing, notebookId, end, inputs, outputs)
    ensures EdgesResolve(nodes, id)
  {
    ActionEdges(id, existing, notebookId, end, inputs, outputs);
    StoredRefsResolve(nodes, inputs);
    StoredRefsResolve(nodes, outputs);
  }

  /** Upserting people keeps every node's edges resolving: a person merge keeps all but "name". */
  lemma PeopleKeepEdges(nodes: Nodes, people: seq<Author>, id: string)
    requires EdgesResolve(nodes, id)
    ensures EdgesResolve(PeopleUpserted(nodes, people), id)
  {
    PeopleUpsertedKeys(nodes, people);
    PeopleUpsertedNode(nodes, people, id);
    UpsertKeepsEdges(nodes, PeopleUpserted(nodes, people), id, LastNameOf(people, id));
  }

  /** A node that is left alone, or merged as a person under a new name, keeps its edges. */
  lemma UpsertKeepsEdges(nodes: Nodes, after: Nodes, id: string, name: Option<Json>)
    requires EdgesResolve(nodes, id)
    requires forall k :: k in nodes ==> k in after
    requires name.Some? ==> id in after && after[id] == MergedPerson(id, Lookup(nodes, id), name.value)
    requires name.None? ==> Lookup(after, id) == Lookup(nodes, id)
    ensures EdgesResolve(after, id)
  {
    assert Lookup(nodes, id) == Some(nodes[id]);
    assert id in after;
    if name.Some? {
      assert "object" != "name" && "result" != "name";
    } else {
      assert after[id] == nodes[id];
    }
    EdgesResolveGrow(nodes, after, id);
  }

  /** Storing more nodes keeps every entity stored. */
  lemma AllStoredGrow(entities: seq<Entity>, nodes: Nodes, after: Nodes)
    requires AllStored(entities, nodes) && nodes.Keys <= after.Keys
    ensures AllStored(entities, after)
  {
  }

  /**
   * One `add_files` call of `add_notebook`, on the files a metadata value
   * names: every returned entity is in the crate afterwards, and the crate
   * only grows.
   */
  method AddFileRefs(crate: Crate, value: Json, env: Env, today: string) returns (r: Result<seq<Entity>>)
    modifies crate
    ensures r.Ok? <==> FileRefs(value).Ok? && FilesUpserted(old(crate.nodes), FileRefs(value).value, env, today).Ok?
    ensures r.Ok? ==> old(crate.nodes).Keys <= crate.nodes.Keys && AllStored(r.value, crate.nodes)
    ensures r.Ok? ==> Ids(r.value) == KeptRefs(FileRefs(value).value, env)
  {
    var refs := FileRefs(value);
    if refs.Err? {
      return Err(refs.error);
    }
    ghost var start := crate.nodes;
    r := AddFiles(crate, refs.value, env, today);
    if r.Ok? {
      FilesUpsertedFrame(start, refs.value, env, today);
    }
  }

  /**
   * The `add_action` call of `add_notebook`, once its files and the
   * notebook are stored: the action's edges resolve and the notebook node
   * is left as it was.
   */
  method LinkAction(crate: Crate, notebook: string, inputs: seq<Entity>, outputs: seq<Entity>, env: Env)
    returns (r: Outcome)
    requires notebook in crate.nodes && AllStored(inputs, crate.nodes) && AllStored(outputs, crate.nodes)
    modifies crate
    ensures r.Pass? ==> old(crate.nodes).Keys <= crate.nodes.Keys
    ensures r.Pass? ==> notebook in crate.nodes && crate.nodes[notebook] == old(crate.nodes)[notebook]
    ensures r.Pass? ==> EdgesResolve(crate.nodes, ActionId(notebook))
  {
    ghost var before := crate.nodes;
    r := AddAction(crate, notebook, inputs, outputs, env);
    if r.Pass? {
      ActionIdDiffers(notebook);
      AllStoredGrow(inputs, before, crate.nodes);
      AllStoredGrow(outputs, before, crate.nodes);
      ActionEdgesResolve(crate.nodes, ActionId(notebook), ActionId(notebook) in before, notebook,
                         EndDate(notebook, outputs, env).value, inputs, outputs);
    }
  }

  /**
   * The references of "object" and then of "result" that `add_files` keeps.
   * Empty when either value cannot be iterated, since the call then raises.
   */
  function KeptFileRefs(objectValue: Json, resultValue: Json, env: Env): seq<string> {
    if FileRefs(objectValue).Ok? && FileRefs(resultValue).Ok? then
      KeptRefs(FileRefs(objectValue).value, env) + KeptRefs(FileRefs(resultValue).value, env)
    else []
  }

  /**
   * The properties the notebook node is stored with. For a notebook already
   * in the crate, `properties` is the stored node's own dictionary, updated
   * in place. When the notebook is among its own kept file references,
   * `add_files` fetches that same node and writes the fresh date, size and
   * access date into the dictionary before `add_file` stores the notebook.
   * A later upsert of the notebook works on the stored copy, and with the
   * same statistics writes the same values. A new notebook's dictionary is
   * its own, so the upsert of the notebook as a data file is overwritten.
   */
  function StoredNotebookProps(existing: bool, props: Props, notebook: string, kept: seq<string>,
                               env: Env, today: string): Props {
    if existing && notebook in kept && GetFileStats(notebook, env).Ok? then
      Refreshed(props, notebook, GetFileStats(notebook, env).value, today)
    else props
  }

  /**
   * An existing notebook that lists itself as an input or an output keeps
   * every merged property and also carries the statistics its own upsert
   * wrote; otherwise it is stored with the merged properties alone.
   */
  lemma SelfListedNotebookRefreshed(existing: bool, props: Props, notebook: string, kept: seq<string>,
                                    env: Env, today: string)
    ensures !existing || notebook !in kept ==> StoredNotebookProps(existing, props, notebook, kept, env, today) == props
    ensures existing && notebook in kept && GetFileStats(notebook, env).Ok? ==>
      var p := StoredNotebookProps(existing, props, notebook, kept, env, today);
      var stats := GetFileStats(notebook, env).value;
      (forall k :: k in props && k !in REFRESHED ==> k in p && p[k] == props[k]) &&
      (Truthy(stats.date) ==> "dateModified" in p && p["dateModified"] == stats.date) &&
      (Truthy(stats.size) ==> "contentSize" in p && p["contentSize"] == stats.size)
  {
    if existing && notebook in kept && GetFileStats(notebook, env).Ok? {
      RefreshedKeeps(props, notebook, GetFileStats(notebook, env).value, today);
    }
  }

  /**
   * Upserts the notebook's input files (the references in `objectValue`),
   * then its output files (those in `resultValue`), then the
   * notebook node itself, then its CreateAction: every file the action
   * references is in the crate by the time the action is stored.
   */
  method LinkRun(crate: Crate, notebook: string, existing: bool, props: Props, objectValue: Json, resultValue: Json,
                 env: Env, today: string) returns (r: Outcome)
    modifies crate
    ensures r.Pass? ==> old(crate.nodes).Keys <= crate.nodes.Keys
    ensures r.Pass? ==>
      var stored := StoredNotebookProps(existing, props, notebook, KeptFileRefs(objectValue, resultValue, env), env, today);
      notebook in crate.nodes && crate.nodes[notebook] == Construct(notebook, FileKind, stored)
    ensures r.Pass? ==> EdgesResolve(crate.nodes, ActionId(notebook))
  {
    var inputs := AddFileRefs(crate, objectValue, env, today);
    if inputs.Err? {
      return Fail(inputs.error);
    }
    ghost var afterInputs := crate.nodes;
    var outputs := AddFileRefs(crate, resultValue, env, today);
    if outputs.Err? {
      return Fail(outputs.error);
    }
    ghost var afterOutputs := crate.nodes;
    var stored := StoredNotebookProps(existing, props, notebook, Ids(inputs.value) + Ids(outputs.value), env, today);
    crate.Add(notebook, FileKind, stored);
    AllStoredGrow(inputs.value, afterInputs, crate.nodes);
    AllStoredGrow(outputs.value, afterOutputs, crate.nodes);
    r := LinkAction(crate, notebook, inputs.value, outputs.value, env);
  }

  /** The notebook node after attaching `attached`, in order, to its "author" list. */
  function Attached(node: Props, attached: seq<string>): Props {
    if attached == [] then node else AppendedTo(node, "author", Refs(attached))
  }

  /** Attaching one more person appends one more reference. */
  lemma AttachedSnoc(node: Props, attached: seq<string>, id: string)
    ensures AppendedTo(Attached(node, attached), "author", [Ref(id)]) == Attached(node, attached + [id])
  {
    if attached != [] {
      AppendedToTwice(node, "author", Refs(attached), [Ref(id)]);
      assert Refs(attached) + [Ref(id)] == Refs(attached + [id]);
    } else {
      assert Refs(attached + [id]) == [Ref(id)];
    }
  }

  /** Extending the identifiers by one extends their distinct list by it when it is new. */
  lemma DistinctSnoc(ids: seq<string>, i: nat)
    requires i < |ids|
    ensures Distinct(ids[..i + 1]) == if ids[i] in Distinct(ids[..i]) then Distinct(ids[..i]) else Distinct(ids[..i]) + [ids[i]]
  {
    assert ids[..i + 1][..i] == ids[..i];
  }

  /**
   * The author loop of `add_notebook`: each person is appended to the
   * notebook's "author" list unless it is already there.
   */
  method AttachPeople(crate: Crate, notebook: string, ids: seq<string>)
    requires notebook in crate.nodes
    modifies crate
    ensures crate.nodes == old(crate.nodes)[notebook := Attached(old(crate.nodes)[notebook], Distinct(ids))]
  {
    ghost var node := crate.nodes[notebook];
    var attached: seq<string> := [];
    for i := 0 to |ids|
      invariant attached == Distinct(ids[..i])
      invariant crate.nodes == old(crate.nodes)[notebook := Attached(node, attached)]
    {
      DistinctSnoc(ids, i);
      if ids[i] !in attached {
        ghost var prev := Attached(node, attached);
        crate.AppendTo(notebook, "author", [Ref(ids[i])]);
        AttachedSnoc(node, attached, ids[i]);
        StoreTwice(old(crate.nodes), notebook, prev, Attached(node, attached + [ids[i]]));
        attached := attached + [ids[i]];
      }
    }
    assert ids[..|ids|] == ids;
  }

  /** Replacing another node keeps a node's edges resolving. */
  lemma EdgesResolveOther(nodes: Nodes, other: string, p: Props, id: string)
    requires EdgesResolve(nodes, id) && other != id && other in nodes
    ensures EdgesResolve(nodes[other := p], id)
  {
    EdgesResolveGrow(nodes, nodes[other := p], id);
  }

  /**
   * What upserting people leaves of a notebook's surroundings: the crate
   * only grows, the notebook node is untouched unless it is itself one of
   * the people, and the action's edges keep resolving.
   */
  lemma PeopleKeepNotebook(nodes: Nodes, people: seq<Author>, notebook: string, actionId: string)
    requires notebook in nodes
    ensures var after := PeopleUpserted(nodes, people);
      nodes.Keys <= after.Keys && notebook in after &&
      (notebook !in PersonIds(people) ==> after[notebook] == nodes[notebook]) &&
      (EdgesResolve(nodes, actionId) ==> EdgesResolve(after, actionId))
  {
    PeopleUpsertedKeys(nodes, people);
    PeopleUpsertedNode(nodes, people, notebook);
    if EdgesResolve(nodes, actionId) {
      PeopleKeepEdges(nodes, people, actionId);
    }
  }

  /**
   * The declared-authors branch of `add_notebook`: the records are upserted
   * as people, then each person is attached once to the notebook. A
   * notebook that was not in the crate before raises TypeError once the
   * people are stored.
   */
  method AddDeclaredAuthors(crate: Crate, notebook: string, existing: bool, authors: seq<Json>, actionId: string)
    returns (r: Outcome)
    requires notebook in crate.nodes && actionId != notebook
    modifies crate
    ensures r.Pass? ==> old(crate.nodes).Keys <= crate.nodes.Keys
    ensures r.Pass? && EdgesResolve(old(crate.nodes), actionId) ==> EdgesResolve(crate.nodes, actionId)
    ensures !existing ==> r.Fail?
    ensures r.Pass? ==>
      ResolveAll(authors).Ok? &&
      (notebook !in PersonIds(ResolveAll(authors).value) ==>
        crate.nodes[notebook] == Attached(old(crate.nodes)[notebook], Distinct(PersonIds(ResolveAll(authors).value))))
  {
    ghost var start := crate.nodes;
    var people := AddPeople(crate, authors);
    if people.Err? {
      return Fail(people.error);
    }
    if !existing {
      return Fail(TypeError("'NoneType' object is not subscriptable"));
    }
    PeopleKeepNotebook(start, ResolveAll(authors).value, notebook, actionId);
    ghost var afterPeople := crate.nodes;
    AttachPeople(crate, notebook, people.value);
    if EdgesResolve(afterPeople, actionId) {
      EdgesResolveOther(afterPeople, notebook, Attached(afterPeople[notebook], Distinct(people.value)), actionId);
    }
    r := Pass;
  }

  /**
   * The last step of `add_notebook`: declared authors are upserted as
   * people and attached once each; a notebook that declares none inherits
   * the root's "author" value. A notebook that was not in the crate before
   * cannot take declared authors: the membership check reads the author
   * list of a notebook that does not exist and raises TypeError.
   */
  method AddAuthors(crate: Crate, notebook: string, existing: bool, authors: seq<Json>, root: Props, actionId: string)
    returns (r: Outcome)
    requires notebook in crate.nodes && actionId != notebook
    modifies crate
    ensures r.Pass? ==> old(crate.nodes).Keys <= crate.nodes.Keys
    ensures r.Pass? && EdgesResolve(old(crate.nodes), actionId) ==> EdgesResolve(crate.nodes, actionId)
    ensures authors == [] ==>
      (r.Pass? <==> "author" in root) &&
      (r.Pass? ==> crate.nodes == old(crate.nodes)[notebook :=
        AppendedTo(old(crate.nodes)[notebook], "author", Listify(root["author"]).items)])
    ensures authors != [] && !existing ==> r.Fail?
    ensures authors != [] && r.Pass? ==>
      ResolveAll(authors).Ok? &&
      (notebook !in PersonIds(ResolveAll(authors).value) ==>
        crate.nodes[notebook] == Attached(old(crate.nodes)[notebook], Distinct(PersonIds(ResolveAll(authors).value))))
  {
    if authors != [] {
      r := AddDeclaredAuthors(crate, notebook, existing, authors, actionId);
      return;
    }
    if "author" !in root {
      return Fail(KeyError("author"));
    }
    ghost var start := crate.nodes;
    crate.AppendTo(notebook, "author", Listify(root["author"]).items);
    if EdgesResolve(start, actionId) {
      EdgesResolveGrow(start, crate.nodes, actionId);
    }
    r := Pass;
  }

  /**
   * The body of `add_notebook` once the root and the notebook's selected
   * metadata are in hand: the notebook node and its run, then its authors.
   */
  method MergeSelected(crate: Crate, notebook: string, selected: map<string, Json>, root: Props,
                       env: Env, today: string) returns (r: Outcome)
    requires "name" in selected && "description" in selected && "object" in selected && "result" in selected
    requires "author" in selected && selected["author"].JList?
    modifies crate
    ensures r.Pass? ==> old(crate.nodes).Keys <= crate.nodes.Keys
    ensures r.Pass? ==> notebook in crate.nodes && EdgesResolve(crate.nodes, ActionId(notebook))
    ensures notebook !in old(crate.nodes) && selected["author"].items != [] ==> r.Fail?
    ensures r.Pass? ==>
      var props := NotebookProps(Lookup(old(crate.nodes), notebook), selected, root);
      var authors := selected["author"].items;
      props.Ok? &&
      var stored := StoredNotebookProps(notebook in old(crate.nodes), props.value, notebook,
                                        KeptFileRefs(selected["object"], selected["result"], env), env, today);
      (authors == [] ==>
        "author" in root &&
        crate.nodes[notebook] == AppendedTo(Construct(notebook, FileKind, stored), "author",
                                            Listify(root["author"]).items)) &&
      (authors != [] ==>
        notebook in old(crate.nodes) && ResolveAll(authors).Ok? &&
        (notebook !in PersonIds(ResolveAll(authors).value) ==>
          crate.nodes[notebook] == Attached(Construct(notebook, FileKind, stored),
                                            Distinct(PersonIds(ResolveAll(authors).value)))))
  {
    var current := crate.Get(notebook);
    var props := NotebookProps(current, selected, root);
    if props.Err? {
      return Fail(props.error);
    }
    var linked := LinkRun(crate, notebook, current.Some?, props.value, selected["object"], selected["result"], env, today);
    if linked.Fail? {
      return linked;
    }
    ActionIdDiffers(notebook);
    r := AddAuthors(crate, notebook, current.Some?, selected["author"].items, root, ActionId(notebook));
  }

  /**
   * `add_notebook(crate, notebook)`. Each step that raises ends the call
   * (and the run) with the exception.
   */
  method AddNotebook(crate: Crate, notebook: string, env: Env, today: string) returns (r: Outcome)
    modifies crate
    ensures env.notebookMetadata(notebook).None? ==> r.Fail?
    ensures r.Pass? ==> old(crate.nodes).Keys <= crate.nodes.Keys
    ensures r.Pass? ==> notebook in crate.nodes && EdgesResolve(crate.nodes, ActionId(notebook))
    ensures (notebook !in old(crate.nodes) && env.notebookMetadata(notebook).Some? &&
             AuthorRecords(env.notebookMetadata(notebook).value) != []) ==> r.Fail?
    ensures r.Pass? ==>
      RootId in old(crate.nodes) && env.notebookMetadata(notebook).Some? &&
      var selected := SelectedMetadata(env.notebookMetadata(notebook).value, MetadataKeys(notebook));
      var props := NotebookProps(Lookup(old(crate.nodes), notebook), selected, old(crate.nodes)[RootId]);
      var authors := AuthorRecords(env.notebookMetadata(notebook).value);
      props.Ok? &&
      var stored := StoredNotebookProps(notebook in old(crate.nodes), props.value, notebook,
                                        KeptFileRefs(selected["object"], selected["result"], env), env, today);
      (authors == [] ==>
        "author" in old(crate.nodes)[RootId] &&
        crate.nodes[notebook] == AppendedTo(Construct(notebook, FileKind, stored), "author",
                                            Listify(old(crate.nodes)[RootId]["author"]).items)) &&
      (authors != [] ==>
        notebook in old(crate.nodes) && ResolveAll(authors).Ok? &&
        (notebook !in PersonIds(ResolveAll(authors).value) ==>
          crate.nodes[notebook] == Attached(Construct(notebook, FileKind, stored),
                                            Distinct(PersonIds(ResolveAll(authors).value)))))
  {
    var rootNode := crate.Get(RootId);
    if rootNode.None? {
      return Fail(AttributeError("the crate has no root dataset"));
    }
    var found := env.notebookMetadata(notebook);
    if found.None? {
      return Fail(ExtractionFailure(notebook));
    }
    var selected := SelectMetadata(found.value, MetadataKeys(notebook));
    assert selected["author"].items == AuthorRecords(found.value);
    r := MergeSelected(crate, notebook, selected, rootNode.value, env, today);
  }
}
