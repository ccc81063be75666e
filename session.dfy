/**
 * The run of scripts/update_crate.py: `update_crate` and the two small
 * writers it uses, `add_update_action` and `add_context_entity`. A run
 * loads the crate, stamps the version, writes the licences and the Python
 * node, merges every notebook, runs both garbage-collection passes and
 * writes the crate back. The first exception ends the run and nothing is
 * written; the model returns the node map that would be written.
 */
module Session {
  import opened Values
  import opened Text
  import opened Store
  import opened FileStats
  import opened Identity
  import opened Context
  import Actions
  import Notebooks
  import Collector

  const UPDATE_NAME_PREFIX := "Create version "

  /** The properties of the UpdateAction that records a version bump. */
  function UpdateActionProps(version: string, today: string): (p: Props)
    ensures p.Keys == {"@type", "endDate", "name", "actionStatus"}
    ensures p["@type"] == JStr("UpdateAction") && p["endDate"] == JStr(today)
    ensures p["actionStatus"] == Ref(Actions.COMPLETED_STATUS)
    ensures p["name"].JStr? && EndsWith(p["name"].s, version)
  {
    var name := UPDATE_NAME_PREFIX + version;
    assert name[|name| - |version|..] == version;
    map["@type" := JStr("UpdateAction"),
        "endDate" := JStr(today),
        "name" := JStr(name),
        "actionStatus" := Ref(Actions.COMPLETED_STATUS)]
  }

  /**
   * The node `add_update_action` stores is an UpdateAction and never a
   * CreateAction, so the file pass never reads its edges; its identifier
   * holds no dot.
   */
  lemma UpdateActionNode(version: string, today: string)
    ensures var p := Construct(UpdateActionId(version), ContextKind, UpdateActionProps(version, today));
      p["@id"] == JStr(UpdateActionId(version)) && TypesOf(p) == {"UpdateAction"} &&
      !HasType(p, Collector.CREATE_ACTION) && '.' !in UpdateActionId(version)
  {
  }

  /** A version's UpdateAction never takes the place of the root or of the metadata descriptor. */
  lemma UpdateActionIdIsFresh(version: string)
    ensures UpdateActionId(version) != RootId && UpdateActionId(version) != MetadataId
  {
    assert UpdateActionId(version)[0] == 'c';
    assert RootId[0] == '.' && MetadataId[0] == 'r';
  }

  /** `add_update_action(crate, version)`, with today's date passed in. */
  method AddUpdateAction(crate: Crate, version: string, today: string)
    modifies crate
    ensures crate.nodes == old(crate.nodes)[UpdateActionId(version) :=
      Construct(UpdateActionId(version), ContextKind, UpdateActionProps(version, today))]
  {
    crate.Add(UpdateActionId(version), ContextKind, UpdateActionProps(version, today));
  }

  /**
   * `add_context_entity(crate, entity)`: the entity is stored at its own
   * "@id", replacing whatever node was there. An entity without "@id"
   * raises KeyError.
   */
  method AddContextEntity(crate: Crate, entity: Props) returns (r: Outcome)
    modifies crate
    ensures r.Pass? <==> "@id" in entity && entity["@id"].JStr?
    ensures r.Pass? ==> crate.nodes == old(crate.nodes)[entity["@id"].s := Construct(entity["@id"].s, ContextKind, entity)]
    ensures r.Fail? ==> crate.nodes == old(crate.nodes)
  {
    if "@id" !in entity {
      return Fail(KeyError("@id"));
    }
    if !entity["@id"].JStr? {
      return Fail(TypeError("entity identifier is not a string"));
    }
    crate.Add(entity["@id"].s, ContextKind, entity);
    r := Pass;
  }

  /**
   * An entity that carries its own "@id" and "@type" is stored verbatim:
   * whatever a curator added to the node before is lost.
   */
  lemma ContextEntityVerbatim(entity: Props)
    requires "@id" in entity && entity["@id"].JStr? && "@type" in entity
    ensures Construct(entity["@id"].s, ContextKind, entity) == entity
  {
  }

  /**
   * The three fixed context entities each carry their own "@id" and
   * "@type", so each is stored as written, at its own identifier.
   */
  lemma FixedEntitiesVerbatim()
    ensures "@id" in DEFAULT_LICENCE && DEFAULT_LICENCE["@id"] == JStr(MIT_ID)
    ensures "@id" in METADATA_LICENCE && METADATA_LICENCE["@id"] == JStr(CC0_ID)
    ensures "@id" in PYTHON && PYTHON["@id"] == JStr(PYTHON_ID)
    ensures Construct(MIT_ID, ContextKind, DEFAULT_LICENCE) == DEFAULT_LICENCE
    ensures Construct(CC0_ID, ContextKind, METADATA_LICENCE) == METADATA_LICENCE
    ensures Construct(PYTHON_ID, ContextKind, PYTHON) == PYTHON
  {
    ContextEntityVerbatim(DEFAULT_LICENCE);
    ContextEntityVerbatim(METADATA_LICENCE);
    ContextEntityVerbatim(PYTHON);
  }

  /**
   * The version stamp: the root's "version" and "datePublished" written
   * over, then the UpdateAction. A crate without a root raises ValueError.
   */
  method StampVersion(crate: Crate, version: string, today: string) returns (r: Outcome)
    modifies crate
    ensures r.Pass? <==> RootId in old(crate.nodes)
    ensures r.Pass? ==> crate.nodes.Keys == old(crate.nodes).Keys + {UpdateActionId(version)}
    ensures r.Pass? ==> (crate.nodes ==
      old(crate.nodes)[RootId := old(crate.nodes)[RootId] +
                                 map["@id" := JStr(RootId), "version" := JStr(version), "datePublished" := JStr(today)]]
                      [UpdateActionId(version) :=
                        Construct(UpdateActionId(version), ContextKind, UpdateActionProps(version, today))])
  {
    r := crate.UpdateJsonld(RootId, map["@id" := JStr(RootId), "version" := JStr(version), "datePublished" := JStr(today)]);
    if r.Pass? {
      AddUpdateAction(crate, version, today);
    }
  }

  /** The fixed entities never take the place of the root, of the metadata descriptor or of each other. */
  lemma ContextIdsDistinct()
    ensures RootId != MetadataId
    ensures MIT_ID != RootId && MIT_ID != MetadataId
    ensures CC0_ID != RootId && CC0_ID != MetadataId && CC0_ID != MIT_ID
    ensures PYTHON_ID != RootId && PYTHON_ID != MetadataId && PYTHON_ID != MIT_ID && PYTHON_ID != CC0_ID
  {
    assert |RootId| == 2 && |MetadataId| == 22;
    assert |MIT_ID| == 29 && |CC0_ID| == 50 && |PYTHON_ID| == 54;
  }

  /**
   * The crate after the licences and the Python node are written, in the
   * order `update_crate` writes them.
   */
  function Licensed(nodes: Nodes): Nodes
    requires RootId in nodes && MetadataId in nodes
  {
    var licensed := nodes[RootId := nodes[RootId]["license" := Ref(MIT_ID)]][MIT_ID := DEFAULT_LICENCE];
    licensed[MetadataId := licensed[MetadataId] + map["@id" := JStr(MetadataId), "license" := Ref(CC0_ID)]]
            [CC0_ID := METADATA_LICENCE][PYTHON_ID := PYTHON]
  }

  /**
   * The context writes license the root and the metadata descriptor, store
   * the fixed entities, keep every node id and keep the root's version
   * stamp.
   */
  lemma LicensedWritten(nodes: Nodes, version: string, today: string)
    requires RootId in nodes && MetadataId in nodes
    requires version != "" ==>
      "version" in nodes[RootId] && nodes[RootId]["version"] == JStr(version) &&
      "datePublished" in nodes[RootId] && nodes[RootId]["datePublished"] == JStr(today) &&
      UpdateActionId(version) in nodes
    ensures nodes.Keys <= Licensed(nodes).Keys && ContextWritten(Licensed(nodes), version, today)
  {
    ContextIdsDistinct();
    LicensedRoot(nodes);
    LicensedFixed(nodes);
  }

  /** The root is licensed MIT and keeps its other properties, and no node id is lost. */
  lemma LicensedRoot(nodes: Nodes)
    requires RootId in nodes && MetadataId in nodes
    ensures nodes.Keys <= Licensed(nodes).Keys
    ensures Licensed(nodes)[RootId] == nodes[RootId]["license" := Ref(MIT_ID)]
  {
    ContextIdsDistinct();
  }

  /** The metadata descriptor is licensed CC0 and the three fixed entities are stored as written. */
  lemma LicensedFixed(nodes: Nodes)
    requires RootId in nodes && MetadataId in nodes
    ensures MetadataId in Licensed(nodes) && "license" in Licensed(nodes)[MetadataId]
    ensures Licensed(nodes)[MetadataId]["license"] == Ref(CC0_ID)
    ensures MIT_ID in Licensed(nodes) && Licensed(nodes)[MIT_ID] == DEFAULT_LICENCE
    ensures CC0_ID in Licensed(nodes) && Licensed(nodes)[CC0_ID] == METADATA_LICENCE
    ensures PYTHON_ID in Licensed(nodes) && Licensed(nodes)[PYTHON_ID] == PYTHON
  {
    ContextIdsDistinct();
  }

  /**
   * The licences and the Python node: the root is licensed MIT and the
   * metadata descriptor CC0, and the three fixed entities are stored. A
   * crate without a root or without a metadata descriptor raises.
   */
  method WriteContext(crate: Crate) returns (r: Outcome)
    modifies crate
    ensures r.Pass? <==> RootId in old(crate.nodes) && MetadataId in old(crate.nodes)
    ensures r.Pass? ==> crate.nodes == Licensed(old(crate.nodes))
  {
    FixedEntitiesVerbatim();
    ContextIdsDistinct();
    if RootId !in crate.nodes {
      return Fail(AttributeError("'NoneType' object has no attribute 'properties'"));
    }
    if MetadataId !in crate.nodes {
      return Fail(ValueError("entity " + MetadataId + " does not exist in the crate"));
    }
    crate.nodes := crate.nodes[RootId := crate.nodes[RootId]["license" := IdIfy(JStr(MIT_ID))]];
    r := AddContextEntity(crate, DEFAULT_LICENCE);
    assert MetadataId in crate.nodes;
    r := crate.UpdateJsonld(MetadataId, map["@id" := JStr(MetadataId), "license" := IdIfy(JStr(CC0_ID))]);
    r := AddContextEntity(crate, METADATA_LICENCE);
    r := AddContextEntity(crate, PYTHON);
  }

  /**
   * What the version stamp and the context writes leave in the crate: the
   * root licensed MIT and, for a version bump, carrying the version, the
   * publication date and its UpdateAction; the metadata descriptor licensed
   * CC0; the three fixed entities as written.
   */
  predicate ContextWritten(nodes: Nodes, version: string, today: string) {
    RootId in nodes && MetadataId in nodes &&
    "license" in nodes[RootId] && nodes[RootId]["license"] == Ref(MIT_ID) &&
    "license" in nodes[MetadataId] && nodes[MetadataId]["license"] == Ref(CC0_ID) &&
    MIT_ID in nodes && nodes[MIT_ID] == DEFAULT_LICENCE &&
    CC0_ID in nodes && nodes[CC0_ID] == METADATA_LICENCE &&
    PYTHON_ID in nodes && nodes[PYTHON_ID] == PYTHON &&
    (version != "" ==>
      "version" in nodes[RootId] && nodes[RootId]["version"] == JStr(version) &&
      "datePublished" in nodes[RootId] && nodes[RootId]["datePublished"] == JStr(today) &&
      UpdateActionId(version) in nodes)
  }

  /**
   * The first part of `update_crate`: the version stamp when a version is
   * given, then the licences and the Python node.
   */
  method PrepareContext(crate: Crate, version: string, today: string) returns (r: Outcome)
    modifies crate
    ensures r.Pass? <==> RootId in old(crate.nodes) && MetadataId in old(crate.nodes)
    ensures r.Pass? ==> old(crate.nodes).Keys <= crate.nodes.Keys && ContextWritten(crate.nodes, version, today)
  {
    ContextIdsDistinct();
    if version != "" {
      var stamped := StampVersion(crate, version, today);
      if stamped.Fail? {
        return stamped;
      }
      UpdateActionIdIsFresh(version);
      assert crate.nodes[RootId]["version"] == JStr(version);
    }
    ghost var stamped := crate.nodes;
    assert RootId in stamped <==> RootId in old(crate.nodes);
    assert MetadataId in stamped <==> MetadataId in old(crate.nodes);
    r := WriteContext(crate);
    if r.Pass? {
      LicensedWritten(stamped, version, today);
    }
  }

  /** One notebook merged, with what the run relies on afterwards. */
  method MergeNotebook(crate: Crate, notebook: string, env: Env, today: string) returns (r: Outcome)
    modifies crate
    ensures r.Pass? ==> env.notebookMetadata(notebook).Some?
    ensures r.Pass? ==> old(crate.nodes).Keys <= crate.nodes.Keys && notebook in crate.nodes
    ensures r.Pass? ==> Notebooks.EdgesResolve(crate.nodes, ActionId(notebook))
  {
    r := Notebooks.AddNotebook(crate, notebook, env, today);
  }

  /** The notebook loop of `update_crate`: every notebook merged in order, stopping at the first that raises. */
  method AddNotebooks(crate: Crate, notebooks: seq<string>, env: Env, today: string) returns (r: Outcome)
    modifies crate
    ensures r.Pass? ==> forall nb :: nb in notebooks ==> env.notebookMetadata(nb).Some?
    ensures r.Pass? ==> old(crate.nodes).Keys <= crate.nodes.Keys
    ensures r.Pass? ==> forall nb :: nb in notebooks ==> nb in crate.nodes
    ensures r.Pass? && notebooks != [] ==> Notebooks.EdgesResolve(crate.nodes, ActionId(notebooks[|notebooks| - 1]))
  {
    var i := 0;
    while i < |notebooks|
      invariant 0 <= i <= |notebooks|
      invariant forall j :: 0 <= j < i ==> env.notebookMetadata(notebooks[j]).Some?
      invariant old(crate.nodes).Keys <= crate.nodes.Keys
      invariant forall j :: 0 <= j < i ==> notebooks[j] in crate.nodes
      invariant 0 < i ==> Notebooks.EdgesResolve(crate.nodes, ActionId(notebooks[i - 1]))
    {
      var added := MergeNotebook(crate, notebooks[i], env, today);
      if added.Fail? {
        return added;
      }
      i := i + 1;
    }
    r := Pass;
  }

  /**
   * What the two collection passes leave of the merged crate: every File
   * exists or is a web link and is referenced by a CreateAction or is a
   * notebook, and every Person is named by the root or by a File.
   */
  lemma PassesLeave(merged: Nodes, env: Env)
    requires Collector.ActionsReadable(merged)
    requires Collector.AuthorPassRuns(Collector.FilesCollected(merged, Collector.ReferencedFiles(merged), env))
    ensures var filed := Collector.FilesCollected(merged, Collector.ReferencedFiles(merged), env);
      var final := Collector.PersonsCollected(filed, Collector.ReferencedAuthors(filed));
      (forall id :: id in final && HasType(final[id], Collector.FILE) ==>
        (env.present(id) || IsUrl(id)) &&
        (JStr(id) in Collector.ReferencedFiles(merged) || EndsWith(id, NOTEBOOK_EXTENSION))) &&
      (forall id :: id in final && HasType(final[id], Collector.PERSON) ==> id in Collector.ReferencedAuthors(filed))
  {
    var filed := Collector.FilesCollected(merged, Collector.ReferencedFiles(merged), env);
    var final := Collector.PersonsCollected(filed, Collector.ReferencedAuthors(filed));
    forall id | id in final
      ensures final[id] == filed[id] && id in filed
    {
    }
  }

  /**
   * `update_crate(version, notebooks)` over the loaded node map, with an
   * empty `version` standing for no version bump. On success the result is
   * the node map that is written. `context` is the crate once the version
   * and the licences are written, and `merged` the crate once every
   * notebook is merged: the result is `merged` after the file pass and
   * then the author pass.
   */
  method UpdateCrate(loaded: Nodes, version: string, notebooks: seq<string>, env: Env, today: string)
    returns (r: Result<Nodes>, ghost context: Nodes, ghost merged: Nodes)
    ensures r.Ok? ==> RootId in loaded && MetadataId in loaded
    ensures r.Ok? ==> loaded.Keys <= context.Keys && ContextWritten(context, version, today)
    ensures r.Ok? ==> context.Keys <= merged.Keys
    ensures r.Ok? ==> forall nb :: nb in notebooks ==> env.notebookMetadata(nb).Some? && nb in merged
    ensures r.Ok? ==> Collector.ActionsReadable(merged)
    ensures r.Ok? ==>
      var filed := Collector.FilesCollected(merged, Collector.ReferencedFiles(merged), env);
      Collector.AuthorPassRuns(filed) &&
      r.value == Collector.PersonsCollected(filed, Collector.ReferencedAuthors(filed)) &&
      (forall id :: id in r.value && HasType(r.value[id], Collector.PERSON) ==> id in Collector.ReferencedAuthors(filed))
    ensures r.Ok? ==> forall id :: id in r.value && HasType(r.value[id], Collector.FILE) ==>
      (env.present(id) || IsUrl(id)) &&
      (JStr(id) in Collector.ReferencedFiles(merged) || EndsWith(id, NOTEBOOK_EXTENSION))
  {
    context, merged := loaded, loaded;
    var crate := new Crate(loaded);
    var prepared := PrepareContext(crate, version, today);
    if prepared.Fail? {
      return Err(prepared.error), context, merged;
    }
    context := crate.nodes;
    var added := AddNotebooks(crate, notebooks, env, today);
    if added.Fail? {
      return Err(added.error), context, merged;
    }
    merged := crate.nodes;
    var files := Collector.RemoveDeletedFiles(crate, env);
    if files.Fail? {
      return Err(files.error), context, merged;
    }
    var people := Collector.RemoveUnreferencedAuthors(crate);
    if people.Fail? {
      return Err(people.error), context, merged;
    }
    PassesLeave(merged, env);
    r := Ok(crate.nodes);
  }
}
