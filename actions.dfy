/**
 * `add_action` of scripts/update_crate.py: the CreateAction that links a
 * notebook run to its input and output files. Its end date is the latest
 * output date (or the notebook's own date when there are no outputs), and
 * its `object`/`result` edges are rebuilt on every run.
 */
module Actions {
  import opened Values
  import opened Text
  import opened Store
  import opened FileStats
  import opened Identity
  import opened DataFiles

  const COMPLETED_STATUS := "http://schema.org/CompletedActionStatus"
  const RUN_NAME_PREFIX := "Run of notebook: "

  /** The "dateModified" of every output, in order; an output without one raises KeyError. */
  function OutputDates(outputs: seq<Entity>): (r: Result<seq<Json>>)
    ensures r.Ok? <==> forall i :: 0 <= i < |outputs| ==> "dateModified" in outputs[i].props
    ensures r.Ok? ==> |r.value| == |outputs|
    ensures r.Ok? ==> forall i :: 0 <= i < |outputs| ==> r.value[i] == outputs[i].props["dateModified"]
    ensures r.Err? ==> r.error == KeyError("dateModified")
  {
    if forall i :: 0 <= i < |outputs| ==> "dateModified" in outputs[i].props then
      Ok(seq(|outputs|, i requires 0 <= i < |outputs| => outputs[i].props["dateModified"]))
    else
      Err(KeyError("dateModified"))
  }

  /** The text of a list of string dates. */
  function DateTexts(dates: seq<Json>): (texts: seq<string>)
    requires forall d :: d in dates ==> d.JStr?
    ensures |texts| == |dates|
    ensures forall i :: 0 <= i < |dates| ==> texts[i] == dates[i].s
  {
    seq(|dates|, i requires 0 <= i < |dates| => dates[i].s)
  }

  /**
   * `sorted(dates)[-1]` for a non-empty list: a single date is returned as
   * it is; string dates give their greatest, compared by code point.
   */
  function Latest(dates: seq<Json>): (r: Result<Json>)
    requires dates != []
    ensures r.Ok? ==> r.value in dates
    ensures (forall d :: d in dates ==> d.JStr?) ==>
      r.Ok? && r.value.JStr? && forall d :: d in dates ==> LexLe(d.s, r.value.s)
    ensures |dates| == 1 ==> r == Ok(dates[0])
  {
    if |dates| == 1 then
      if dates[0].JStr? then LexLeReflexive(dates[0].s); Ok(dates[0]) else Ok(dates[0])
    else if forall d :: d in dates ==> d.JStr? then
      var texts := DateTexts(dates);
      var m := MaxString(texts);
      assert forall d :: d in dates ==> d.s in texts by {
        forall d | d in dates ensures d.s in texts {
          var i :| 0 <= i < |dates| && dates[i] == d;
          assert texts[i] == d.s;
        }
      }
      var i :| 0 <= i < |texts| && texts[i] == m;
      assert dates[i] in dates;
      assert dates[i] == JStr(m);
      Ok(JStr(m))
    else
      Err(TypeError("dates of different types cannot be sorted"))
  }

  /**
   * The action's end date: the latest output date, or, with no outputs, the
   * date `get_file_stats` gives for the notebook itself.
   */
  function EndDate(notebookId: string, outputs: seq<Entity>, env: Env): (r: Result<Json>)
    ensures (exists i :: 0 <= i < |outputs| && "dateModified" !in outputs[i].props) ==>
      r == Err(KeyError("dateModified"))
    ensures outputs == [] ==>
      (r.Ok? <==> GetFileStats(notebookId, env).Ok?) &&
      (r.Ok? ==> r.value == GetFileStats(notebookId, env).value.date)
    ensures r.Ok? && outputs != [] ==>
      exists i :: 0 <= i < |outputs| && "dateModified" in outputs[i].props && r.value == outputs[i].props["dateModified"]
  {
    match OutputDates(outputs)
    case Err(e) => Err(e)
    case Ok(dates) =>
      if dates == [] then
        match GetFileStats(notebookId, env)
        case Err(e) => Err(e)
        case Ok(stats) => Ok(stats.date)
      else
        var r := Latest(dates);
        assert r.Ok? ==> exists i :: 0 <= i < |dates| && dates[i] == r.value;
        r
  }

  /**
   * The properties `add_action` supplies: for an action already in the
   * crate only the emptied edges and the end date; for a new one the full
   * description of the run.
   */
  function ActionProps(existing: bool, notebookId: string, end: Json): Props {
    if existing then
      map["object" := JList([]), "result" := JList([]), "endDate" := end]
    else
      map["@type" := JStr("CreateAction"),
          "instrument" := IdIfy(JStr(notebookId)),
          "actionStatus" := Ref(COMPLETED_STATUS),
          "name" := JStr(RUN_NAME_PREFIX + notebookId),
          "endDate" := end]
  }

  /**
   * The node the action ends as: the supplied properties stored at `id`,
   * then one `object` reference per input and one `result` reference per
   * output appended.
   */
  function ActionNode(id: string, existing: bool, notebookId: string, end: Json,
                      inputs: seq<Entity>, outputs: seq<Entity>): (p: Props)
    ensures "endDate" in p && p["endDate"] == end
  {
    WithEdges(Construct(id, ContextKind, ActionProps(existing, notebookId, end)), inputs, outputs)
  }

  /** A node with one `object` reference per input and one `result` reference per output appended. */
  function WithEdges(base: Props, inputs: seq<Entity>, outputs: seq<Entity>): Props {
    var withObject := if inputs == [] then base else AppendedTo(base, "object", Refs(Ids(inputs)));
    if outputs == [] then withObject else AppendedTo(withObject, "result", Refs(Ids(outputs)))
  }

  /**
   * What appending the edges does to a node: "object" and "result" are the
   * only keys touched, and each is touched only when there is something to
   * append to it.
   */
  lemma WithEdgesShape(base: Props, inputs: seq<Entity>, outputs: seq<Entity>)
    ensures var p := WithEdges(base, inputs, outputs);
      p.Keys == base.Keys + (if inputs == [] then {} else {"object"}) + (if outputs == [] then {} else {"result"}) &&
      ("object" in base && "result" in base ==> p.Keys == base.Keys) &&
      (forall k :: k in base && k != "object" && k != "result" ==> p[k] == base[k]) &&
      (inputs == [] && "object" in base ==> p["object"] == base["object"]) &&
      (outputs == [] && "result" in base ==> p["result"] == base["result"]) &&
      (inputs != [] && ("object" in base ==> base["object"] == JList([])) ==> p["object"] == JList(Refs(Ids(inputs)))) &&
      (outputs != [] && ("result" in base ==> base["result"] == JList([])) ==> p["result"] == JList(Refs(Ids(outputs))))
  {
    assert "object" != "result";
    var withObject := if inputs == [] then base else AppendedTo(base, "object", Refs(Ids(inputs)));
    assert inputs != [] && ("object" in base ==> base["object"] == JList([])) ==>
      withObject["object"] == JList(Refs(Ids(inputs)));
  }

  /** The node `add_action` starts from when the action is already in the crate: emptied edges and the end date. */
  lemma ExistingActionBase(id: string, notebookId: string, end: Json)
    ensures var base := Construct(id, ContextKind, ActionProps(true, notebookId, end));
      base.Keys == {"@id", "@type", "object", "result", "endDate"} &&
      base["object"] == JList([]) && base["result"] == JList([]) &&
      base["@id"] == JStr(id) && base["@type"] == JStr(DefaultType(ContextKind))
  {
    var props := ActionProps(true, notebookId, end);
    assert props.Keys == {"object", "result", "endDate"};
    assert "@id" !in props && "@type" !in props;
  }

  /** The node `add_action` starts from for a new action: the full description of the run, without edges. */
  lemma NewActionBase(id: string, notebookId: string, end: Json)
    ensures var base := Construct(id, ContextKind, ActionProps(false, notebookId, end));
      base.Keys == {"@id", "@type", "instrument", "actionStatus", "name", "endDate"} &&
      "object" !in base && "result" !in base &&
      base["@id"] == JStr(id) && base["@type"] == JStr("CreateAction") &&
      base["instrument"] == Ref(notebookId) && base["actionStatus"] == Ref(COMPLETED_STATUS) &&
      base["name"] == JStr(RUN_NAME_PREFIX + notebookId)
  {
    var props := ActionProps(false, notebookId, end);
    assert props.Keys == {"@type", "instrument", "actionStatus", "name", "endDate"};
    assert "@id" !in props && "object" !in props && "result" !in props;
  }

  /** Whether the starting node has edges depends only on whether the action existed. */
  lemma ActionBase(id: string, existing: bool, notebookId: string, end: Json)
    ensures var base := Construct(id, ContextKind, ActionProps(existing, notebookId, end));
      ("object" in base <==> existing) && ("result" in base <==> existing) &&
      (existing ==> base["object"] == JList([]) && base["result"] == JList([]))
  {
    if existing {
      ExistingActionBase(id, notebookId, end);
    } else {
      NewActionBase(id, notebookId, end);
    }
  }

  /**
   * The edges are rebuilt, never accumulated: after the call `object` lists
   * exactly the inputs and `result` exactly the outputs, in order. A new
   * action without inputs (outputs) has no `object` (`result`) at all.
   */
  lemma ActionEdges(id: string, existing: bool, notebookId: string, end: Json, inputs: seq<Entity>, outputs: seq<Entity>)
    ensures var p := ActionNode(id, existing, notebookId, end, inputs, outputs);
      ("object" in p <==> existing || inputs != []) &&
      ("result" in p <==> existing || outputs != []) &&
      ("object" in p ==> p["object"] == JList(Refs(Ids(inputs)))) &&
      ("result" in p ==> p["result"] == JList(Refs(Ids(outputs))))
  {
    ActionBase(id, existing, notebookId, end);
    WithEdgesShape(Construct(id, ContextKind, ActionProps(existing, notebookId, end)), inputs, outputs);
  }

  /**
   * An action already in the crate keeps nothing of its description: the
   * node holds only its identity, the store's default type, the edges and
   * the end date, so it is no longer a CreateAction.
   */
  lemma UpdatedActionNode(id: string, notebookId: string, end: Json, inputs: seq<Entity>, outputs: seq<Entity>)
    ensures var p := ActionNode(id, true, notebookId, end, inputs, outputs);
      p.Keys == {"@id", "@type", "object", "result", "endDate"} &&
      p["@id"] == JStr(id) && p["@type"] == JStr(DefaultType(ContextKind)) &&
      !HasType(p, "CreateAction")
  {
    ExistingActionBase(id, notebookId, end);
    WithEdgesShape(Construct(id, ContextKind, ActionProps(true, notebookId, end)), inputs, outputs);
    var p := ActionNode(id, true, notebookId, end, inputs, outputs);
    assert p["@type"] == JStr("Thing");
    assert TypesOf(p) == {"Thing"};
  }

  /**
   * A new action describes the run: a CreateAction whose instrument is the
   * notebook, with the completed status and the run's name.
   */
  lemma CreatedActionNode(id: string, notebookId: string, end: Json, inputs: seq<Entity>, outputs: seq<Entity>)
    ensures var p := ActionNode(id, false, notebookId, end, inputs, outputs);
      p.Keys == {"@id", "@type", "instrument", "actionStatus", "name", "endDate"}
        + (if inputs == [] then {} else {"object"}) + (if outputs == [] then {} else {"result"}) &&
      p["@id"] == JStr(id) && p["@type"] == JStr("CreateAction") && HasType(p, "CreateAction") &&
      p["instrument"] == Ref(notebookId) && p["actionStatus"] == Ref(COMPLETED_STATUS) &&
      p["name"] == JStr(RUN_NAME_PREFIX + notebookId)
  {
    NewActionBase(id, notebookId, end);
    WithEdgesShape(Construct(id, ContextKind, ActionProps(false, notebookId, end)), inputs, outputs);
    var p := ActionNode(id, false, notebookId, end, inputs, outputs);
    assert p["@type"] == JStr("CreateAction");
    assert "CreateAction" in TypesOf(p);
  }

  /** Appending the references of one more entity extends the references of the list. */
  lemma AppendOneRef(p: Props, key: string, entities: seq<Entity>, i: nat)
    requires i < |entities|
    ensures AppendedTo(AppendedTo(p, key, Refs(Ids(entities[..i]))), key, [Ref(entities[i].id)])
         == AppendedTo(p, key, Refs(Ids(entities[..i + 1])))
  {
    AppendedToTwice(p, key, Refs(Ids(entities[..i])), [Ref(entities[i].id)]);
    assert Refs(Ids(entities[..i])) + [Ref(entities[i].id)] == Refs(Ids(entities[..i + 1]));
  }

  /** The `append_to` loop over a list of entities: one reference per entity, in order. */
  method AppendEdges(crate: Crate, id: string, key: string, entities: seq<Entity>)
    requires id in crate.nodes
    modifies crate
    ensures crate.nodes == old(crate.nodes)[id :=
      if entities == [] then old(crate.nodes)[id] else AppendedTo(old(crate.nodes)[id], key, Refs(Ids(entities)))]
  {
    ghost var base := crate.nodes[id];
    for i := 0 to |entities|
      invariant crate.nodes == old(crate.nodes)[id := if i == 0 then base else AppendedTo(base, key, Refs(Ids(entities[..i])))]
    {
      crate.AppendTo(id, key, [Ref(entities[i].id)]);
      if i > 0 {
        AppendOneRef(base, key, entities, i);
      } else {
        assert Refs(Ids(entities[..1])) == [Ref(entities[0].id)];
      }
    }
    assert entities != [] ==> entities[..|entities|] == entities;
  }

  /** Stores the action node at `id` and appends its edges, inputs first. */
  method StoreAction(crate: Crate, id: string, props: Props, inputs: seq<Entity>, outputs: seq<Entity>)
    modifies crate
    ensures crate.nodes == old(crate.nodes)[id := WithEdges(Construct(id, ContextKind, props), inputs, outputs)]
  {
    ghost var start := crate.nodes;
    ghost var base := Construct(id, ContextKind, props);
    ghost var withObject := if inputs == [] then base else AppendedTo(base, "object", Refs(Ids(inputs)));
    crate.Add(id, ContextKind, props);
    ghost var stored := crate.nodes;
    assert stored[id] == base;
    AppendEdges(crate, id, "object", inputs);
    assert crate.nodes == stored[id := withObject];
    StoreTwice(start, id, base, withObject);
    ghost var mid := crate.nodes;
    assert mid[id] == withObject;
    AppendEdges(crate, id, "result", outputs);
    assert crate.nodes == mid[id := WithEdges(base, inputs, outputs)];
    StoreTwice(start, id, withObject, WithEdges(base, inputs, outputs));
  }

  /**
   * `add_action(crate, notebook, inputs, outputs)`: computes the end date
   * (which may raise), replaces the action node and appends the edges.
   */
  method AddAction(crate: Crate, notebookId: string, inputs: seq<Entity>, outputs: seq<Entity>, env: Env)
    returns (r: Outcome)
    modifies crate
    ensures r.Pass? <==> EndDate(notebookId, outputs, env).Ok?
    ensures r.Pass? ==> crate.nodes == old(crate.nodes)[ActionId(notebookId) :=
      ActionNode(ActionId(notebookId), ActionId(notebookId) in old(crate.nodes), notebookId,
                 EndDate(notebookId, outputs, env).value, inputs, outputs)]
    ensures r.Fail? ==> crate.nodes == old(crate.nodes) && r.error == EndDate(notebookId, outputs, env).error
  {
    var id := ActionId(notebookId);
    var end := EndDate(notebookId, outputs, env);
    if end.Err? {
      return Fail(end.error);
    }
    var current := crate.Get(id);
    StoreAction(crate, id, ActionProps(current.Some?, notebookId, end.value), inputs, outputs);
    r := Pass;
  }

  /**
   * A web link outside GitHub that is first seen as an output gets no
   * "dateModified", so the action of its notebook raises KeyError.
   */
  lemma NewGenericUrlOutputRaises(notebookId: string, outputs: seq<Entity>, i: nat, env: Env, today: string)
    requires i < |outputs|
    requires IsUrl(outputs[i].id) && !Contains(outputs[i].id, GITHUB_HOST)
    requires GetFileStats(outputs[i].id, env).Ok?
    requires outputs[i] == FileEntity(None, outputs[i].id, GetFileStats(outputs[i].id, env).value, env, today)
    ensures EndDate(notebookId, outputs, env) == Err(KeyError("dateModified"))
  {
    assert "dateModified" !in outputs[i].props;
  }
}
