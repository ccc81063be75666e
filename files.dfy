/**
 * `add_files` of scripts/update_crate.py: every reference that exists
 * locally or is a web link becomes (or refreshes) a File node. An existing
 * node keeps its properties; only the modification date, the size and, for
 * web links, the access date are written over.
 */
module DataFiles {
  import opened Values
  import opened Text
  import opened Store
  import opened FileStats

  /** The properties `add_files` writes over on every run. */
  const REFRESHED: set<string> := {"dateModified", "contentSize", "sdDatePublished"}

  /** An entity handle as `add_file` returns it: its identifier and its properties when it was stored. */
  datatype Entity = Entity(id: string, props: Props)

  /** `Path(ref).exists() or ref.startswith("http")` */
  predicate Accepted(ref: string, env: Env) {
    env.present(ref) || IsUrl(ref)
  }

  /** The identity, types and name every new File node starts with. */
  function FileIdentity(ref: string): (p: Props)
    ensures p.Keys == {"@id", "@type", "name"} && "encodingFormat" !in p
    ensures p["@id"] == JStr(ref) && p["@type"] == JList([JStr("File"), JStr("Dataset")])
    ensures p["name"] == JStr(LastSegment(ref))
  {
    map["@id" := JStr(ref), "@type" := JList([JStr("File"), JStr("Dataset")]), "name" := JStr(LastSegment(ref))]
  }

  /** The default properties of a file seen for the first time. */
  function NewFileProps(ref: string, env: Env): (p: Props)
    ensures {"@id", "@type", "name"} <= p.Keys <= {"@id", "@type", "name", "encodingFormat"}
    ensures p["@id"] == JStr(ref)
    ensures p["@type"] == JList([JStr("File"), JStr("Dataset")])
    ensures p["name"] == JStr(LastSegment(ref)) && '/' !in p["name"].s
    ensures "encodingFormat" in p <==> env.guessType(ref).Some? && env.guessType(ref).value != ""
    ensures "encodingFormat" in p ==> p["encodingFormat"] == JStr(env.guessType(ref).value)
  {
    var p := FileIdentity(ref);
    if env.guessType(ref).Some? && env.guessType(ref).value != "" then
      p["encodingFormat" := JStr(env.guessType(ref).value)]
    else
      p
  }

  /** Whether a refresh writes property `k` of the file at `ref`. */
  predicate Written(k: string, ref: string, stats: Stats) {
    (k == "dateModified" && Truthy(stats.date)) ||
    (k == "contentSize" && Truthy(stats.size)) ||
    (k == "sdDatePublished" && IsUrl(ref))
  }

  /**
   * The properties of the file after a refresh: the date and the size are
   * written only when truthy, and the access date only for a web link;
   * every other property is kept as it was.
   */
  function Refreshed(base: Props, ref: string, stats: Stats, today: string): (p: Props)
    ensures forall k :: k in p <==> (k in base || Written(k, ref, stats))
    ensures forall k :: k in base && !Written(k, ref, stats) ==> p[k] == base[k]
    ensures Truthy(stats.date) ==> "dateModified" in p && p["dateModified"] == stats.date
    ensures Truthy(stats.size) ==> "contentSize" in p && p["contentSize"] == stats.size
    ensures IsUrl(ref) ==> "sdDatePublished" in p && p["sdDatePublished"] == JStr(today)
  {
    var dated := if Truthy(stats.date) then base["dateModified" := stats.date] else base;
    var sized := if Truthy(stats.size) then dated["contentSize" := stats.size] else dated;
    if IsUrl(ref) then sized["sdDatePublished" := JStr(today)] else sized
  }

  /**
   * A refresh touches only the three refreshed properties, and the
   * modification date is present afterwards exactly when it was written or
   * was there before.
   */
  lemma RefreshedKeeps(base: Props, ref: string, stats: Stats, today: string)
    ensures var p := Refreshed(base, ref, stats, today);
      (forall k :: k in base && k !in REFRESHED ==> k in p && p[k] == base[k]) &&
      ("dateModified" in p <==> Truthy(stats.date) || "dateModified" in base) &&
      ("@id" in p <==> "@id" in base) && ("@type" in p <==> "@type" in base)
  {
    var p := Refreshed(base, ref, stats, today);
    forall k | k in base && k !in REFRESHED ensures k in p && p[k] == base[k] {
      assert !Written(k, ref, stats);
    }
    assert Written("dateModified", ref, stats) <==> Truthy(stats.date);
    assert !Written("@id", ref, stats) && !Written("@type", ref, stats);
  }

  /** The entity `add_file` stores for an accepted reference, from the node there before (if any). */
  function FileEntity(before: Option<Props>, ref: string, stats: Stats, env: Env, today: string): (e: Entity)
    ensures e.id == ref
    ensures before.Some? ==> forall k :: k in before.value && k !in REFRESHED ==> k in e.props && e.props[k] == before.value[k]
    ensures before.None? ==>
      {"@id", "@type", "name"} <= e.props.Keys &&
      e.props["@id"] == JStr(ref) &&
      e.props["@type"] == JList([JStr("File"), JStr("Dataset")]) &&
      e.props["name"] == JStr(LastSegment(ref))
    ensures Truthy(stats.date) ==> "dateModified" in e.props && e.props["dateModified"] == stats.date
    ensures !Truthy(stats.date) ==> ("dateModified" in e.props <==> before.Some? && "dateModified" in before.value)
    ensures IsUrl(ref) ==> "sdDatePublished" in e.props && e.props["sdDatePublished"] == JStr(today)
  {
    var base := if before.Some? then before.value else NewFileProps(ref, env);
    assert before.None? ==> "dateModified" !in base;
    RefreshedKeeps(base, ref, stats, today);
    Entity(ref, Construct(ref, FileKind, Refreshed(base, ref, stats, today)))
  }

  /** The state of a run of file upserts: the crate so far and the entities returned so far. */
  datatype Upsert = Upsert(nodes: Nodes, entities: seq<Entity>)

  /** The references `add_files` does not skip, in order. */
  function KeptRefs(refs: seq<string>, env: Env): (kept: seq<string>)
    ensures forall ref :: ref in kept <==> ref in refs && Accepted(ref, env)
    ensures |kept| <= |refs|
    decreases |refs|
  {
    if refs == [] then []
    else
      var init := refs[..|refs| - 1];
      var last := refs[|refs| - 1];
      assert forall ref :: ref in refs <==> ref in init || ref == last;
      if Accepted(last, env) then KeptRefs(init, env) + [last] else KeptRefs(init, env)
  }

  /** The identifiers of a list of entities. */
  function Ids(entities: seq<Entity>): (ids: seq<string>)
    ensures |ids| == |entities|
    ensures forall i :: 0 <= i < |entities| ==> ids[i] == entities[i].id
  {
    seq(|entities|, i requires 0 <= i < |entities| => entities[i].id)
  }

  /** One more entity adds its identifier at the end. */
  lemma IdsSnoc(entities: seq<Entity>, e: Entity)
    ensures Ids(entities + [e]) == Ids(entities) + [e.id]
  {
    var ids := Ids(entities) + [e.id];
    forall i | 0 <= i < |entities| + 1 ensures Ids(entities + [e])[i] == ids[i] {
      if i < |entities| {
        assert (entities + [e])[i] == entities[i];
      }
    }
  }

  /** The crate and the returned entities after upserting `refs` one after the other. */
  function FilesUpserted(nodes: Nodes, refs: seq<string>, env: Env, today: string): (r: Result<Upsert>)
    ensures r.Ok? ==> Ids(r.value.entities) == KeptRefs(refs, env)
    ensures r.Ok? ==> forall i :: 0 <= i < |r.value.entities| ==> r.value.entities[i].id in r.value.nodes
    decreases |refs|
  {
    if refs == [] then Ok(Upsert(nodes, []))
    else
      var ref := refs[|refs| - 1];
      match FilesUpserted(nodes, refs[..|refs| - 1], env, today)
      case Err(e) => Err(e)
      case Ok(u) =>
        if !Accepted(ref, env) then
          assert KeptRefs(refs, env) == KeptRefs(refs[..|refs| - 1], env);
          Ok(u)
        else match GetFileStats(ref, env)
          case Err(e) => Err(e)
          case Ok(stats) =>
            var e := FileEntity(Lookup(u.nodes, ref), ref, stats, env, today);
            IdsSnoc(u.entities, e);
            assert KeptRefs(refs, env) == KeptRefs(refs[..|refs| - 1], env) + [ref];
            var next := u.nodes[ref := e.props];
            assert forall i :: 0 <= i < |u.entities| ==> u.entities[i].id in next;
            Ok(Upsert(next, u.entities + [e]))
  }

  /**
   * A run of file upserts adds exactly the kept references to the crate and
   * leaves every node of any other identifier as it was.
   */
  lemma {:induction false} FilesUpsertedFrame(nodes: Nodes, refs: seq<string>, env: Env, today: string)
    requires FilesUpserted(nodes, refs, env, today).Ok?
    ensures var after := FilesUpserted(nodes, refs, env, today).value.nodes;
      (forall id :: id in after <==> id in nodes || id in KeptRefs(refs, env)) &&
      (forall id :: id in nodes && id !in KeptRefs(refs, env) ==> after[id] == nodes[id])
    decreases |refs|
  {
    if refs != [] {
      FilesUpsertedFrame(nodes, refs[..|refs| - 1], env, today);
    }
  }

  /** A reference that neither exists nor is a web link leaves no node behind. */
  lemma SkippedRefAddsNothing(nodes: Nodes, refs: seq<string>, env: Env, today: string, ref: string)
    requires FilesUpserted(nodes, refs, env, today).Ok?
    requires !Accepted(ref, env) && ref !in nodes
    ensures ref !in FilesUpserted(nodes, refs, env, today).value.nodes
  {
    FilesUpsertedFrame(nodes, refs, env, today);
  }

  /**
   * Curated properties survive: every property of a node that was in the
   * crate, other than the three refreshed ones, is still there with the
   * same value, however often the file was upserted.
   */
  lemma {:induction false} FilesUpsertedKeepsCurated(nodes: Nodes, refs: seq<string>, env: Env, today: string, id: string, k: string)
    requires FilesUpserted(nodes, refs, env, today).Ok?
    requires id in nodes && k in nodes[id] && k !in REFRESHED
    ensures var after := FilesUpserted(nodes, refs, env, today).value.nodes;
      id in after && k in after[id] && after[id][k] == nodes[id][k]
    decreases |refs|
  {
    if refs != [] {
      FilesUpsertedKeepsCurated(nodes, refs[..|refs| - 1], env, today, id, k);
    }
  }

  /**
   * `add_files(crate, refs)`: the references are visited in order, skipped
   * when they neither exist nor are web links, and a failed stats lookup
   * raises.
   */
  method AddFiles(crate: Crate, refs: seq<string>, env: Env, today: string) returns (r: Result<seq<Entity>>)
    modifies crate
    ensures r.Ok? <==> FilesUpserted(old(crate.nodes), refs, env, today).Ok?
    ensures r.Ok? ==> r.value == FilesUpserted(old(crate.nodes), refs, env, today).value.entities
    ensures r.Ok? ==> crate.nodes == FilesUpserted(old(crate.nodes), refs, env, today).value.nodes
  {
    var entities: seq<Entity> := [];
    var i := 0;
    while i < |refs|
      invariant 0 <= i <= |refs|
      invariant FilesUpserted(old(crate.nodes), refs[..i], env, today) == Ok(Upsert(crate.nodes, entities))
    {
      var ref := refs[i];
      assert refs[..i + 1][..i] == refs[..i];
      if Accepted(ref, env) {
        var stats := GetFileStats(ref, env);
        if stats.Err? {
          FilesUpsertedErr(old(crate.nodes), refs, env, today, i + 1);
          return Err(stats.error);
        }
        var current := crate.Get(ref);
        var base := if current.Some? then current.value else NewFileProps(ref, env);
        var props := Refreshed(base, ref, stats.value, today);
        crate.Add(ref, FileKind, props);
        entities := entities + [Entity(ref, crate.nodes[ref])];
      }
      i := i + 1;
    }
    assert refs[..i] == refs;
    r := Ok(entities);
  }

  /** Once a prefix of the references fails, the whole run fails. */
  lemma {:induction false} FilesUpsertedErr(nodes: Nodes, refs: seq<string>, env: Env, today: string, n: nat)
    requires n <= |refs| && FilesUpserted(nodes, refs[..n], env, today).Err?
    ensures FilesUpserted(nodes, refs, env, today).Err?
    decreases |refs| - n
  {
    if n < |refs| {
      assert refs[..n + 1][..n] == refs[..n];
      FilesUpsertedErr(nodes, refs, env, today, n + 1);
    } else {
      assert refs[..n] == refs;
    }
  }
}
