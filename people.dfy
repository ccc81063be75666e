/**
 * `add_people` of scripts/update_crate.py: each author record of a notebook
 * becomes a Person node, keyed by the identity rule; a person already in the
 * crate keeps every property except "name", which takes the latest value.
 */
module People {
  import opened Values
  import opened Store
  import opened Identity

  /**
   * The node stored for person `id` when the node before was `before`: the
   * old properties with "name" overwritten, or a node that has nothing but
   * its identity, its type and the name.
   */
  function MergedPerson(id: string, before: Option<Props>, name: Json): (p: Props)
    ensures p.Keys == {"@id", "@type", "name"} + (if before.Some? then before.value.Keys else {})
    ensures p["name"] == name
    ensures before.Some? ==> forall k :: k in before.value && k != "name" ==> p[k] == before.value[k]
    ensures before.None? ==> p == map["@id" := JStr(id), "@type" := JStr("Person"), "name" := name]
  {
    var props := if before.Some? then before.value["name" := name] else map["name" := name];
    Construct(id, PersonKind, props)
  }

  /** Merging the same person twice is merging once with the later name. */
  lemma MergedPersonAgain(id: string, before: Option<Props>, first: Json, second: Json)
    ensures MergedPerson(id, Some(MergedPerson(id, before, first)), second) == MergedPerson(id, before, second)
  {
    var lhs := MergedPerson(id, Some(MergedPerson(id, before, first)), second);
    var rhs := MergedPerson(id, before, second);
    assert lhs.Keys == rhs.Keys;
    forall k | k in lhs ensures lhs[k] == rhs[k] {
      if before.Some? && k in before.value && k != "name" {
        assert lhs[k] == before.value[k];
      }
    }
  }

  /** The identifiers `add_people` returns, one per resolved author, in order. */
  function PersonIds(people: seq<Author>): (ids: seq<string>)
    ensures |ids| == |people|
    ensures forall i :: 0 <= i < |people| ==> ids[i] == PersonId(people[i].key)
  {
    seq(|people|, i requires 0 <= i < |people| => PersonId(people[i].key))
  }

  /** The crate after upserting `people` one after the other. */
  function PeopleUpserted(nodes: Nodes, people: seq<Author>): Nodes
    decreases |people|
  {
    if people == [] then nodes
    else
      var before := PeopleUpserted(nodes, people[..|people| - 1]);
      var person := people[|people| - 1];
      var id := PersonId(person.key);
      before[id := MergedPerson(id, Lookup(before, id), person.name)]
  }

  /**
   * The name of the last record whose identifier is `id`: the one that wins
   * when several records name the same person.
   */
  function LastNameOf(people: seq<Author>, id: string): (name: Option<Json>)
    ensures name.Some? <==> id in PersonIds(people)
    ensures name.Some? ==>
      (exists i :: 0 <= i < |people| && PersonId(people[i].key) == id && people[i].name == name.value &&
        (forall j :: i < j < |people| ==> PersonId(people[j].key) != id))
    decreases |people|
  {
    if people == [] then None
    else
      var init := people[..|people| - 1];
      var last := people[|people| - 1];
      assert PersonIds(people) == PersonIds(init) + [PersonId(last.key)];
      if PersonId(last.key) == id then Some(last.name) else LastNameOf(init, id)
  }

  /**
   * The whole effect of a run of upserts on one identifier: a person named
   * by some record ends as the merge of the node before the run with the
   * last record's name; every other node is untouched.
   */
  lemma {:induction false} PeopleUpsertedNode(nodes: Nodes, people: seq<Author>, id: string)
    ensures LastNameOf(people, id).Some? ==>
      id in PeopleUpserted(nodes, people) &&
      PeopleUpserted(nodes, people)[id] == MergedPerson(id, Lookup(nodes, id), LastNameOf(people, id).value)
    ensures LastNameOf(people, id).None? ==>
      Lookup(PeopleUpserted(nodes, people), id) == Lookup(nodes, id)
    decreases |people|
  {
    if people != [] {
      var init := people[..|people| - 1];
      var last := people[|people| - 1];
      PeopleUpsertedNode(nodes, init, id);
      assert init + [last] == people;
      UpsertedSnoc(nodes, init, last);
      var before := PeopleUpserted(nodes, init);
      var after := PeopleUpserted(nodes, people);
      if PersonId(last.key) == id {
        assert LastNameOf(people, id) == Some(last.name);
        assert after[id] == MergedPerson(id, Lookup(before, id), last.name);
        if LastNameOf(init, id).Some? {
          assert Lookup(before, id) == Some(MergedPerson(id, Lookup(nodes, id), LastNameOf(init, id).value));
          MergedPersonAgain(id, Lookup(nodes, id), LastNameOf(init, id).value, last.name);
        } else {
          assert Lookup(before, id) == Lookup(nodes, id);
        }
      } else {
        assert LastNameOf(people, id) == LastNameOf(init, id);
        assert Lookup(after, id) == Lookup(before, id);
      }
    }
  }

  /** Upserting people only ever adds the persons' identifiers to the crate. */
  lemma {:induction false} PeopleUpsertedKeys(nodes: Nodes, people: seq<Author>)
    ensures forall id :: id in PeopleUpserted(nodes, people) <==> id in nodes || id in PersonIds(people)
    decreases |people|
  {
    if people != [] {
      var init := people[..|people| - 1];
      var last := PersonId(people[|people| - 1].key);
      PeopleUpsertedKeys(nodes, init);
      assert init + [people[|people| - 1]] == people;
      UpsertedSnoc(nodes, init, people[|people| - 1]);
      forall id ensures id in PeopleUpserted(nodes, people) <==> id in nodes || id in PersonIds(people) {
        assert id in PersonIds(people) <==> id in PersonIds(init) || id == last;
      }
    }
  }

  /** Resolving one more record that resolves extends the resolved prefix by it. */
  lemma ResolveAllSnoc(authors: seq<Json>, i: nat)
    requires i < |authors| && ResolveAll(authors[..i]).Ok? && ResolveAuthor(authors[i]).Ok?
    ensures ResolveAll(authors[..i + 1]) == Ok(ResolveAll(authors[..i]).value + [ResolveAuthor(authors[i]).value])
  {
    assert authors[..i + 1][..i] == authors[..i];
  }

  /** Upserting one more person is one more map update on top of the earlier upserts. */
  lemma UpsertedSnoc(nodes: Nodes, people: seq<Author>, person: Author)
    ensures PersonIds(people + [person]) == PersonIds(people) + [PersonId(person.key)]
    ensures var before := PeopleUpserted(nodes, people);
            var id := PersonId(person.key);
            PeopleUpserted(nodes, people + [person]) == before[id := MergedPerson(id, Lookup(before, id), person.name)]
  {
    assert (people + [person])[..|people|] == people;
  }

  /**
   * One iteration of `add_people`: the person's node is looked up, its
   * "name" overwritten (or a new node built) and stored back.
   */
  method UpsertPerson(crate: Crate, person: Author) returns (id: string)
    modifies crate
    ensures id == PersonId(person.key)
    ensures crate.nodes == old(crate.nodes)[id := MergedPerson(id, Lookup(old(crate.nodes), id), person.name)]
  {
    id := PersonId(person.key);
    var current := crate.Get(id);
    var props := if current.Some? then current.value["name" := person.name] else map["name" := person.name];
    crate.Add(id, PersonKind, props);
  }

  /**
   * `add_people(crate, authors)`: one person per author record, in order;
   * the first record that cannot be resolved raises, after the earlier
   * records have been stored.
   */
  method AddPeople(crate: Crate, authors: seq<Json>) returns (r: Result<seq<string>>)
    modifies crate
    ensures r.Ok? <==> ResolveAll(authors).Ok?
    ensures r.Ok? ==> r.value == PersonIds(ResolveAll(authors).value)
    ensures r.Ok? ==> crate.nodes == PeopleUpserted(old(crate.nodes), ResolveAll(authors).value)
  {
    var ids: seq<string> := [];
    ghost var people: seq<Author> := [];
    var i := 0;
    while i < |authors|
      invariant 0 <= i <= |authors|
      invariant ResolveAll(authors[..i]) == Ok(people)
      invariant ids == PersonIds(people)
      invariant crate.nodes == PeopleUpserted(old(crate.nodes), people)
    {
      var resolved := ResolveAuthor(authors[i]);
      if resolved.Err? {
        return Err(resolved.error);
      }
      var person := resolved.value;
      var id := UpsertPerson(crate, person);
      ResolveAllSnoc(authors, i);
      UpsertedSnoc(old(crate.nodes), people, person);
      people := people + [person];
      ids := ids + [id];
      i := i + 1;
    }
    assert authors[..i] == authors;
    r := Ok(ids);
  }
}
