/**
 * The entity identity resolver of scripts/update_crate.py: how a person, a
 * CreateAction, an UpdateAction and a notebook are named. Every rule is a
 * pure function of its inputs, so identifiers are the same on every run.
 */
module Identity {
  import opened Values
  import opened Text
  import ExtractMetadata

  const NOTEBOOK_EXTENSION := ".ipynb"
  const ORCID_BASE := "https://orcid.org/"

  /** What a person's identifier is derived from. */
  datatype AuthorKey = ByName(name: string) | ByOrcid(orcid: string)

  /** One author record of a notebook's metadata, once its key is known. */
  datatype Author = Author(key: AuthorKey, name: Json)

  /**
   * The identifier of a person: a name-derived "#..." id when there is no
   * ORCID, else an ORCID URI. The two kinds can never collide: one starts
   * with '#', the other with "http".
   */
  function PersonId(key: AuthorKey): (id: string)
    ensures key.ByName? ==> id != [] && id[0] == '#'
    ensures key.ByOrcid? ==> StartsWith(id, "http") && EndsWith(id, key.orcid)
  {
    match key
    case ByName(name) => "#" + ReplaceAll(name, ", ", "_")
    case ByOrcid(orcid) =>
      if StartsWith(orcid, "http") then orcid else ORCID_BASE + orcid
  }

  /** A bare ORCID and its URI form name the same person. */
  lemma OrcidFormsAgree(orcid: string)
    requires !StartsWith(orcid, "http")
    ensures PersonId(ByOrcid(orcid)) == PersonId(ByOrcid(ORCID_BASE + orcid))
  {
    assert (ORCID_BASE + orcid)[..4] == "http";
  }

  /** A name that holds no ", " is used verbatim after the '#'. */
  lemma NameIdVerbatim(name: string)
    requires !Contains(name, ", ")
    ensures PersonId(ByName(name)) == "#" + name
  {
    ReplaceAllAbsent(name, ", ", "_");
  }

  /** A worked example: a "Surname, Given" name without an ORCID. */
  lemma NameIdExample()
    ensures PersonId(ByName("Smith, Jane")) == "#Smith_Jane"
  {
    ExampleNameReplaced("Smith", "Jane");
    assert "Smith" + ", " + "Jane" == "Smith, Jane";
    assert "#" + ("Smith" + "_" + "Jane") == "#Smith_Jane";
  }

  /** "Surname, Given" becomes "Surname_Given" when neither part holds a comma. */
  lemma ExampleNameReplaced(surname: string, given: string)
    requires ',' !in surname && ',' !in given
    ensures ReplaceAll(surname + ", " + given, ", ", "_") == surname + "_" + given
  {
    ReplaceAllAfterStem(surname, ", ", given, "_");
    ContainsLeadChar(given, ", ");
    ReplaceAllAbsent(given, ", ", "_");
  }

  /** A worked example: a bare ORCID gains the orcid.org prefix. */
  lemma OrcidIdExample()
    ensures PersonId(ByOrcid("0000-0001-2345-6789")) == "https://orcid.org/" + "0000-0001-2345-6789"
  {
    var orcid := "0000-0001-2345-6789";
    assert orcid[0] != 'h';
    assert !StartsWith(orcid, "http");
  }

  /** The ORCID is used exactly when the record has a truthy "orcid". */
  predicate OrcidGiven(fields: map<string, Json>) {
    "orcid" in fields && Truthy(fields["orcid"])
  }

  /**
   * How one author record selects its key. A record without "name" raises
   * KeyError and a record that is not a mapping raises TypeError. A truthy
   * ORCID that is not a string has no `startswith`, and a name that is not
   * a string has no `replace` when the identifier is built from it: both
   * raise AttributeError.
   */
  function ResolveAuthor(author: Json): (r: Result<Author>)
    ensures r.Ok? <==>
      author.JObj? && "name" in author.fields &&
      (if OrcidGiven(author.fields) then author.fields["orcid"].JStr? else author.fields["name"].JStr?)
    ensures r.Ok? ==> r.value.name == author.fields["name"]
    ensures r.Ok? ==> (r.value.key.ByOrcid? <==> OrcidGiven(author.fields))
    ensures r.Ok? && r.value.key.ByOrcid? ==> JStr(r.value.key.orcid) == author.fields["orcid"]
    ensures r.Ok? && r.value.key.ByName? ==> JStr(r.value.key.name) == author.fields["name"]
    ensures !author.JObj? ==> r.Err? && r.error.TypeError?
    ensures author.JObj? && OrcidGiven(author.fields) && !author.fields["orcid"].JStr? ==>
      r.Err? && r.error.AttributeError?
    ensures author.JObj? && !OrcidGiven(author.fields) && "name" in author.fields && !author.fields["name"].JStr? ==>
      r.Err? && r.error.AttributeError?
    ensures author.JObj? && "name" !in author.fields && (OrcidGiven(author.fields) ==> author.fields["orcid"].JStr?) ==>
      r == Err(KeyError("name"))
  {
    if !author.JObj? then Err(TypeError("author record is not a mapping"))
    else
      var fields := author.fields;
      if !OrcidGiven(fields) then
        if "name" !in fields then Err(KeyError("name"))
        else if !fields["name"].JStr? then Err(AttributeError("name has no replace()"))
        else Ok(Author(ByName(fields["name"].s), fields["name"]))
      else if !fields["orcid"].JStr? then Err(AttributeError("orcid has no startswith()"))
      else if "name" !in fields then Err(KeyError("name"))
      else Ok(Author(ByOrcid(fields["orcid"].s), fields["name"]))
  }

  /**
   * Every author record resolved, in order; the first record that cannot be
   * resolved decides the error.
   */
  function ResolveAll(authors: seq<Json>): (r: Result<seq<Author>>)
    ensures r.Ok? <==> forall i :: 0 <= i < |authors| ==> ResolveAuthor(authors[i]).Ok?
    ensures r.Ok? ==> |r.value| == |authors|
    ensures r.Ok? ==> forall i :: 0 <= i < |authors| ==> r.value[i] == ResolveAuthor(authors[i]).value
    decreases |authors|
  {
    if authors == [] then Ok([])
    else
      var init := authors[..|authors| - 1];
      match ResolveAll(init)
      case Err(e) => Err(e)
      case Ok(people) =>
        match ResolveAuthor(authors[|authors| - 1])
        case Err(e) => Err(e)
        case Ok(person) => Ok(people + [person])
  }

  /** The placeholder author's ORCID is already a URI, so it is its identifier verbatim. */
  lemma DefaultAuthorIdVerbatim()
    ensures ResolveAuthor(ExtractMetadata.DEFAULT_AUTHOR).Ok?
    ensures PersonId(ResolveAuthor(ExtractMetadata.DEFAULT_AUTHOR).value.key) == ExtractMetadata.DEFAULT_AUTHOR_ORCID
  {
    var fields := ExtractMetadata.DEFAULT_AUTHOR.fields;
    assert fields["orcid"] == JStr(ExtractMetadata.DEFAULT_AUTHOR_ORCID) && "name" in fields;
    assert OrcidGiven(fields);
    assert ResolveAuthor(ExtractMetadata.DEFAULT_AUTHOR) ==
      Ok(Author(ByOrcid(ExtractMetadata.DEFAULT_AUTHOR_ORCID), fields["name"]));
    assert ExtractMetadata.DEFAULT_AUTHOR_ORCID[..4] == "http";
  }

  /** The CreateAction of a notebook: its id with every ".ipynb" removed, then "_run". */
  function ActionId(notebookId: string): (id: string)
    ensures EndsWith(id, "_run")
    ensures |id| <= |notebookId| + 4
  {
    ReplaceAllDeletes(notebookId, ".ipynb");
    var stem := ReplaceAll(notebookId, ".ipynb", "");
    assert (stem + "_run")[|stem|..] == "_run";
    stem + "_run"
  }

  /** For a notebook named with one dot, the action id is its stem followed by "_run". */
  lemma ActionIdStripsExtension(stem: string)
    requires '.' !in stem
    ensures ActionId(stem + NOTEBOOK_EXTENSION) == stem + "_run"
  {
    ReplaceAllAfterStem(stem, ".ipynb", "", "");
    assert stem + ".ipynb" + "" == stem + ".ipynb";
    assert stem + "" + "" == stem;
  }

  /** A notebook's action never takes the notebook's own identifier. */
  lemma ActionIdDiffers(notebookId: string)
    ensures ActionId(notebookId) != notebookId
  {
    ReplaceAllDeletes(notebookId, ".ipynb");
    var k: nat :| |notebookId| == |ReplaceAll(notebookId, ".ipynb", "")| + k * 6;
    assert |ActionId(notebookId)| == |ReplaceAll(notebookId, ".ipynb", "")| + 4;
    if k == 0 {
    } else {
      assert k * 6 >= 6;
    }
  }

  /**
   * The UpdateAction of a version bump: "create_version_" and the version
   * with every '.' made '_'; the identifier holds no dot.
   */
  function UpdateActionId(version: string): (id: string)
    ensures StartsWith(id, "create_version_")
    ensures |id| == |"create_version_"| + |version|
    ensures '.' !in id
  {
    ReplaceCharAll(version, '.', '_');
    var tail := ReplaceAll(version, ".", "_");
    var id := "create_version_" + tail;
    assert forall k :: 0 <= k < |id| ==> id[k] != '.' by {
      forall k | 0 <= k < |id| ensures id[k] != '.' {
        if k >= 15 {
          assert id[k] == tail[k - 15];
        }
      }
    }
    assert id[..15] == "create_version_";
    id
  }

  /** `Path(name).suffix`: from the last dot on, unless that dot starts or ends the name. */
  function Suffix(name: string): string {
    var i := RFind(name, '.');
    if 0 < i < |name| - 1 then name[i..] else ""
  }

  /**
   * A file is a notebook exactly when its name ends in ".ipynb" after at
   * least one other character: a bare ".ipynb" is a hidden file without a
   * suffix.
   */
  lemma NotebookSuffix(name: string)
    ensures Suffix(name) == NOTEBOOK_EXTENSION <==>
      EndsWith(name, NOTEBOOK_EXTENSION) && |name| > |NOTEBOOK_EXTENSION|
  {
    var i := RFind(name, '.');
    if EndsWith(name, NOTEBOOK_EXTENSION) && |name| > 6 {
      var at := |name| - 6;
      assert name[at..] == ".ipynb";
      assert name[at] == '.';
      forall j | at < j < |name| ensures name[j] != '.' {
        assert name[j] == ".ipynb"[j - at];
      }
      assert i == at;
    }
    if Suffix(name) == NOTEBOOK_EXTENSION {
      assert 0 < i < |name| - 1 && name[i..] == ".ipynb";
      assert |name| - i == 6;
    }
  }

  /** `get_notebooks`: the entries of a directory listing whose suffix is ".ipynb", in listing order. */
  function GetNotebooks(listing: seq<string>): (notebooks: seq<string>)
    ensures forall f :: f in notebooks <==> f in listing && Suffix(f) == NOTEBOOK_EXTENSION
    ensures |notebooks| <= |listing|
    decreases |listing|
  {
    if listing == [] then []
    else
      assert forall f :: f in listing <==> f == listing[0] || f in listing[1..];
      (if Suffix(listing[0]) == NOTEBOOK_EXTENSION then [listing[0]] else []) + GetNotebooks(listing[1..])
  }

  /**
   * The filter keeps the listing's order: filtering two listings one after
   * the other gives the two filtered lists one after the other.
   */
  lemma {:induction false} GetNotebooksAppend(a: seq<string>, b: seq<string>)
    ensures GetNotebooks(a + b) == GetNotebooks(a) + GetNotebooks(b)
    decreases |a|
  {
    if a != [] {
      var head := if Suffix(a[0]) == NOTEBOOK_EXTENSION then [a[0]] else [];
      assert (a + b)[0] == a[0] && (a + b)[1..] == a[1..] + b;
      GetNotebooksAppend(a[1..], b);
      assert GetNotebooks(a + b) == head + (GetNotebooks(a[1..]) + GetNotebooks(b));
      assert GetNotebooks(a) == head + GetNotebooks(a[1..]);
    } else {
      assert a + b == b;
    }
  }
}
