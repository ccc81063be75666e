/**
 * The metadata-shaping half of scripts/extract_metadata.py, over JSON that
 * has already been parsed: the key/default selection of
 * `extract_notebook_metadata` and `extract_default_authors`.
 */
module ExtractMetadata {
  import opened Values

  /** The keys whose selected value is always made a list. "result" is not one of them. */
  const LISTIFY: set<string> := {"author", "object", "input"}

  const CREATORS_KEY := "creators"

  /** The placeholder author used when the metadata file names no creators. */
  const DEFAULT_AUTHOR_ORCID := "https://orcid.org/0000-0000-0000-0000"
  const DEFAULT_AUTHOR: Json :=
    JObj(map["name" := JStr("Unknown"), "orcid" := JStr(DEFAULT_AUTHOR_ORCID)])

  /**
   * The value selected for one key: the notebook's own value when it has
   * one, else the supplied default; listified when the key is in LISTIFY.
   */
  function SelectedValue(metadata: map<string, Json>, key: string, default: Json): (v: Json)
    ensures key in LISTIFY ==> v.JList?
    ensures key in LISTIFY && key in metadata ==> v == Listify(metadata[key])
    ensures key in LISTIFY && key !in metadata ==> v == Listify(default)
    ensures key !in LISTIFY ==> v == if key in metadata then metadata[key] else default
  {
    var found := if key in metadata then metadata[key] else default;
    if key in LISTIFY then Listify(found) else found
  }

  /** A scalar "result" is passed through as it is, not wrapped in a list. */
  lemma ResultNotListified(metadata: map<string, Json>, default: Json)
    requires "result" in metadata
    ensures SelectedValue(metadata, "result", default) == metadata["result"]
  {
  }

  /** The whole selection as one map: one entry per requested key. */
  function SelectedMetadata(metadata: map<string, Json>, keys: map<string, Json>): (result: map<string, Json>)
    ensures result.Keys == keys.Keys
  {
    map key | key in keys :: SelectedValue(metadata, key, keys[key])
  }

  /**
   * The selection loop of `extract_notebook_metadata` over the notebook's
   * `rocrate` metadata block: one entry per requested key, no more and no
   * fewer.
   */
  method SelectMetadata(metadata: map<string, Json>, keys: map<string, Json>)
    returns (result: map<string, Json>)
    ensures result.Keys == keys.Keys
    ensures forall key :: key in keys ==> result[key] == SelectedValue(metadata, key, keys[key])
    ensures result == SelectedMetadata(metadata, keys)
  {
    result := map[];
    var pending := keys.Keys;
    while pending != {}
      invariant pending <= keys.Keys
      invariant result.Keys == keys.Keys - pending
      invariant forall key :: key in result ==> result[key] == SelectedValue(metadata, key, keys[key])
      decreases pending
    {
      var key :| key in pending;
      if key in LISTIFY {
        result := result[key := Listify(if key in metadata then metadata[key] else keys[key])];
      } else {
        result := result[key := if key in metadata then metadata[key] else keys[key]];
      }
      pending := pending - {key};
    }
  }

  /**
   * `extract_default_authors` over the parsed metadata file: its "creators"
   * whenever that key is present, even an empty list, and the placeholder
   * author only when it is absent.
   */
  function ExtractDefaultAuthors(data: map<string, Json>): (authors: Json)
    ensures CREATORS_KEY in data ==> authors == data[CREATORS_KEY]
    ensures CREATORS_KEY !in data ==> authors == JList([DEFAULT_AUTHOR])
  {
    if CREATORS_KEY in data then data[CREATORS_KEY] else JList([DEFAULT_AUTHOR])
  }
}
