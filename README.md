# trove-newspaper-harvester crate updater, modelled in Dafny

This project models the RO-Crate reconciliation engine of the GLAM Workbench
trove-newspaper-harvester repository. The engine is `scripts/update_crate.py`,
together with the metadata-shaping helpers of `scripts/extract_metadata.py`.

A run loads the repository's crate, a JSON-LD graph of nodes keyed by `@id`.
It does the following, in order:

- stamps a new version;
- writes the licences and the Python node;
- merges every notebook: its input and output files, the notebook node, the
  CreateAction that links them, and its authors;
- garbage-collects files and people.

The model keeps the source's form:

- The crate is a class (`Store.Crate`) whose one field, `nodes`, maps each
  identifier to the node's property map. "@id" and "@type" are properties like
  any other.
- The operations that change the crate are methods with loops and invariants.
  Each is proved against a specification function. For example, `AddFiles` is
  proved against `FilesUpserted`, `AddPeople` against `PeopleUpserted`,
  `RemoveDeletedFiles` against `FilesCollected`, and `SelectMetadata` against
  `SelectedMetadata`.
- The promised properties are lemmas about those functions.
- Python's semantics are spelled out where the engine depends on them:
  - truthiness;
  - `str.replace`, `rfind`, `split('/')[-1]` and `Path.suffix`;
  - string ordering by code point for `sorted(dates)[-1]`;
  - what iterating a non-list value yields.

Every exception the source can raise ends the run before anything is written.
The model returns `Result`/`Outcome` values carrying the exception, and
`Session.UpdateCrate` returns the node map that would be written.

Some modelled behaviour differs from what the code's own docstrings and
comments suggest:

- `get_notebooks` filters the directory listing by suffix only. A bare
  ".ipynb" has no suffix.
- The person pass consults every File's `author` list. Notebooks are typed
  File, so their authors protect people too.
- A declared author is attached to a notebook once. This holds because the
  membership test reads the same list that is being appended to.
- A notebook seen for the first time that declares authors makes the run
  raise TypeError: the membership test reads the author list of a notebook
  that did not exist.
- The fixed context entities (the licences and Python) replace whatever node
  had their identifier.

One consequence of the store's insert-or-replace behaviour is proved as
`Collector.UpdatedActionProtectsNothing`. When `add_action` rebuilds an action
that already exists, it supplies no "@type", so the rebuilt node gets the
store's default type and is no longer a CreateAction. On the next file pass,
a data file that only this action references is deleted. This rests on two
assumptions about the RO-Crate library, listed under "## Left out": the store
keeps identifiers verbatim, and a context entity without "@type" gets the
default type "Thing".

## Model

| member | source | states |
|---|---|---|
| Values.Listify | scripts/extract_metadata.py:33-36 | A list is returned unchanged; any other value becomes the one-element list holding it. |
| Values.ListifyIdempotent | scripts/extract_metadata.py:33-36 | Listifying twice gives the same as listifying once. |
| Values.IdIfy | scripts/update_crate.py:67-77 | A string becomes one reference to it, not wrapped in a list. A list becomes a list of the same length whose i-th element refers to the i-th id. |
| Values.IdIfyRoundTrip | scripts/update_crate.py:76-77 | Reading the targets back out of the references `id_ify` builds for a list gives the original list. |
| Values.Refs | scripts/update_crate.py:77 | The references to a list of ids: same length, element i refers to id i. |
| Text.ReplaceAllAbsent | scripts/update_crate.py:98 | `replace` leaves a string that does not contain the pattern unchanged. |
| Text.ReplaceCharAll | scripts/update_crate.py:412 | Replacing one character by another keeps the length and leaves none of the replaced character. |
| Text.ReplaceAllDeletes | scripts/update_crate.py:238 | Deleting a pattern shortens a string by a whole number of pattern lengths. |
| Text.RFind | scripts/update_crate.py:63 | Either -1 with no occurrence, or the index of the last occurrence of the character. |
| Text.LastSegment | scripts/update_crate.py:199 | `split("/")[-1]`: a suffix of the reference that holds no slash and is either the whole string or preceded by a slash. |
| Text.LexLeTotal | scripts/update_crate.py:245 | Python string comparison orders any two strings. |
| Text.LexLeTransitive | scripts/update_crate.py:245 | Python string comparison is transitive. |
| Text.MaxString | scripts/update_crate.py:245 | The last element after sorting is one of the strings and no string is greater. |
| Store.Construct | scripts/update_crate.py:123 | A node built by the store has the supplied properties plus "@id" and "@type", which default to the id and the class's type when not supplied. |
| Store.AppendedTo | scripts/update_crate.py:275 | `append_to` adds the values at the end of the key's list (a missing key counts as empty) and changes no other key. |
| Store.AppendedToTwice | scripts/update_crate.py:274-279 | Two appends to one key are one append of both lists. |
| Store.Crate.GetByType | scripts/update_crate.py:368 | `get_by_type(t)` selects exactly the nodes whose "@type" holds t. |
| Store.Crate.Add | scripts/update_crate.py:123 | Adding a node replaces whatever node had its id, and nothing else. |
| Store.Crate.AppendTo | scripts/update_crate.py:275 | `append_to` on a stored node changes that node alone, extending the key's list by the values. |
| Store.Crate.Delete | scripts/update_crate.py:378-382 | Deleting removes the node if present and is harmless when repeated. |
| Store.Crate.UpdateJsonld | scripts/update_crate.py:449-455 | Properties are written into an existing node; updating a node that is not there raises. |
| ExtractMetadata.SelectedValue | scripts/extract_metadata.py:62-66 | The value selected for a key is the notebook's own value when present, else the default, and always a list for "author", "object" and "input". |
| ExtractMetadata.ResultNotListified | scripts/extract_metadata.py:14 | "result" is not listified: a scalar "result" passes through unchanged. |
| ExtractMetadata.SelectedMetadata | scripts/extract_metadata.py:59-67 | The selection has exactly the requested keys. |
| ExtractMetadata.SelectMetadata | scripts/extract_metadata.py:59-67 | The selection loop ends with exactly the requested keys, each holding the selected value. |
| ExtractMetadata.ExtractDefaultAuthors | scripts/extract_metadata.py:21-31 | The "creators" value whenever the key is present, even an empty list; the placeholder author only when it is absent. |
| Identity.PersonId | scripts/update_crate.py:95-106 | A name-derived id starts with '#'. An ORCID-derived id starts with "http" and ends with the ORCID, so the two kinds never collide. |
| Identity.OrcidFormsAgree | scripts/update_crate.py:101-106 | A bare ORCID and its `https://orcid.org/` URI give the same person id. |
| Identity.NameIdVerbatim | scripts/update_crate.py:98 | A name without ", " is used verbatim after the '#'. |
| Identity.NameIdExample | scripts/update_crate.py:98 | "Smith, Jane" without an ORCID becomes "#Smith_Jane". |
| Identity.ExampleNameReplaced | scripts/update_crate.py:98 | "Surname, Given" becomes "Surname_Given" when neither part holds a comma. |
| Identity.OrcidIdExample | scripts/update_crate.py:101-102 | ORCID "0000-0001-2345-6789" becomes "https://orcid.org/0000-0001-2345-6789". |
| Identity.ResolveAuthor | scripts/update_crate.py:95-106 | An author record resolves exactly when it is a mapping with "name" and the key used is a string. The ORCID is used exactly when it is present and truthy. A non-mapping raises TypeError. A truthy ORCID that is not a string, or a used name that is not a string, raises AttributeError. A missing "name" raises KeyError. |
| Identity.ResolveAll | scripts/update_crate.py:95-106 | All records resolve, in order and with the same count, exactly when each resolves on its own. |
| Identity.DefaultAuthorIdVerbatim | scripts/extract_metadata.py:8-11 | The placeholder author's ORCID is already a URI, so it is its person id verbatim. |
| Identity.ActionId | scripts/update_crate.py:238 | The action id ends in "_run" and is at most four characters longer than the notebook id. |
| Identity.ActionIdStripsExtension | scripts/update_crate.py:238 | For "stem.ipynb" with no other dot the action id is "stem_run". |
| Identity.ActionIdDiffers | scripts/update_crate.py:238 | A notebook's action never takes the notebook's own id. |
| Identity.UpdateActionId | scripts/update_crate.py:412 | "create_version_" followed by the version, same length, with no dot left. |
| Identity.NotebookSuffix | scripts/update_crate.py:63 | A name has suffix ".ipynb" exactly when it ends in ".ipynb" after at least one other character. |
| Identity.GetNotebooks | scripts/update_crate.py:53-64 | The listing entries whose suffix is ".ipynb", and only those. |
| Identity.GetNotebooksAppend | scripts/update_crate.py:61-64 | The filter keeps the listing's order: filtering two listings one after the other gives the two filtered listings one after the other. |
| FileStats.GetFileStats | scripts/update_crate.py:128-172 | Local paths give the filesystem's date and size and raise when missing. GitHub links ask the API; other links give only a size and never a date; a failed request raises. |
| People.MergedPerson | scripts/update_crate.py:108-122 | An existing person keeps every property except "name", which is overwritten. A new person has only its id, type "Person" and the name. |
| People.MergedPersonAgain | scripts/update_crate.py:108-122 | Merging the same person twice is merging once with the later name. |
| People.PersonIds | scripts/update_crate.py:94-125 | One identifier per resolved author, in order. |
| People.LastNameOf | scripts/update_crate.py:94-125 | Defined exactly for the ids of the run; it is the name of the last record with that id. |
| People.PeopleUpsertedNode | scripts/update_crate.py:94-125 | After the run, each named person is its node from before merged with the last record's name; every other id is untouched. |
| People.PeopleUpsertedKeys | scripts/update_crate.py:94-125 | Upserting people adds exactly the persons' ids to the crate. |
| People.UpsertedSnoc | scripts/update_crate.py:95-123 | One more record is one more person merge on top of the earlier ones, and its id comes last among the ids. |
| People.UpsertPerson | scripts/update_crate.py:96-123 | One iteration: the id is the one derived from the record, and the crate changes only at that id, to the person merged with its earlier node. |
| People.AddPeople | scripts/update_crate.py:80-125 | Succeeds exactly when every record resolves, returns the person ids in order, and leaves the crate as the fold of person merges. |
| DataFiles.NewFileProps | scripts/update_crate.py:197-209 | A new file has its id, type [File, Dataset], the last path segment as name, and an encoding format exactly when one is guessed. |
| DataFiles.FileIdentity | scripts/update_crate.py:199-204 | A new file starts with exactly its id, type [File, Dataset] and the last path segment as name, and no encoding format. |
| DataFiles.Refreshed | scripts/update_crate.py:211-223 | Date and size are written only when truthy; the access date is written only for web links; every other property is kept. |
| DataFiles.RefreshedKeeps | scripts/update_crate.py:211-223 | A refresh never drops or changes a property other than the three it writes; the file has a modification date afterwards exactly when the stats gave a truthy one or it had one before; "@id" and "@type" are kept. |
| DataFiles.FileEntity | scripts/update_crate.py:189-226 | An existing file keeps all properties other than date, size and access date. A new one gets the default shape. |
| DataFiles.KeptRefs | scripts/update_crate.py:183-185 | The references kept are exactly those that exist or are web links, in order. |
| DataFiles.FilesUpserted | scripts/update_crate.py:180-228 | The returned entities are exactly the kept references, in order, and each is in the crate. |
| DataFiles.FilesUpsertedFrame | scripts/update_crate.py:180-228 | Adding files adds exactly the kept references and leaves every other node as it was. |
| DataFiles.SkippedRefAddsNothing | scripts/update_crate.py:185 | A reference that neither exists nor is a web link leaves no node behind. |
| DataFiles.FilesUpsertedKeepsCurated | scripts/update_crate.py:190-195 | Curated properties of an existing file survive any number of upserts. |
| DataFiles.FilesUpsertedErr | scripts/update_crate.py:183-187 | Once a stats lookup raises, the whole call raises. |
| DataFiles.AddFiles | scripts/update_crate.py:175-228 | The loop returns the entities and leaves the crate exactly as the specification fold does, and raises exactly when it does. |
| Actions.OutputDates | scripts/update_crate.py:241 | Every output's "dateModified", in order; KeyError when an output has none. |
| Actions.Latest | scripts/update_crate.py:243-245 | The result is one of the dates. For string dates it is their maximum by code point; a single date is returned as it is. |
| Actions.EndDate | scripts/update_crate.py:240-251 | With no outputs, the notebook's own stat date. Otherwise one of the outputs' dates, or KeyError when one lacks a date. |
| Actions.ExistingActionBase | scripts/update_crate.py:254-271 | An action already in the crate restarts from exactly its id, the store's default type, emptied "object" and "result", and the end date. |
| Actions.NewActionBase | scripts/update_crate.py:258-271 | A new action starts as a CreateAction with the notebook as instrument, the completed status, the run's name and the end date, and no "object" or "result". |
| Actions.ActionBase | scripts/update_crate.py:254-271 | The starting node has "object" and "result" exactly when the action existed, and then both are empty lists. |
| Actions.WithEdgesShape | scripts/update_crate.py:273-279 | Appending the edges touches only "object" and "result", each only when there are entities for it; an edge that was missing or empty ends as exactly the entities' references. |
| Actions.ActionNode | scripts/update_crate.py:267-279 | The action ends with the computed end date, whatever edges are appended. |
| Actions.ActionEdges | scripts/update_crate.py:253-279 | After the call, "object" lists exactly the inputs and "result" exactly the outputs, in order: edges are rebuilt, never accumulated. |
| Actions.UpdatedActionNode | scripts/update_crate.py:254-257 | A rebuilt action keeps only id, default type, edges and end date, and is no longer a CreateAction. |
| Actions.CreatedActionNode | scripts/update_crate.py:258-265 | A new action is a CreateAction with the notebook as instrument, the completed status and the run's name. |
| Actions.AppendEdges | scripts/update_crate.py:273-279 | The append loop adds one reference per entity, in order, to one key of one node. |
| Actions.StoreAction | scripts/update_crate.py:270-279 | The action node is replaced and then gets its input edges followed by its output edges. |
| Actions.AddAction | scripts/update_crate.py:231-279 | Raises exactly when the end date raises. Otherwise it replaces the action node by the rebuilt action. |
| Actions.NewGenericUrlOutputRaises | scripts/update_crate.py:160-162 | A new non-GitHub web link used as an output has no date, so its notebook's action raises KeyError. |
| Notebooks.NotebookProps | scripts/update_crate.py:304-331 | An existing notebook keeps every property, with name and description refreshed and author reset to []. A new one gets exactly the seven properties of update_crate.py:322-332, with codeRepository from the root's url, and raises KeyError without it. |
| Notebooks.FileRefs | scripts/update_crate.py:183 | Iterating "object"/"result": the strings of a list, the characters of a string, nothing for an empty object, TypeError otherwise. |
| Notebooks.Distinct | scripts/update_crate.py:353-355 | Same ids, in first-occurrence order, each exactly once. |
| Notebooks.EdgesResolveGrow | scripts/update_crate.py:347-359 | An action's edges still resolve after later steps that only add nodes and leave the action alone. |
| Notebooks.StoredRefsResolve | scripts/update_crate.py:334-337 | References to entities that were stored resolve. |
| Notebooks.ActionEdgesResolve | scripts/update_crate.py:334-345 | An action built from stored inputs and outputs has edges that all resolve. |
| Notebooks.PeopleKeepEdges | scripts/update_crate.py:350 | Upserting people keeps every action's edges resolving. |
| Notebooks.PeopleKeepNotebook | scripts/update_crate.py:350 | Upserting people only adds nodes, leaves the notebook node alone unless a person has the notebook's id, and keeps the action's edges resolving. |
| Notebooks.AddFileRefs | scripts/update_crate.py:334-338 | Succeeds exactly when the metadata value can be iterated and the files upsert; then the crate only grows, every returned entity is stored, and their ids are the kept references in order. |
| Notebooks.LinkAction | scripts/update_crate.py:344-345 | With the files and the notebook stored, adding the action only grows the crate, leaves the notebook node as it was, and every edge of the action resolves. |
| Notebooks.SelfListedNotebookRefreshed | scripts/update_crate.py:190-195 | A notebook that already existed and lists itself on its own "object" or "result" is stored with every merged property other than the three refreshed ones, plus the date and size its own file upsert wrote when these are truthy. In every other case it is stored with the merged properties alone. |
| Notebooks.LinkRun | scripts/update_crate.py:334-345 | Files are upserted before the notebook node and the action, so every edge of the action resolves. The notebook node holds the supplied properties, refreshed with its own stats when it already existed and lists itself as a file, because update_crate.py:310 hands out the live property map. |
| Notebooks.AttachedSnoc | scripts/update_crate.py:353-355 | Attaching one more person appends one reference after those already attached. |
| Notebooks.DistinctSnoc | scripts/update_crate.py:354 | A new id joins the distinct list at its end; an id already there adds nothing. |
| Notebooks.AttachPeople | scripts/update_crate.py:353-355 | Only the notebook node changes: its "author" list gets one reference per distinct id, in first-occurrence order, and is left untouched when there are none. |
| Notebooks.AddDeclaredAuthors | scripts/update_crate.py:348-355 | A notebook new to the crate raises TypeError. Otherwise all records resolve, and the notebook gets each distinct person once, in order, unless a person has its id; the crate only grows and the action's edges keep resolving. |
| Notebooks.AddAuthors | scripts/update_crate.py:347-359 | Declared authors are upserted and attached once each, in order; a new notebook with declared authors raises. Without declared authors, the root's author value is appended, and KeyError is raised when the root has none. |
| Notebooks.MergeSelected | scripts/update_crate.py:334-359 | From the selected metadata: the crate only grows, the action's edges resolve, and a new notebook with declared authors raises. The notebook node is the merged properties, refreshed when the existing notebook lists itself as a file, plus the attached authors. |
| Notebooks.AddNotebook | scripts/update_crate.py:282-359 | Fails without metadata and keeps every node id. The notebook node is the merged properties, refreshed when the existing notebook lists itself as a file, plus the attached authors. The action's edges resolve. |
| Collector.ElementIds | scripts/update_crate.py:371 | The comprehension over a list gives every reference target in order. The first non-mapping raises TypeError; the first mapping without "@id" yields nothing. |
| Collector.EdgeIds | scripts/update_crate.py:371 | Iterating a non-list: only an empty object or string yields nothing; anything else raises TypeError. |
| Collector.KeyIds | scripts/update_crate.py:369-374 | An action missing "object"/"result" contributes nothing; a list of references contributes their targets in order. |
| Collector.ActionFileIds | scripts/update_crate.py:369-374 | An action contributes the ids of its "object" and of its "result"; it raises when either raises. |
| Collector.CollectStep | scripts/update_crate.py:368-373 | Visiting one more CreateAction adds exactly the ids its edges name to the gathered set. |
| Collector.CollectedAll | scripts/update_crate.py:367-374 | Once every CreateAction is visited, the gathered ids are exactly the files some CreateAction references. |
| Collector.CollectFileIds | scripts/update_crate.py:367-374 | The loop raises exactly when some CreateAction's edges raise; otherwise it returns the union of all CreateActions' ids. |
| Collector.FilesCollected | scripts/update_crate.py:376-382 | No remaining File is a missing non-link, or unreferenced and not a notebook. Every other node is kept unchanged. |
| Collector.DeleteIfDoomed | scripts/update_crate.py:376-382 | The File is removed exactly when it is missing and not a link, or unreferenced and not a notebook; when both hold the second delete is harmless. |
| Collector.RemoveDeletedFiles | scripts/update_crate.py:362-382 | The pass raises exactly when the collection does; otherwise the crate is exactly the filtered map. |
| Collector.AuthorRefIds | scripts/update_crate.py:395-399 | A list names the targets of its references. A single reference or a string names nobody; null, numbers and booleans raise TypeError. |
| Collector.RootAuthorIds | scripts/update_crate.py:392 | The ids the root's "author" names, read as a list; raises without a root or without "author". |
| Collector.FileAuthorIds | scripts/update_crate.py:397 | A File's "author" added to a list root value names the targets of its references. Added to a scalar root value, it raises TypeError unless Python can concatenate the two (string to string, number or boolean to number or boolean), and then it names nobody. |
| Collector.CollectAuthorIds | scripts/update_crate.py:392-399 | The root's authors plus every File's authors; raises exactly when one of them cannot be added. |
| Collector.PersonsCollected | scripts/update_crate.py:401-404 | A Person survives exactly when it is named; every other node is kept unchanged. |
| Collector.RemoveUnreferencedAuthors | scripts/update_crate.py:386-404 | The pass raises exactly when the collection does, or when the root's author is a scalar and some Person exists, since the membership test at line 403 cannot look into a scalar. Otherwise the crate is exactly the filtered map, and on failure it is unchanged. |
| Collector.ScalarRootAuthorRaises | scripts/update_crate.py:392-403 | A scalar root author (string, null, number or boolean) with any Person in the crate makes the author pass raise. |
| Collector.ScalarRootDeletesNobody | scripts/update_crate.py:392-404 | When the pass runs with a scalar root author, there is no Person, so it deletes nothing. |
| Collector.ActionReferenceProtects | scripts/update_crate.py:367-382 | A File on a CreateAction's edge list survives when it exists or is a web link. |
| Collector.UpdatedActionProtectsNothing | scripts/update_crate.py:254-257 | A file referenced only by a rebuilt action, not a notebook, is deleted. |
| Collector.FilesCollectedIdempotent | scripts/update_crate.py:362-382 | A second file pass deletes nothing more. |
| Collector.RootAuthorKept | scripts/update_crate.py:392-404 | A person on the root's author list survives the author pass. |
| Collector.FileAuthorKept | scripts/update_crate.py:395-404 | A person on any File's author list, notebooks included, survives the author pass. |
| Collector.PersonsCollectedIdempotent | scripts/update_crate.py:386-404 | A second author pass deletes nothing more. |
| Session.UpdateActionProps | scripts/update_crate.py:415-420 | Exactly type UpdateAction, today's end date, the completed status and a name ending in the version. |
| Session.UpdateActionNode | scripts/update_crate.py:407-423 | The stored node is an UpdateAction, never a CreateAction, with a dot-free id. |
| Session.UpdateActionIdIsFresh | scripts/update_crate.py:412 | The UpdateAction never replaces the root or the metadata descriptor. |
| Session.AddUpdateAction | scripts/update_crate.py:407-423 | Stores the UpdateAction at its id and changes nothing else. |
| Session.AddContextEntity | scripts/update_crate.py:426-434 | Stores the entity at its own "@id", replacing what was there; raises KeyError without "@id". |
| Session.ContextEntityVerbatim | scripts/update_crate.py:426-434 | An entity carrying "@id" and "@type" is stored exactly as given, so curated edits to it are lost. |
| Session.FixedEntitiesVerbatim | scripts/update_crate.py:19-39 | The two licences and Python each carry their own identifier and are stored exactly as written. |
| Session.ContextIdsDistinct | scripts/update_crate.py:19-39 | The two licence ids, the Python id, the root "./" and the metadata descriptor are pairwise distinct, so storing a fixed entity never replaces another or either of the two. |
| Session.StampVersion | scripts/update_crate.py:448-456 | The root gets the version and the publication date, and the UpdateAction is added; raises without a root. |
| Session.WriteContext | scripts/update_crate.py:458-472 | Succeeds exactly when the root and the metadata descriptor exist, and then leaves the crate as the licence writes, in their order. |
| Session.LicensedWritten | scripts/update_crate.py:458-472 | After the licence writes, the root is licensed MIT and keeps its version stamp, the metadata descriptor is licensed CC0, the three fixed entities are stored as written, and no node id is lost. |
| Session.LicensedRoot | scripts/update_crate.py:459 | The root gets the MIT licence, keeps its other properties, and no node id is lost. |
| Session.LicensedFixed | scripts/update_crate.py:460-472 | The metadata descriptor is licensed CC0 and the two licences and Python are stored exactly as written. |
| Session.PrepareContext | scripts/update_crate.py:447-472 | Succeeds exactly when the root and the metadata descriptor exist. Then no node id is lost, the root is licensed MIT and, for a version bump, carries the version, the date and its UpdateAction; the descriptor is licensed CC0; the fixed entities are stored. |
| Session.MergeNotebook | scripts/update_crate.py:476 | A merged notebook had metadata and is in the crate afterwards, the crate only grows, and the notebook's action has edges that resolve. |
| Session.AddNotebooks | scripts/update_crate.py:475-476 | Every notebook is merged in order; success means each had metadata and is in the crate, no node id is lost, and the last notebook's action has edges that resolve. |
| Session.PassesLeave | scripts/update_crate.py:362-404 | After the file pass and then the author pass, every File left exists or is a web link and is referenced by a CreateAction or is a notebook, and every Person left is named by the root or a File. |
| Session.UpdateCrate | scripts/update_crate.py:437-485 | A successful run had a root, a metadata descriptor and metadata for every notebook. The stamped and licensed crate meets the context writes and keeps every loaded id. The merged crate keeps those ids and holds every notebook. The written map is the merged crate after the file pass and then the author pass, and both passes run. Every File left exists or is a web link and is referenced or a notebook. Every Person left is named by the root or a File. |

## Left out

- Reading and writing files: `crate.write`, `nbformat.read`, `json.load`, `os.listdir`, `os.chdir`, argparse and `main`. The notebook's `metadata.rocrate` block is an oracle (`Env.notebookMetadata`), and `Session.UpdateCrate` returns the node map instead of writing it.
- The network and the clock: the GitHub API, HEAD requests, `giturlparse`, `Path.stat` and `datetime.now()` are oracles in `Env`, or, for today's date, a parameter. The "/raw/" to "/blob/" rewrite is kept. The URL-building and response-parsing steps in between are not modelled.
- `mimetypes.guess_type` is an oracle.
- scripts/list_imports.py is not part of this model. It is filesystem globbing and interpreter introspection.
- The RO-Crate library's internals:
  - how identifiers are normalised (for example, a local file id relative to the crate root);
  - the `hasPart` bookkeeping of the root;
  - `delete` refusing the root and the metadata descriptor;
  - the JSON-LD serialisation.
- The store's default "@type" for a context entity is taken to be "Thing".
- Library details are reduced to what the engine relies on:
  - `add`/`add_file` insert or replace at the id;
  - `append_to` makes the value a list and extends it;
  - `get_by_type` matches "@type" or any string in an "@type" list.
- Collector.RootAuthorIds: a root "author" that is a mapping (a single reference) rather than a list is read as a one-element list. The library would hand back one dereferenced entity, and the result then depends on library internals. Scalar root authors are modelled: see `Collector.FileAuthorIds` and `Collector.RemoveUnreferencedAuthors`.
- Collector.AuthorRefIds: a File's "author" that is a single reference is treated as naming nobody, which is what extending a list by a dereferenced entity amounts to.
- Notebooks.FileRefs: an object of file references raises TypeError in place of iterating its keys as file names. An empty object yields nothing, as in Python.
- Actions.Latest: a list of two or more dates that are not all strings raises TypeError. Python's ordering of numbers against each other is not modelled.
- Notebooks.AddNotebook: a person id equal to the notebook id, and a file reference "./", are not given a separate contract. When a declared person has the notebook's own id, the final notebook node is left unstated. A notebook that lists itself as a file is modelled.
- Session.UpdateCrate: the state after a failed run is left unstated, because nothing is written then. The root, licence and version facts are stated for the crate after the context writes, not for the written map, because a later notebook or person with the same id could replace those nodes. The notebooks' own nodes are not followed through the two collection passes.
- Session.AddNotebooks: only the last notebook's action is stated to have edges that resolve. A later merge could store a file, a person or a repeated notebook's action at an earlier action's id and so replace that action, so earlier actions are not followed through later merges.
- Concurrency, and Python object identity beyond the shared author list, are not modelled.
