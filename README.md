# IFC type extraction from Speckle models, in Dafny

This project models the computational core of `ifc_extractor.py`, a command-line tool.
The tool takes a Speckle model URL, receives the model's object tree, and lists the IFC
types found in it: for each type, how many objects have it and a sample of those objects.
It can also write the full list to a CSV file. The model covers four parts of that tool
and proves what each of them computes:

- **URL parsing** (`IFCExtractor.parse_url`), in module `SpeckleUrl`. The URL loses its
  trailing slashes. Its server is the `http(s)://host` prefix. Then the
  `/projects/<hex>/models/<hex>` format is tried, and after it the legacy
  `/streams/<hex>` format. Each regular expression is written out as a scanner: a literal
  marker at a position, plus a greedy run of `[a-f0-9]`, searched leftmost-first.
  The two error paths are modelled as a `Result` failure: no server prefix, where
  `re.match(...).group(1)` raises, and "Unsupported URL format".
- **Commit id lookup** (`get_commit_id_from_preview_url`), also in `SpeckleUrl`. It
  returns the hex run after the first `/commits/` that is followed by a hex digit, so
  an earlier `/commits/` with no id after it is passed over.
- **The walk** (`extract_ifc_types`), in modules `IfcTypes` and `Extraction`. The walk is
  depth-bounded and recursive, and it fills the `ifc_types` dictionary in place.
  - That dictionary is the class `Extraction.TypeTable`. Its two fields are the keys in
    insertion order, i.e. a Python dict's iteration order, and the entries
    `{count, instances}`.
  - Like the Python code, the walk is a recursive method with one loop over `elements`
    and one loop over the public list attributes of `__dict__`.
  - It is proved against the specification function `IfcTypes.Visits`, which gives the
    records the walk makes, in order. The fold `IfcTypes.RecordAll` gives what recording
    them does to the table.
- **The summary** (`display_results` and `export_to_csv`, without the I/O), in module
  `Summary`:
  - the listing: a stable sort by count, most common first, ranked from 1;
  - the samples: the first five instances, plus the number left over;
  - the two summary totals;
  - the CSV rows: a header, then one row per instance in dictionary order.

A Python object of the received tree is modelled by `IfcTypes.Node`:
- its optional `speckle_type`;
- the attributes among `GlobalId`, `Name`, `ObjectType` and `Tag` that it has;
- its `elements` list;
- its `__dict__` entries, in order.

A value without a `__dict__` is a `PlainItem`.

The code visits `elements` a second time when `elements` is also a public list entry of
`__dict__`, wherever it stands among the other entries, and then its objects are counted twice. The model keeps that behaviour.
`IfcTypes.ElementsWalkedTwice` states it.

## Model

| member | source | states |
|---|---|---|
| SpeckleUrl.StripTrailingSlashes | ifc_extractor.py:39 | the result is a prefix of the input, does not end in '/', and everything removed is '/' |
| SpeckleUrl.RunLength | ifc_extractor.py:40 | the greedy run of a character class from a position: every character in it is in the class, and the next one is not (or the input ends) |
| SpeckleUrl.Server | ifc_extractor.py:40 | a server it returns is a scheme `http://` or `https://`, plus a nonempty host without '/', that is a prefix of the URL and cannot be extended |
| SpeckleUrl.ServerIs | ifc_extractor.py:40 | whenever the URL has such a server prefix, `Server` returns exactly it (the prefix is unique) |
| SpeckleUrl.ServerExists | ifc_extractor.py:40 | `Server` fails if and only if the URL has no server prefix at all |
| SpeckleUrl.MatchesAt | ifc_extractor.py:43-47 | the three regular expressions at a position: a literal marker followed by at least one hex digit, and for the project/model pattern a second marker after the whole first hex run |
| SpeckleUrl.Search | ifc_extractor.py:43-47 | `re.search`: the position it returns is a match with no match before it; None means there is no match anywhere |
| SpeckleUrl.HexIdAtIff | ifc_extractor.py:43-47 | a group `([a-f0-9]+)` holds exactly the whole nonempty hex run at its start |
| SpeckleUrl.ProjectModelMatched | ifc_extractor.py:43-44 | a match of the project/model pattern yields two ids, each a whole hex run, in the layout `/projects/<p>/models/<m>` |
| SpeckleUrl.ProjectModelMatches | ifc_extractor.py:43-44 | conversely, that layout at a position is a match there, and its groups are those two ids |
| SpeckleUrl.MarkedIdMatch | ifc_extractor.py:66-68 | a `<marker>([a-f0-9]+)` match at a position, with its group, is exactly the marker followed by a whole hex run |
| SpeckleUrl.ParseUrl | ifc_extractor.py:37-50 | on success, the server is the server prefix of the stripped URL and every id is a nonempty hex string |
| SpeckleUrl.ParseUrlProjectFormat | ifc_extractor.py:39-44 | the result is (server, Some(project), model) if and only if the stripped URL has that server and its first project/model match carries those ids, whatever else it holds |
| SpeckleUrl.ParseUrlStreamFormat | ifc_extractor.py:39-48 | the result is (server, None, stream) if and only if the stripped URL has that server, no project/model match anywhere, and its first `/streams/` match carries `stream` |
| SpeckleUrl.ParseUrlUnsupported | ifc_extractor.py:39-50 | "Unsupported URL format" is returned if and only if there is a server prefix but neither format matches |
| SpeckleUrl.ParseUrlNoServer | ifc_extractor.py:39-40 | the no-server failure occurs if and only if the stripped URL has no `http(s)://host` prefix |
| SpeckleUrl.ParseUrlTrailingSlash | ifc_extractor.py:39 | a trailing '/' never changes the result |
| SpeckleUrl.ParseProjectUrl | ifc_extractor.py:37-44 | any `scheme://host/projects/<hex>/models/<hex>` URL, with any number of trailing slashes, parses to `(scheme://host, project, model)` |
| SpeckleUrl.ParseStreamUrl | ifc_extractor.py:37-48 | any `scheme://host/streams/<hex>` URL, with any number of trailing slashes, parses to `(scheme://host, None, stream)` |
| SpeckleUrl.ParsesProject | ifc_extractor.py:39-44 | a project/model segment right after the server is what the parse returns, whatever follows it |
| SpeckleUrl.ParsesStream | ifc_extractor.py:39-48 | a stream segment right after the server, with no `/projects/` later, is what the parse returns |
| SpeckleUrl.NoMarkerInServer | ifc_extractor.py:40-47 | no `/word/` segment marker (`IsSegmentMarker`, which covers `/projects/`, `/models/`, `/streams/` and `/commits/`) followed by a hex id can start inside the server part of a URL in which the character after the '/' that ends the server is not a hex digit (or the URL ends there) |
| SpeckleUrl.CommitIdFromPreviewUrl | ifc_extractor.py:63-70 | a commit id it returns is a nonempty hex string |
| SpeckleUrl.CommitIdFound | ifc_extractor.py:65-69 | the result is Some(commit) if and only if the first `/commits/` match of the preview URL carries `commit` as its whole hex run |
| SpeckleUrl.CommitIdMissing | ifc_extractor.py:64-70 | the result is None if and only if the preview URL is missing or has no `/commits/<hex>` (so an empty preview URL gives None) |
| IfcTypes.Visits | ifc_extractor.py:139-183 | the records one call of the walk makes, in order: none beyond `max_depth` or for a value without `__dict__`; else the object's own record, then its `elements`, then its public `__dict__` lists, one level deeper |
| IfcTypes.Record | ifc_extractor.py:154-169 | one recording step: the entry is created as `{count: 0, instances: []}` when the type is new (its key appended), then `count` is raised by one and the instance appended |
| IfcTypes.RecordAll | ifc_extractor.py:154-169 | a run of recording steps, first to last |
| IfcTypes.RecordAllAppend | ifc_extractor.py:154-169 | recording two runs of instances one after the other is recording their concatenation |
| IfcTypes.RecordAllEntry | ifc_extractor.py:154-169 | a type is present afterwards if and only if it was present before or some instance was recorded under it; its count rises by, and its instance list is extended by, exactly the instances recorded under it, in order (nothing is removed or reset) |
| IfcTypes.RecordAllKeys | ifc_extractor.py:154-158 | recording keeps every key listed once and matching the entries, and the old keys stay first, in their order |
| IfcTypes.RecordAllCountsAgree | ifc_extractor.py:154-169 | recording preserves `count == len(instances)` for every type |
| IfcTypes.VisitsRecordedTypes | ifc_extractor.py:149-153 | nothing the walk records has an empty type or the mesh type |
| IfcTypes.WalkAddsNoMeshOrEmptyType | ifc_extractor.py:149-153 | the walk never adds `Objects.Geometry.Mesh` or the empty type as a key |
| IfcTypes.WalkBeyondMaxDepth | ifc_extractor.py:144-145 | a walk started beyond `max_depth` leaves the table unchanged |
| IfcTypes.UntypedObjectWalksChildren | ifc_extractor.py:147-181 | an object with a missing or empty `speckle_type` records nothing itself, but its elements and its public lists are walked one level deeper |
| IfcTypes.RecordedObjectFirst | ifc_extractor.py:149-169 | an object with a usable type is recorded before its children, under its type, and each missing attribute of the record is "Unknown" |
| IfcTypes.ElementsWalkedTwice | ifc_extractor.py:171-181 | when `elements` is also a public `__dict__` list, among any other entries, its subtree is recorded twice: once by the `elements` loop and once in its place in the `__dict__` scan |
| Extraction.TypeTable.constructor | ifc_extractor.py:141-142 | a new table is the empty dictionary |
| Extraction.TypeTable.Add | ifc_extractor.py:154-169 | the table becomes the old one with one instance recorded: the entry is created when new (its key appended), then its count is raised by one and the instance appended |
| Extraction.TypeTable.ExtractIfcTypes | ifc_extractor.py:139-183 | the table ends as its old contents with every record the walk makes added, in walking order (the `Visits` specification) |
| Extraction.TypeTable.ExtractEach | ifc_extractor.py:171-174 | the loop over `elements` records, item by item, what each item's walk records |
| Extraction.TypeTable.ExtractLists | ifc_extractor.py:176-181 | the loop over `__dict__` records what the walks of the items of each public list record, entry by entry |
| Extraction.ExtractAll | ifc_extractor.py:139-145 | with the default arguments, the walk makes a fresh table holding what `Visits` records from depth 0 with `max_depth` 10 |
| Summary.TotalInstances | ifc_extractor.py:238 | the sum of the `count` fields of the entries |
| Summary.RecordAllTotal | ifc_extractor.py:238 | recording raises the sum of the counts by exactly the number of instances recorded |
| Summary.TotalIsInstanceCount | ifc_extractor.py:238 | when the counts agree with their instance lists, the total is the number of instance records |
| Summary.WalkTotal | ifc_extractor.py:238 | the table a walk builds from empty is well formed and keeps `count == len(instances)`, and its total is the number of objects recorded |
| Summary.SortByCount | ifc_extractor.py:223 | `sorted(..., key=count, reverse=True)` as an insertion sort that places an entry before the first one whose count is not above its own |
| Summary.SortByCountSorts | ifc_extractor.py:223 | the listing is in non-increasing order of count and is a permutation of `ifc_types.items()` |
| Summary.SortByCountStable | ifc_extractor.py:223 | entries with equal counts keep the dictionary's order, as Python's sort does with `reverse=True` |
| Summary.SortByCountTotal | ifc_extractor.py:223-238 | sorting leaves the total unchanged |
| Summary.Samples | ifc_extractor.py:231-232 | the sample lines for `instances[:5]`, numbered from 1, with GlobalId, Name and ObjectType |
| Summary.MoreCount | ifc_extractor.py:234-235 | `len(instances) - 5` when that line is printed, otherwise None |
| Summary.SamplesShown | ifc_extractor.py:231-235 | exactly `min(5, len)` samples are shown: the first instances, in order, numbered from 1; the "N more" line appears exactly when instances remain, and N is `len - 5` |
| Summary.DisplayResults | ifc_extractor.py:217-241 | the values `display_results` prints: one block per type of the sorted listing, ranked from 1, then `len(ifc_types)` and the total |
| Summary.DisplayOrder | ifc_extractor.py:219-241 | one block per type, ranked from 1, in non-increasing order of count; the printed total is the sum of the counts shown |
| Summary.DisplayListsEveryType | ifc_extractor.py:223-235 | every type of the dictionary gets a block with its own count and samples, and every block belongs to a type of the dictionary |
| Summary.RunOutcome | ifc_extractor.py:201-206 | `run` hands back None exactly when the dictionary is empty, otherwise the dictionary itself |
| Summary.NothingFound | ifc_extractor.py:199-206 | after a walk from an empty dictionary, `run` hands back None exactly when the walk recorded nothing |
| Summary.ExportToCsv | ifc_extractor.py:243-259 | the rows `export_to_csv` writes: the header, then for each type in dictionary order one row per instance |
| Summary.CsvShape | ifc_extractor.py:249-259 | the file is the header, then rows of five columns, one per instance: one row more than the total |
| Summary.CsvRowsOfType | ifc_extractor.py:251-259 | the rows whose first column is a type are those of its instances, in their order, with columns type, GlobalId, Name, ObjectType, Tag |
| Summary.ExportOfWalk | ifc_extractor.py:249-259 | exporting what one walk found gives one row per recorded object, and each type's rows are its objects in the order the walk met them |

## Left out

- `authenticate`, `receive_data` and `get_object_id_from_commit` are left out. They talk to the Speckle server through the client library and HTTP, and their lookups depend on how that library's objects iterate.
- Token loading through `load_dotenv` and `os.getenv` is left out. `authenticate` checks that the token is present, raising `ValueError` before `parse_url` runs when it is not, and then sends it to the server; neither step is modelled.
- The console output of `run`, `display_results` and `main` is left out: the printing, `input()`, `sys.exit` and traceback printing. `Summary.DisplayResults` gives the values that are printed, but not their text formatting.
- The file writing of `export_to_csv` is left out. `Summary.ExportToCsv` gives the rows that are written, but not the CSV quoting.
- The messages `run` and `main` print are left out. `Summary.RunOutcome` models what `run` returns after the walk: None when the dictionary is empty. On None, `main` skips the CSV prompt and exits with status 1; that exit is not modelled.
- Python's `hasattr` and `__dict__` reflection is left out. The node datatype replaces it.
  - A missing or falsy `elements` attribute is the empty list. Any other iterable `elements` value (a tuple, say) is modelled by its items in `Node.elements`, with its `__dict__` entry as `OtherValue`, so its items are walked once only. A truthy `elements` value that is not iterable makes the loop raise `TypeError`, which `run` turns into None; the model does not capture that.
  - A `__dict__` value that is not a list is `OtherValue`.
  - Attribute values other than strings (for `GlobalId`, `Name`, `ObjectType`, `Tag`) are modelled as strings.
- SpeckleUrl.CommitIdFromPreviewUrl: the preview URL is an `Option<string>`. It covers a missing attribute, None and a string, but not a non-string value, for which the Python `re.search` would raise.
- The received object graph is modelled as a finite tree, although Python objects may be shared or form cycles. The walk is bounded by `max_depth`, so any graph unrolls into a tree of depth at most `max_depth + 1` that the walk cannot tell apart from it; shared objects appear once per path, and that is also how the code counts them.
- The browser viewer of the repository is not part of this model.
