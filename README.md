# Dagster: asset catalog routing, single-asset launches, config type walks and reconstructable pipelines

This project models four pieces of Dagster and its web UI, Dagit, in Dafny, and proves properties of them:

- **Asset catalog prefix path** (`AssetsCatalogRoot`). The splat route parameter of the asset catalog page is split on `/`. Empty pieces are dropped and each remaining piece is URI-decoded, which gives the asset-key prefix the catalog table filters on. The model proves the following. Leading, trailing and doubled slashes are ignored. Decoding succeeds exactly when every `%` starts a well-formed escape. An encoded `/` (`%2F`) stays inside its segment. Encoding each segment and joining with `/` round-trips to the original segments.
- **Single-asset launch** (`LaunchSingleAssetJob`). This is the callback that launches the one step materialising an asset. It does nothing when the asset has no job. Otherwise it builds the launch mutation's execution parameters: the job selector, mode `default`, the single step and the asset-key tag. It hands a resolved response to the launch-result handler. Anything thrown goes to the launch-error reporter. The model records the callback's effects in order and proves how many of each kind occur on each path.
- **Config type walk** (`IterateTypes`). This is the post-order walk that lists every config type a type is built from, and the config schema snapshot keyed by type key. The model proves the following. The walk lists exactly the reachable types. It has one entry per occurrence. The root comes last. Every walked sub-type's walk is a contiguous block before the root. Fields are walked in declaration order. In the snapshot, later entries win, so the root keeps its own snap. The snapshot's keys are exactly the reachable keys.
- **Reconstructable pipelines** (`Reconstructable`). This covers:
  - the ephemeral repository name that wraps a lone pipeline;
  - subsetting a reconstructable pipeline by a selection, including the invalid-subset error;
  - the stored selection string and reading it back;
  - classifying a loaded target into a repository;
  - building a custom-pointer target from a reconstructor function and its arguments.

  The model proves these properties:
  - the ephemeral name is injective and invertible;
  - an empty selection skips resolution;
  - the selection round-trips through the stored JSON string;
  - a subset made from an existing pipeline stores no selection;
  - the "not a repository" error of `repository_def_from_pointer` can never fire.

`Wrappers` holds the shared `Option` and `Result` types.

The model follows the source code throughout. The ephemeral repository name is `__repository__` followed by the pipeline name, as `get_ephemeral_repository_name` formats it. The asset tag key is `dagster/asset_key`, the launch mode is `default`, and `handleLaunchResult` receives `true` as its fourth argument.

## Model

| member | source | states |
|---|---|---|
| AssetsCatalogRoot.RouteParam | js_modules/dagit/packages/core/src/assets/AssetsCatalogRoot.tsx:11 | `params['0'] \|\| ''`: an absent route parameter reads as the empty string, a present one as itself |
| AssetsCatalogRoot.Pieces | js_modules/dagit/packages/core/src/assets/AssetsCatalogRoot.tsx:12-13 | the split-and-filter keeps only non-empty pieces without a slash, at most one more than the route has slashes |
| AssetsCatalogRoot.Split | js_modules/dagit/packages/core/src/assets/AssetsCatalogRoot.tsx:12 | `.split('/')` gives one piece more than there are slashes, no piece holds a slash, and joining the pieces with `/` gives the route back |
| AssetsCatalogRoot.NonEmpty | js_modules/dagit/packages/core/src/assets/AssetsCatalogRoot.tsx:13 | `.filter((x) => x)` keeps exactly the non-empty pieces, in order, and never adds one |
| AssetsCatalogRoot.PrefixPath | js_modules/dagit/packages/core/src/assets/AssetsCatalogRoot.tsx:11-14 | a decoded prefix path has at most one segment more than the route has slashes |
| AssetsCatalogRoot.NoEmptySegments | js_modules/dagit/packages/core/src/assets/AssetsCatalogRoot.tsx:11-14 | no segment of a decoded prefix path is empty |
| AssetsCatalogRoot.DecodeNonEmpty | js_modules/dagit/packages/core/src/assets/AssetsCatalogRoot.tsx:14 | a non-empty piece that decodes never decodes to the empty string |
| AssetsCatalogRoot.PercentEncode | js_modules/dagit/packages/core/src/assets/AssetsCatalogRoot.tsx:14 | the reference `%XX` escape of an ASCII character, with upper-case hex digits: three characters that form a decodable escape |
| AssetsCatalogRoot.DecodePercentEncoded | js_modules/dagit/packages/core/src/assets/AssetsCatalogRoot.tsx:14 | every ASCII character written as `%XX` decodes to itself (`a%20b` gives `a b`) |
| AssetsCatalogRoot.DecodeEscape | js_modules/dagit/packages/core/src/assets/AssetsCatalogRoot.tsx:14 | any `%` followed by two hex digits of either case naming a byte below 0x80 decodes to the character with that code (`%2f` and `%2F` both give `/`) |
| AssetsCatalogRoot.DecodeLowerCaseEscape | js_modules/dagit/packages/core/src/assets/AssetsCatalogRoot.tsx:14 | every ASCII character written as `%xx` with lower-case hex digits decodes to itself |
| AssetsCatalogRoot.DecodeAll | js_modules/dagit/packages/core/src/assets/AssetsCatalogRoot.tsx:14 | mapping `decodeURIComponent` over the pieces succeeds iff every piece decodes; on success, entry i is the decoding of piece i and the length is unchanged |
| AssetsCatalogRoot.SlashesContributeNothing | js_modules/dagit/packages/core/src/assets/AssetsCatalogRoot.tsx:11-13 | the split-and-filter gives no pieces for the empty route, and leading, trailing and doubled slashes do not change the pieces |
| AssetsCatalogRoot.PiecesConcat | js_modules/dagit/packages/core/src/assets/AssetsCatalogRoot.tsx:11-13 | the pieces of `a/b` are the pieces of `a` followed by those of `b` |
| AssetsCatalogRoot.PiecesWithoutSlash | js_modules/dagit/packages/core/src/assets/AssetsCatalogRoot.tsx:11-13 | a non-empty route without `/` is one piece, itself |
| AssetsCatalogRoot.DecodeSucceedsIff | js_modules/dagit/packages/core/src/assets/AssetsCatalogRoot.tsx:14 | decoding one piece succeeds iff every `%` in it starts a two-hex-digit escape of an ASCII byte (below 0x80); URIError otherwise |
| AssetsCatalogRoot.DecodeComponent | js_modules/dagit/packages/core/src/assets/AssetsCatalogRoot.tsx:14 | a decoded piece is shorter than the piece by two characters per escape; what each escape decodes to, in either case of hex digits, is stated by `DecodeEscape` |
| AssetsCatalogRoot.DecodeWithoutPercent | js_modules/dagit/packages/core/src/assets/AssetsCatalogRoot.tsx:14 | a piece without `%` decodes to itself |
| AssetsCatalogRoot.DecodeConcat | js_modules/dagit/packages/core/src/assets/AssetsCatalogRoot.tsx:14 | decoding distributes over concatenation after a piece that decodes |
| AssetsCatalogRoot.PercentEscape | js_modules/dagit/packages/core/src/assets/AssetsCatalogRoot.tsx:14 | `%25` decodes to `%` |
| AssetsCatalogRoot.DecodeEscapedChar | js_modules/dagit/packages/core/src/assets/AssetsCatalogRoot.tsx:14 | each escaped character (`%2F`, `%25` or the character itself) decodes to that character |
| AssetsCatalogRoot.DecodeEncode | js_modules/dagit/packages/core/src/assets/AssetsCatalogRoot.tsx:14 | decoding undoes the escaping of `/` and `%` |
| AssetsCatalogRoot.DecodeThree | js_modules/dagit/packages/core/src/assets/AssetsCatalogRoot.tsx:14 | three decodable parts decode to the concatenation of their decodings |
| AssetsCatalogRoot.EncodeComponent | js_modules/dagit/packages/core/src/assets/AssetsCatalogRoot.tsx:11-14 | escaping a segment for the route leaves no `/` in it, and each escaped `/` or `%` adds two characters |
| AssetsCatalogRoot.AbsentOrEmptyRoute | js_modules/dagit/packages/core/src/assets/AssetsCatalogRoot.tsx:11 | an absent or empty route parameter (`params['0'] \|\| ''`) gives the empty prefix path |
| AssetsCatalogRoot.PrefixPathPieces | js_modules/dagit/packages/core/src/assets/AssetsCatalogRoot.tsx:11-14 | the prefix path succeeds iff every non-empty piece is well-formed; it then has one entry per non-empty piece, in order, each that piece decoded |
| AssetsCatalogRoot.PercentFreeRoute | js_modules/dagit/packages/core/src/assets/AssetsCatalogRoot.tsx:11-14 | a route without `%` gives its non-empty pieces unchanged |
| AssetsCatalogRoot.PrefixPathSinglePiece | js_modules/dagit/packages/core/src/assets/AssetsCatalogRoot.tsx:11-14 | a decodable route without `/` is a prefix path of one segment |
| AssetsCatalogRoot.EncodedSlashStaysInside | js_modules/dagit/packages/core/src/assets/AssetsCatalogRoot.tsx:11-14 | `a%2Fb` is one segment whose decoding contains `/`: only literal slashes separate segments |
| AssetsCatalogRoot.RoundTrip | js_modules/dagit/packages/core/src/assets/AssetsCatalogRoot.tsx:11-14 | non-empty segments, escaped and joined with `/`, give back exactly those segments |
| LaunchSingleAssetJob.TagValue | js_modules/dagit/packages/core/src/workspace/asset-graph/useLaunchSingleAssetJob.tsx:37-44 | reading a tag back finds a value iff some tag has the key |
| LaunchSingleAssetJob.BuildExecutionParams | js_modules/dagit/packages/core/src/workspace/asset-graph/useLaunchSingleAssetJob.tsx:23-46 | parameters are built iff the job name is truthy; they select that job in the address's repository and location, use mode `default`, run the one step `[opName]` and carry one tag whose `dagster/asset_key` value is the asset path |
| LaunchSingleAssetJob.Dispatch | js_modules/dagit/packages/core/src/workspace/asset-graph/useLaunchSingleAssetJob.tsx:27-52 | after the mutation: a resolved response goes first to `handleLaunchResult(basePath, jobName, result, true)`; the last effect shows an error iff the mutation or the handler threw; the try block issues no further mutation |
| LaunchSingleAssetJob.LaunchSingleAsset | js_modules/dagit/packages/core/src/workspace/asset-graph/useLaunchSingleAssetJob.tsx:18-55 | one invocation has no effect iff the job name is falsy; otherwise it starts with the launch mutation carrying the built parameters and has two or three effects |
| LaunchSingleAssetJob.FalsyJobNameDoesNothing | js_modules/dagit/packages/core/src/workspace/asset-graph/useLaunchSingleAssetJob.tsx:23-25 | a null or empty job name returns with no effect at all |
| LaunchSingleAssetJob.OneMutationPerLaunch | js_modules/dagit/packages/core/src/workspace/asset-graph/useLaunchSingleAssetJob.tsx:27-48 | with a job name, the first effect is the single launch mutation with the built parameters, followed by at least one more effect |
| LaunchSingleAssetJob.ResolvedGoesToHandler | js_modules/dagit/packages/core/src/workspace/asset-graph/useLaunchSingleAssetJob.tsx:49 | a resolved mutation whose handler returns calls `handleLaunchResult(basePath, jobName, result, true)` exactly once, last, and shows no error |
| LaunchSingleAssetJob.ThrownErrorIsShown | js_modules/dagit/packages/core/src/workspace/asset-graph/useLaunchSingleAssetJob.tsx:27-52 | an error thrown by the mutation or by the handler is shown exactly once, last; a thrown mutation is never handled |
| LaunchSingleAssetJob.RequestIdentifiesAsset | js_modules/dagit/packages/core/src/workspace/asset-graph/useLaunchSingleAssetJob.tsx:30-46 | two launchable definitions that build the same parameters from the same address are the same definition |
| LaunchSingleAssetJob.EveryLaunchableCallMutates | js_modules/dagit/packages/core/src/workspace/asset-graph/useLaunchSingleAssetJob.tsx:18-55 | over any sequence of invocations, the number of mutations is the number of invocations with a truthy job name (no deduplication) |
| IterateTypes.Iterate | python_modules/dagster/dagster/config/iterate_types.py:9-23 | the walk is never empty and yields the type itself last |
| IterateTypes.ScalarSideFirst | python_modules/dagster/dagster/config/iterate_types.py:19-21 | a scalar union lists its scalar type first, then the whole walk of its non-scalar type as one block, then itself |
| IterateTypes.IterateListsReached | python_modules/dagster/dagster/config/iterate_types.py:9-23 | a type is listed iff it is reachable: the root, inner types of arrays and noneables, field types, and both sides of a scalar union |
| IterateTypes.IterateFields | python_modules/dagster/dagster/config/iterate_types.py:14-17 | the fields' walk is empty iff there are no fields, and lists at least one type per field |
| IterateTypes.FieldsListReached | python_modules/dagster/dagster/config/iterate_types.py:14-17 | the walk of the fields lists exactly the types reachable from some field |
| IterateTypes.IterateLength | python_modules/dagster/dagster/config/iterate_types.py:9-23 | the walk has one entry per position in the type tree, so shared types are listed once per occurrence |
| IterateTypes.FieldsLength | python_modules/dagster/dagster/config/iterate_types.py:14-17 | the walk of the fields has one entry per position in the field types |
| IterateTypes.FieldsInOrder | python_modules/dagster/dagster/config/iterate_types.py:16-17 | the fields' walk is the walk of the earlier fields, then field i's whole walk, then the rest |
| IterateTypes.SubtreeWalksComeFirst | python_modules/dagster/dagster/config/iterate_types.py:11-23 | post-order: the walk of every type the walk enters is one contiguous block before the root |
| IterateTypes.ChildWalkInside | python_modules/dagster/dagster/config/iterate_types.py:11-23 | a walked child's walk contains, as a block, the walk of every type it enters |
| IterateTypes.FieldWalkInside | python_modules/dagster/dagster/config/iterate_types.py:14-17 | the fields' walk contains, as a block, the walk of every type a field enters |
| IterateTypes.Snapshot | python_modules/dagster/dagster/config/iterate_types.py:30-32 | the comprehension has an entry for every listed type's key and no other key |
| IterateTypes.SnapshotLaterWins | python_modules/dagster/dagster/config/iterate_types.py:30-32 | a key's entry is the snap of the last type listed with that key |
| IterateTypes.SchemaSnapshot | python_modules/dagster/dagster/config/iterate_types.py:26-32 | the snapshot maps the root's key to the root's own snap |
| IterateTypes.SnapshotKeysAreReachedKeys | python_modules/dagster/dagster/config/iterate_types.py:26-32 | the snapshot's keys are exactly the keys of the reachable types |
| Reconstructable.EphemeralRepositoryName | python_modules/dagster/dagster/core/definitions/reconstructable.py:24-26 | the ephemeral name is the prefix plus the pipeline name, in length |
| Reconstructable.EphemeralPipelineName | python_modules/dagster/dagster/core/definitions/reconstructable.py:24-26 | the inverse of the ephemeral name strips exactly the prefix |
| Reconstructable.EphemeralNameRoundTrip | python_modules/dagster/dagster/core/definitions/reconstructable.py:24-26 | the ephemeral name gives its pipeline name back, so distinct pipelines get distinct repository names |
| Reconstructable.EphemeralNameOnly | python_modules/dagster/dagster/core/definitions/reconstructable.py:24-26 | every name the inverse accepts is the ephemeral name of the pipeline it returns |
| Reconstructable.SolidSelection | python_modules/dagster/dagster/core/definitions/reconstructable.py:104-106 | no selection for an absent or empty string; otherwise the decoding of the stored string |
| Reconstructable.Unsubsetted | python_modules/dagster/dagster/core/definitions/reconstructable.py:157-160 | the unsubset copy keeps repository and pipeline name, executes no subset and has no selection |
| Reconstructable.Message | python_modules/dagster/dagster/core/definitions/reconstructable.py:136-142 | the invalid-subset message is `No qualified {node type} to execute found for {selection type}={repr of the selection}`: it starts with `No qualified ` and the node type and ends with the rendered selection |
| Reconstructable.SubsetForResolved | python_modules/dagster/dagster/core/definitions/reconstructable.py:148-162 | the copy keeps repository and pipeline name; a non-empty set of solids is stored as it is, an absent or empty one gives the unsubsetted pipeline; a selection string is stored iff both the set and the selection are non-empty, and it is then `json.dumps` of the selection |
| Reconstructable.ResolveSolidSelection | python_modules/dagster/dagster/core/definitions/reconstructable.py:129-143 | resolution succeeds iff the parsed set is non-empty and then returns it; otherwise the invalid-subset error carries the selection and speaks of `ops`/`op_selection` iff the definition is a job |
| Reconstructable.SubsetForExecution | python_modules/dagster/dagster/core/definitions/reconstructable.py:164-170 | fails iff a non-empty selection parses to no solids; on success keeps repository and name and, for a non-empty selection, stores the parsed set and the selection's JSON; a failure is the invalid-subset error for the selection, naming ops and `op_selection` for a job and solids and `solid_selection` otherwise |
| Reconstructable.SubsetFromExistingPipeline | python_modules/dagster/dagster/core/definitions/reconstructable.py:172-177 | keeps repository and name, stores the set iff it is non-empty, and the result has no `solid_selection` |
| Reconstructable.EmptySelectionSkipsResolution | python_modules/dagster/dagster/core/definitions/reconstructable.py:164-170 | an absent or empty selection gives the unsubsetted pipeline, whatever the parser and definition kind |
| Reconstructable.SelectionRoundTrip | python_modules/dagster/dagster/core/definitions/reconstructable.py:104-106 | the `solid_selection` of a successful subset is the non-empty selection it was made with, and none otherwise |
| Reconstructable.CheckIsLoadable | python_modules/dagster/dagster/core/definitions/reconstructable.py:474-486 | a definition passes, unchanged, iff it is a pipeline (or job), graph or repository |
| Reconstructable.DefFromTarget | python_modules/dagster/dagster/core/definitions/reconstructable.py:501-524 | loading succeeds iff the attribute is a loadable definition, or a function without arguments that returns one; the result is that definition or the function's result; a function with arguments is the invariant violation for arguments |
| Reconstructable.PipelineDefFromTarget | python_modules/dagster/dagster/core/definitions/reconstructable.py:527-538 | succeeds iff loading succeeds with a pipeline (or job), and then returns exactly the loaded definition |
| Reconstructable.RepositoryDefFromTargetDef | python_modules/dagster/dagster/core/definitions/reconstructable.py:541-556 | gives a repository iff the target is loadable; a repository is returned as it is; a pipeline or graph is wrapped alone in a repository whose name is its ephemeral name |
| Reconstructable.RepositoryDefFromPointer | python_modules/dagster/dagster/core/definitions/reconstructable.py:559-568 | every success is a repository definition, namely the classification of the loaded definition |
| Reconstructable.LoadedTargetBecomesRepository | python_modules/dagster/dagster/core/definitions/reconstructable.py:501-568 | from a pointer, a loaded repository comes back unchanged, a loaded pipeline or graph comes back alone in the repository named after it, and anything else fails the loadability check |
| Reconstructable.PointerErrorsComeFromLoading | python_modules/dagster/dagster/core/definitions/reconstructable.py:559-568 | fails iff loading fails, so its own "must resolve to a RepositoryDefinition" error never fires |
| Reconstructable.ArgsToList | python_modules/dagster/dagster/core/definitions/reconstructable.py:436 | no argument tuple gives the empty list, otherwise its elements in order |
| Reconstructable.KwargsToPairs | python_modules/dagster/dagster/core/definitions/reconstructable.py:437-444 | no dictionary gives the empty list, otherwise one pair per entry |
| Reconstructable.PairsToKwargs | python_modules/dagster/dagster/core/definitions/reconstructable.py:437-444 | rebuilding a dictionary from the pairs keeps one entry per pair |
| Reconstructable.KwargsRoundTrip | python_modules/dagster/dagster/core/definitions/reconstructable.py:437-444 | the pairs rebuild exactly the entries, in order, with the same lookups |
| Reconstructable.BuildReconstructableTarget | python_modules/dagster/dagster/core/definitions/reconstructable.py:433-457 | succeeds iff the custom pointer loads a pipeline; the result is named after it, unsubsetted, with no image or executable, and its pointer names the reconstructor module and function with the arguments in order and keyword arguments that rebuild the dictionary, or the empty list when no dictionary is given |

## Left out

- `DecodeComponent`: escapes of bytes 0x80 and above, which `decodeURIComponent` combines into UTF-8 characters, are modelled as URIError, because the model has no UTF-8 decoder. Every ASCII escape is decoded exactly.
- React and Apollo plumbing: `useParams`, `useContext`, `useMutation`, `useCallback` memoisation and the rendered page are not modelled. The route parameter, the base path and the mutation's outcome are parameters.
- `repoAddressToSelector`, `handleLaunchResult`, `showLaunchError` and the mutation transport are not modelled. The first is a function parameter; the others appear only as the ordered effects with their arguments. Whether the handler throws is a parameter.
- `BuildExecutionParams`: `repoAddressToSelector` runs inside the try block, so if it throws, the error is shown and no mutation is issued. The model takes it as a total function parameter, which cannot throw.
- The order of the spread in the launch selector is not modelled. The selector's pipeline name is the job name, and the repository fields come from `repoAddressToSelector`.
- The tag value is the asset path array passed as it is, as the source does. Its serialisation on the wire is not modelled.
- `snap_from_config_type` is a function parameter. Field attributes other than the field's type (defaults, descriptions, optionality) are not modelled because the walk does not look at them. Type kinds are reduced to the three shapes the walk distinguishes.
- Code loading is not modelled: importing modules and files, `load_target`, and calling the loaded function. What a pointer loads is a parameter.
- `parse_solid_selection` and the subset definition it parses against (`get_definition`) are a function parameter. `repr` of the requested list is a parameter of `Message`.
- `json.dumps`/`json.loads` of a selection are function parameters. Their round trip, and the fact that an encoding is never empty, are a precondition of the lemmas that need them.
- `lru_cache`, serialisation (`whitelist_for_serdes`), origins and origin ids, `describe`, CLI arguments, schedules and `reconstructable()` are not modelled. They do not bear on the properties above.
- `ArgsToList`: a missing argument tuple becomes the empty list. This assumes that `check.opt_tuple_param` gives an empty tuple for `None`. The `check` module is not part of this model; if it returns `None` instead, `list(None)` raises `TypeError`, which the model does not capture.
- JSON numbers in reconstructor arguments are integers here. Floating point is not modelled.
- The Celery execution tests are not modelled. They only exercise these functions end to end.
