/**
 * The record logic of reconstructable pipelines: the name of the ephemeral
 * repository that wraps a lone pipeline, the subset and unsubset copies of a
 * reconstructable pipeline and the error for a selection that matches nothing,
 * the selection string stored in a subset and read back from it, the
 * classification of a loaded target into a repository, and the conversion of
 * reconstructor arguments into the lists a custom code pointer stores.
 *
 * Loading code is outside this model: what a code pointer loads is given as a
 * value, the selection parser is a function parameter, and the JSON encoding of
 * a selection is a pair of function parameters whose round trip is a
 * precondition of the lemmas that need it.
 */
module Reconstructable {
  import opened Wrappers

  // ---------------------------------------------------------------------------
  // Ephemeral repository names

  const EphemeralPrefix: string := "__repository__"

  /** `get_ephemeral_repository_name`: the prefix followed by the pipeline name. */
  function EphemeralRepositoryName(pipelineName: string): (name: string)
    ensures |name| == |EphemeralPrefix| + |pipelineName|
  {
    EphemeralPrefix + pipelineName
  }

  /** The pipeline an ephemeral repository name was made for, if it is one. */
  function EphemeralPipelineName(repositoryName: string): (r: Option<string>)
    ensures r.Some? ==> |r.value| + |EphemeralPrefix| == |repositoryName|
  {
    if |repositoryName| >= |EphemeralPrefix| && repositoryName[..|EphemeralPrefix|] == EphemeralPrefix
    then Some(repositoryName[|EphemeralPrefix|..])
    else None
  }

  /** The ephemeral name gives its pipeline name back, so distinct pipelines get distinct names. */
  lemma EphemeralNameRoundTrip(pipelineName: string, other: string)
    ensures EphemeralPipelineName(EphemeralRepositoryName(pipelineName)) == Some(pipelineName)
    ensures EphemeralRepositoryName(pipelineName) == EphemeralRepositoryName(other) ==> pipelineName == other
  {
    var name := EphemeralRepositoryName(pipelineName);
    assert name[..|EphemeralPrefix|] == EphemeralPrefix;
    assert name[|EphemeralPrefix|..] == pipelineName;
    var otherName := EphemeralRepositoryName(other);
    assert otherName[|EphemeralPrefix|..] == other;
  }

  /** Every name the inverse accepts is the ephemeral name of what it returns. */
  lemma EphemeralNameOnly(repositoryName: string)
    requires EphemeralPipelineName(repositoryName).Some?
    ensures EphemeralRepositoryName(EphemeralPipelineName(repositoryName).value) == repositoryName
  {
    assert repositoryName == repositoryName[..|EphemeralPrefix|] + repositoryName[|EphemeralPrefix|..];
  }

  // ---------------------------------------------------------------------------
  // Records

  /** A JSON-serialisable value: what reconstructor arguments must be. */
  datatype JsonValue =
    | JsonNull
    | JsonBool(b: bool)
    | JsonNumber(n: int)
    | JsonString(s: string)
    | JsonArray(items: seq<JsonValue>)
    | JsonObject(members: seq<KeyValue>)

  /** A `[key, value]` pair, as a custom pointer stores each keyword argument. */
  datatype KeyValue = KeyValue(key: string, value: JsonValue)

  datatype CodePointer =
    | FileCodePointer(pythonFile: string, fnName: string, workingDirectory: string)
    | ModuleCodePointer(moduleName: string, fnName: string)
    | CustomPointer(reconstructorPointer: CodePointer, reconstructableArgs: seq<JsonValue>, reconstructableKwargs: seq<KeyValue>)

  datatype ReconstructableRepository = ReconstructableRepository(
    pointer: CodePointer,
    containerImage: Option<string>,
    executablePath: Option<string>)

  /**
   * A pipeline that can be rebuilt in another process: its repository, its
   * name, the selection queries it was subset with (as JSON) and the resolved
   * names of the solids (ops) it executes.
   */
  datatype ReconstructablePipeline = ReconstructablePipeline(
    repository: ReconstructableRepository,
    pipelineName: string,
    solidSelectionStr: Option<string>,
    solidsToExecute: Option<set<string>>)

  /** The JSON encoding of a selection list: `json.dumps` and `json.loads`. */
  datatype SelectionCodec = SelectionCodec(dumps: seq<string> -> string, loads: string -> seq<string>)

  /** What JSON guarantees for lists of strings: decoding undoes encoding, and an encoding is never empty. */
  ghost predicate RoundTrips(codec: SelectionCodec)
  {
    && (forall xs :: codec.loads(codec.dumps(xs)) == xs)
    && (forall xs :: codec.dumps(xs) != "")
  }

  /** Python truthiness of an optional selection list, set of names, or string. */
  predicate Given<T>(x: Option<seq<T>>)
  {
    x.Some? && x.value != []
  }

  predicate NonEmptySet(x: Option<set<string>>)
  {
    x.Some? && x.value != {}
  }

  // ---------------------------------------------------------------------------
  // Subsetting

  /** The `solid_selection` property: the decoded selection string, or none when it is absent or empty. */
  function SolidSelection(p: ReconstructablePipeline, codec: SelectionCodec): (r: Option<seq<string>>)
    ensures p.solidSelectionStr.None? || p.solidSelectionStr == Some("") ==> r.None?
    ensures Given(p.solidSelectionStr) ==> r == Some(codec.loads(p.solidSelectionStr.value))
  {
    if Given(p.solidSelectionStr) then Some(codec.loads(p.solidSelectionStr.value)) else None
  }

  /** The same pipeline without any subset. */
  function Unsubsetted(p: ReconstructablePipeline): (q: ReconstructablePipeline)
    ensures q.repository == p.repository && q.pipelineName == p.pipelineName
    ensures q.solidsToExecute == None
    ensures forall codec :: SolidSelection(q, codec) == None
  {
    ReconstructablePipeline(p.repository, p.pipelineName, None, None)
  }

  /**
   * `_subset_for_execution`: a non-empty set of solids gives a subset of the
   * same pipeline executing exactly that set, which stores the selection as
   * JSON when a non-empty selection was given; an absent or empty set gives
   * the unsubsetted pipeline.
   */
  function SubsetForResolved(
    p: ReconstructablePipeline, solidsToExecute: Option<set<string>>,
    solidSelection: Option<seq<string>>, codec: SelectionCodec): (q: ReconstructablePipeline)
    ensures q.repository == p.repository && q.pipelineName == p.pipelineName
    ensures NonEmptySet(solidsToExecute) ==> q.solidsToExecute == solidsToExecute
    ensures !NonEmptySet(solidsToExecute) ==> q == Unsubsetted(p)
    ensures q.solidSelectionStr.Some? <==> NonEmptySet(solidsToExecute) && Given(solidSelection)
    ensures NonEmptySet(solidsToExecute) && Given(solidSelection) ==>
              q.solidSelectionStr == Some(codec.dumps(solidSelection.value))
  {
    if NonEmptySet(solidsToExecute) then
      ReconstructablePipeline(
        p.repository, p.pipelineName,
        if Given(solidSelection) then Some(codec.dumps(solidSelection.value)) else None,
        solidsToExecute)
    else
      Unsubsetted(p)
  }

  /** `DagsterInvalidSubsetError`, with the three values its message is formatted from. */
  datatype InvalidSubsetError = InvalidSubsetError(nodeType: string, selectionType: string, requested: seq<string>)

  /** The message of the error; `repr` renders the requested list as Python does. */
  function Message(e: InvalidSubsetError, repr: seq<string> -> string): (m: string)
    ensures |m| > |"No qualified "| + |e.nodeType| + |repr(e.requested)|
    ensures m[..|"No qualified "|] == "No qualified "
    ensures m[|"No qualified "|..|"No qualified "| + |e.nodeType|] == e.nodeType
    ensures m[|m| - |repr(e.requested)|..] == repr(e.requested)
    ensures m == "No qualified " + e.nodeType + " to execute found for " + e.selectionType + "=" + repr(e.requested)
  {
    var lead := "No qualified " + e.nodeType;
    var m := lead + (" to execute found for " + e.selectionType + "=" + repr(e.requested));
    assert m[..|lead|] == lead;
    assert lead[..|"No qualified "|] == "No qualified ";
    m
  }

  /**
   * `_resolve_solid_selection`: the names the selection queries resolve to;
   * resolving to no name at all is an error that speaks of ops and
   * `op_selection` for a job, of solids and `solid_selection` otherwise.
   * `parse` stands for `parse_solid_selection` on this pipeline's definition.
   */
  function ResolveSolidSelection(selection: seq<string>, parse: seq<string> -> set<string>, isJob: bool)
    : (r: Result<set<string>, InvalidSubsetError>)
    ensures r.Success? <==> parse(selection) != {}
    ensures r.Success? ==> r.value == parse(selection)
    ensures r.Failure? ==> r.error.requested == selection
    ensures r.Failure? ==> (r.error.nodeType == "ops" <==> isJob) && (r.error.selectionType == "op_selection" <==> isJob)
  {
    var resolved := parse(selection);
    if resolved == {} then
      Failure(InvalidSubsetError(
        if isJob then "ops" else "solids",
        if isJob then "op_selection" else "solid_selection",
        selection))
    else Success(resolved)
  }

  /**
   * `subset_for_execution`: a non-empty selection is resolved and the pipeline
   * subset to the result; an absent or empty one is not resolved at all.
   */
  function SubsetForExecution(
    p: ReconstructablePipeline, solidSelection: Option<seq<string>>,
    parse: seq<string> -> set<string>, isJob: bool, codec: SelectionCodec)
    : (r: Result<ReconstructablePipeline, InvalidSubsetError>)
    ensures r.Success? ==> r.value.repository == p.repository && r.value.pipelineName == p.pipelineName
    ensures r.Failure? <==> Given(solidSelection) && parse(solidSelection.value) == {}
    ensures r.Success? && Given(solidSelection) ==>
              r.value.solidsToExecute == Some(parse(solidSelection.value))
              && r.value.solidSelectionStr == Some(codec.dumps(solidSelection.value))
    ensures r.Failure? ==>
              r.error == InvalidSubsetError(
                if isJob then "ops" else "solids",
                if isJob then "op_selection" else "solid_selection",
                solidSelection.value)
  {
    if Given(solidSelection) then
      match ResolveSolidSelection(solidSelection.value, parse, isJob)
      case Failure(e) => Failure(e)
      case Success(solids) => Success(SubsetForResolved(p, Some(solids), solidSelection, codec))
    else
      Success(SubsetForResolved(p, None, solidSelection, codec))
  }

  /**
   * `subset_for_execution_from_existing_pipeline`: subsets to already
   * resolved names; no selection is passed on, so none is stored.
   */
  function SubsetFromExistingPipeline(p: ReconstructablePipeline, solidsToExecute: Option<set<string>>, codec: SelectionCodec)
    : (q: ReconstructablePipeline)
    ensures q.repository == p.repository && q.pipelineName == p.pipelineName
    ensures q.solidsToExecute == if NonEmptySet(solidsToExecute) then solidsToExecute else None
    ensures SolidSelection(q, codec) == None
  {
    SubsetForResolved(p, solidsToExecute, None, codec)
  }

  /**
   * An absent or empty selection skips resolution: the result is the
   * unsubsetted pipeline, whatever the parser and the kind of definition.
   */
  lemma EmptySelectionSkipsResolution(
    p: ReconstructablePipeline, solidSelection: Option<seq<string>>,
    parse: seq<string> -> set<string>, parse': seq<string> -> set<string>,
    isJob: bool, isJob': bool, codec: SelectionCodec)
    requires !Given(solidSelection)
    ensures SubsetForExecution(p, solidSelection, parse, isJob, codec) == Success(Unsubsetted(p))
    ensures SubsetForExecution(p, solidSelection, parse, isJob, codec)
         == SubsetForExecution(p, solidSelection, parse', isJob', codec)
  {
  }

  /**
   * The selection round trip: the `solid_selection` of a pipeline subset to a
   * non-empty selection is that selection; the unsubsetted pipeline has none.
   */
  lemma SelectionRoundTrip(
    p: ReconstructablePipeline, solidSelection: Option<seq<string>>,
    parse: seq<string> -> set<string>, isJob: bool, codec: SelectionCodec)
    requires RoundTrips(codec)
    requires SubsetForExecution(p, solidSelection, parse, isJob, codec).Success?
    ensures SolidSelection(SubsetForExecution(p, solidSelection, parse, isJob, codec).value, codec)
         == if Given(solidSelection) then solidSelection else None
  {
    var q := SubsetForExecution(p, solidSelection, parse, isJob, codec).value;
    if Given(solidSelection) {
      var xs := solidSelection.value;
      assert codec.dumps(xs) != "" && codec.loads(codec.dumps(xs)) == xs;
      assert Given(q.solidSelectionStr);
    }
  }

  // ---------------------------------------------------------------------------
  // From a loaded target to a repository

  /** What a code pointer can load, once loaded and, for a function, called. */
  datatype Definition =
    | PipelineDefinition(name: string)  // a job definition is one too
    | GraphDefinition(name: string)
    | RepositoryDefinition(name: string, members: seq<Definition>)
    | OtherObject(typeName: string)

  /** The attribute a code pointer names: a definition or other value, or a function to call. */
  datatype LoadedTarget =
    | Loaded(value: Definition)
    | Function(takesArguments: bool, result: Definition)

  /** The `DagsterInvariantViolationError`s raised on the way from a pointer to a repository. */
  datatype InvariantViolation =
    | NotLoadable(got: Definition)
    | FunctionNeedsArguments
    | NotARepositoryTarget(got: Definition)
    | NotAPipelineTarget(got: Definition)

  predicate IsLoadable(d: Definition)
  {
    d.PipelineDefinition? || d.RepositoryDefinition? || d.GraphDefinition?
  }

  /** `_check_is_loadable`: pipelines (and jobs), graphs and repositories pass; anything else is an error. */
  function CheckIsLoadable(d: Definition): (r: Result<Definition, InvariantViolation>)
    ensures r.Success? <==> IsLoadable(d)
    ensures r.Success? ==> r.value == d
  {
    if IsLoadable(d) then Success(d) else Failure(NotLoadable(d))
  }

  /**
   * `def_from_pointer` after loading: a value is checked as it is; a function
   * is called without arguments and its result checked, and one that takes
   * arguments is an error.
   */
  function DefFromTarget(target: LoadedTarget): (r: Result<Definition, InvariantViolation>)
    ensures r.Success? <==>
              || (target.Loaded? && IsLoadable(target.value))
              || (target.Function? && !target.takesArguments && IsLoadable(target.result))
    ensures r.Success? ==> r.value == if target.Loaded? then target.value else target.result
    ensures target.Function? && target.takesArguments ==> r == Failure(FunctionNeedsArguments)
  {
    match target
    case Loaded(value) => CheckIsLoadable(value)
    case Function(takesArguments, result) =>
      if takesArguments then Failure(FunctionNeedsArguments) else CheckIsLoadable(result)
  }

  /** `pipeline_def_from_pointer` after loading: the loaded definition, which must be a pipeline (or job). */
  function PipelineDefFromTarget(target: LoadedTarget): (r: Result<Definition, InvariantViolation>)
    ensures r.Success? ==> r.value.PipelineDefinition?
    ensures r.Success? <==> DefFromTarget(target).Success? && DefFromTarget(target).value.PipelineDefinition?
    ensures r.Success? ==> r.value == DefFromTarget(target).value
  {
    match DefFromTarget(target)
    case Failure(e) => Failure(e)
    case Success(d) => if d.PipelineDefinition? then Success(d) else Failure(NotAPipelineTarget(d))
  }

  /**
   * `repository_def_from_target_def`: a pipeline or graph is wrapped in a
   * repository named after it that holds just it; a repository is returned as
   * it is; anything else gives nothing.
   */
  function RepositoryDefFromTargetDef(target: Definition): (r: Option<Definition>)
    ensures r.Some? <==> IsLoadable(target)
    ensures r.Some? ==> r.value.RepositoryDefinition?
    ensures target.RepositoryDefinition? ==> r == Some(target)
    ensures target.PipelineDefinition? || target.GraphDefinition? ==>
              r.value.members == [target] && EphemeralPipelineName(r.value.name) == Some(target.name)
  {
    match target
    case PipelineDefinition(name) =>
      EphemeralNameRoundTrip(name, name);
      Some(RepositoryDefinition(EphemeralRepositoryName(name), [target]))
    case GraphDefinition(name) =>
      EphemeralNameRoundTrip(name, name);
      Some(RepositoryDefinition(EphemeralRepositoryName(name), [target]))
    case RepositoryDefinition(_, _) => Some(target)
    case OtherObject(_) => None
  }

  /** `repository_def_from_pointer`: the loaded definition as a repository, or the error on the way. */
  function RepositoryDefFromPointer(target: LoadedTarget): (r: Result<Definition, InvariantViolation>)
    ensures r.Success? ==> r.value.RepositoryDefinition?
    ensures r.Success? ==>
              DefFromTarget(target).Success? && RepositoryDefFromTargetDef(DefFromTarget(target).value) == Some(r.value)
  {
    match DefFromTarget(target)
    case Failure(e) => Failure(e)
    case Success(d) =>
      match RepositoryDefFromTargetDef(d)
      case None => Failure(NotARepositoryTarget(d))
      case Some(repo) => Success(repo)
  }

  /**
   * Every loaded target reaches a repository or an invariant violation. The
   * check that `repository_def_from_pointer` makes itself never fires: every
   * definition that passes `_check_is_loadable` is one that
   * `repository_def_from_target_def` accepts, so other objects are rejected
   * earlier, by `_check_is_loadable`.
   */
  lemma PointerErrorsComeFromLoading(target: LoadedTarget)
    ensures RepositoryDefFromPointer(target).Failure? <==> DefFromTarget(target).Failure?
    ensures RepositoryDefFromPointer(target).Failure? ==> !RepositoryDefFromPointer(target).error.NotARepositoryTarget?
  {
  }

  /**
   * From a pointer to a repository: a loaded repository comes back unchanged,
   * and a loaded pipeline or graph comes back alone in the repository named
   * after it; whether the attribute was a value or a function called without
   * arguments makes no difference.
   */
  lemma LoadedTargetBecomesRepository(target: LoadedTarget)
    requires target.Loaded? || !target.takesArguments
    ensures var d := if target.Loaded? then target.value else target.result;
      && (d.RepositoryDefinition? ==> RepositoryDefFromPointer(target) == Success(d))
      && (d.PipelineDefinition? || d.GraphDefinition? ==>
            && RepositoryDefFromPointer(target).Success?
            && RepositoryDefFromPointer(target).value.members == [d]
            && EphemeralPipelineName(RepositoryDefFromPointer(target).value.name) == Some(d.name))
      && (d.OtherObject? ==> RepositoryDefFromPointer(target) == Failure(NotLoadable(d)))
  {
  }

  // ---------------------------------------------------------------------------
  // Building a reconstructable target from a reconstructor function

  /** `list(reconstructable_args)`: the tuple's elements in order; no tuple gives the empty list. */
  function ArgsToList(args: Option<seq<JsonValue>>): (r: seq<JsonValue>)
    ensures args.Some? ==> r == args.value
    ensures args.None? ==> r == []
  {
    match args
    case None => []
    case Some(values) => values
  }

  /**
   * The keyword arguments as a list of `[key, value]` pairs, one per entry in
   * the dictionary's order; no dictionary gives the empty list.
   */
  function KwargsToPairs(kwargs: Option<seq<(string, JsonValue)>>): (r: seq<KeyValue>)
    ensures kwargs.None? ==> r == []
    ensures kwargs.Some? ==> |r| == |kwargs.value|
  {
    match kwargs
    case None => []
    case Some(entries) => seq(|entries|, i requires 0 <= i < |entries| => KeyValue(entries[i].0, entries[i].1))
  }

  /**
   * The entries the pairs stand for, one per pair and in order, duplicate keys
   * included: the inverse of `KwargsToPairs`. `Lookup` reads them as a
   * dictionary does.
   */
  function PairsToKwargs(pairs: seq<KeyValue>): (entries: seq<(string, JsonValue)>)
    ensures |entries| == |pairs|
  {
    seq(|pairs|, i requires 0 <= i < |pairs| => (pairs[i].key, pairs[i].value))
  }

  /** The value stored under a key: the last entry with that key, as a dictionary keeps. */
  function Lookup(entries: seq<(string, JsonValue)>, key: string): Option<JsonValue>
  {
    if entries == [] then None
    else if entries[|entries| - 1].0 == key then Some(entries[|entries| - 1].1)
    else Lookup(entries[..|entries| - 1], key)
  }

  /** The conversion keeps every entry, in order: converting back gives the same entries and the same lookups. */
  lemma KwargsRoundTrip(entries: seq<(string, JsonValue)>, key: string)
    ensures PairsToKwargs(KwargsToPairs(Some(entries))) == entries
    ensures Lookup(PairsToKwargs(KwargsToPairs(Some(entries))), key) == Lookup(entries, key)
  {
    var back := PairsToKwargs(KwargsToPairs(Some(entries)));
    assert |back| == |entries|;
    forall i | 0 <= i < |entries| ensures back[i] == entries[i] {
    }
  }

  /**
   * `build_reconstructable_target`: a custom pointer to the reconstructor
   * function with the converted arguments, in a repository of its own, under
   * the name of the pipeline the pointer loads. `loaded` is what the custom
   * pointer loads; anything but a pipeline (or job) is an error.
   */
  function BuildReconstructableTarget(
    reconstructorModuleName: string, reconstructorFunctionName: string,
    args: Option<seq<JsonValue>>, kwargs: Option<seq<(string, JsonValue)>>,
    loaded: LoadedTarget): (r: Result<ReconstructablePipeline, InvariantViolation>)
    ensures r.Success? <==> PipelineDefFromTarget(loaded).Success?
    ensures r.Success? ==> r.value.pipelineName == PipelineDefFromTarget(loaded).value.name
    ensures r.Success? ==> r.value.solidSelectionStr == None && r.value.solidsToExecute == None
    ensures r.Success? ==> r.value.repository.containerImage == None && r.value.repository.executablePath == None
    ensures r.Success? ==> r.value.repository.pointer.CustomPointer?
    ensures r.Success? ==>
              r.value.repository.pointer.reconstructorPointer == ModuleCodePointer(reconstructorModuleName, reconstructorFunctionName)
    ensures r.Success? ==> r.value.repository.pointer.reconstructableArgs == ArgsToList(args)
    ensures r.Success? && kwargs.Some? ==> PairsToKwargs(r.value.repository.pointer.reconstructableKwargs) == kwargs.value
    ensures r.Success? && kwargs.None? ==> r.value.repository.pointer.reconstructableKwargs == []
  {
    KwargsRoundTrip(if kwargs.Some? then kwargs.value else [], "");
    var pointer := CustomPointer(
      ModuleCodePointer(reconstructorModuleName, reconstructorFunctionName),
      ArgsToList(args),
      KwargsToPairs(kwargs));
    match PipelineDefFromTarget(loaded)
    case Failure(e) => Failure(e)
    case Success(pipelineDef) =>
      Success(ReconstructablePipeline(ReconstructableRepository(pointer, None, None), pipelineDef.name, None, None))
  }
}
