/**
 * The callback that launches the one step materialising an asset. Given a
 * repository address and the asset's job definition, it returns at once when
 * the asset has no job; otherwise it builds the execution parameters of a
 * launch mutation (a selector of the job in its repository, mode `default`,
 * the single step, and a tag naming the asset), awaits the mutation, hands the
 * response to the launch-result handler, and reports anything thrown in
 * between through the launch-error reporter.
 *
 * The helpers whose bodies lie outside this model (`repoAddressToSelector`,
 * `handleLaunchResult`, `showLaunchError` and the mutation transport) are
 * uninterpreted: the first is a function parameter, the others appear only as
 * the effects the callback performs, in order, with their arguments.
 */
module LaunchSingleAssetJob {
  import opened Wrappers

  /** A workspace repository: its name and the location it is loaded from. */
  datatype RepoAddress = RepoAddress(name: string, location: string)

  /** What `repoAddressToSelector` returns: the repository part of a selector. */
  datatype RepositorySelector = RepositorySelector(repositoryName: string, repositoryLocationName: string)

  /** An asset key: the ordered segments of its path. */
  datatype AssetKey = AssetKey(path: seq<string>)

  /** The asset's job definition; either name may be null. */
  datatype AssetJobDefinition = AssetJobDefinition(jobName: Option<string>, opName: Option<string>, assetKey: AssetKey)

  datatype PipelineSelector = PipelineSelector(pipelineName: string, repositoryName: string, repositoryLocationName: string)

  /** A run tag; the value of the asset tag is the asset's path, handed over as it is. */
  datatype Tag = Tag(key: string, value: seq<string>)

  /** The `executionParams` variable of the launch mutation. */
  datatype ExecutionParams = ExecutionParams(
    selector: PipelineSelector,
    mode: string,
    stepKeys: seq<Option<string>>,
    tags: seq<Tag>)

  const AssetKeyTag: string := "dagster/asset_key"
  const DefaultMode: string := "default"

  /** How the awaited mutation ends: it resolves with a response or throws. */
  datatype Outcome<R, E> = Resolved(result: R) | Threw(error: E)

  /** The observable effects of the callback, in the order they happen. */
  datatype Effect<R, E> =
    | LaunchMutation(params: ExecutionParams)
    | HandleLaunchResult(basePath: string, jobName: string, result: R, flag: bool)
    | ShowLaunchError(error: E)

  /** JavaScript truthiness of a nullable string: neither null nor empty. */
  predicate Truthy(name: Option<string>)
  {
    name.Some? && name.value != ""
  }

  /** The value of the first tag with the given key, if any: how run tracking reads a tag back. */
  function TagValue(tags: seq<Tag>, key: string): (v: Option<seq<string>>)
    ensures v.Some? <==> exists i :: 0 <= i < |tags| && tags[i].key == key
  {
    if tags == [] then None
    else if tags[0].key == key then Some(tags[0].value)
    else TagValue(tags[1..], key)
  }

  /**
   * The guard and the `executionParams` object: no parameters for a falsy job
   * name; otherwise the job's selector in the repository, the default mode,
   * the single step `[opName]` (not checked for null) and one asset tag.
   */
  function BuildExecutionParams(
    repoAddressToSelector: RepoAddress -> RepositorySelector,
    repoAddress: RepoAddress,
    definition: AssetJobDefinition): (r: Option<ExecutionParams>)
    ensures r.Some? <==> Truthy(definition.jobName)
    ensures r.Some? ==>
      && r.value.selector.pipelineName == definition.jobName.value
      && r.value.selector.repositoryName == repoAddressToSelector(repoAddress).repositoryName
      && r.value.selector.repositoryLocationName == repoAddressToSelector(repoAddress).repositoryLocationName
      && r.value.mode == DefaultMode
      && r.value.stepKeys == [definition.opName]
      && |r.value.tags| == 1
      && TagValue(r.value.tags, AssetKeyTag) == Some(definition.assetKey.path)
  {
    if !Truthy(definition.jobName) then None
    else
      var repo := repoAddressToSelector(repoAddress);
      Some(ExecutionParams(
        PipelineSelector(definition.jobName.value, repo.repositoryName, repo.repositoryLocationName),
        DefaultMode,
        [definition.opName],
        [Tag(AssetKeyTag, definition.assetKey.path)]))
  }

  /**
   * The try/catch around the awaited mutation. A resolved mutation goes to
   * `handleLaunchResult(basePath, jobName, result, true)`; if the mutation
   * throws, or the handler itself throws, the error goes to `showLaunchError`.
   * `handlerThrows` says whether the (uninterpreted) handler throws.
   */
  function Dispatch<R, E>(basePath: string, jobName: string, outcome: Outcome<R, E>, handlerThrows: Option<E>)
    : (effects: seq<Effect<R, E>>)
    ensures 1 <= |effects| <= 2
    ensures effects[0].HandleLaunchResult? <==> outcome.Resolved?
    ensures effects[0].HandleLaunchResult? ==> effects[0] == HandleLaunchResult(basePath, jobName, outcome.result, true)
    ensures effects[|effects| - 1].ShowLaunchError? <==> outcome.Threw? || handlerThrows.Some?
    ensures forall i :: 0 <= i < |effects| ==> !effects[i].LaunchMutation?
  {
    match outcome
    case Threw(e) => [ShowLaunchError(e)]
    case Resolved(result) =>
      [HandleLaunchResult(basePath, jobName, result, true)]
      + (match handlerThrows case None => [] case Some(e) => [ShowLaunchError(e)])
  }

  /** One invocation of the callback: the effects it performs, in order. */
  function LaunchSingleAsset<R, E>(
    basePath: string,
    repoAddressToSelector: RepoAddress -> RepositorySelector,
    repoAddress: RepoAddress,
    definition: AssetJobDefinition,
    outcome: Outcome<R, E>,
    handlerThrows: Option<E>): (effects: seq<Effect<R, E>>)
    ensures effects == [] <==> !Truthy(definition.jobName)
    ensures effects != [] ==>
              && 2 <= |effects| <= 3
              && effects[0] == LaunchMutation(BuildExecutionParams(repoAddressToSelector, repoAddress, definition).value)
  {
    match BuildExecutionParams(repoAddressToSelector, repoAddress, definition)
    case None => []
    case Some(params) =>
      [LaunchMutation(params)] + Dispatch(basePath, definition.jobName.value, outcome, handlerThrows)
  }

  // ---------------------------------------------------------------------------
  // Counting effects

  function Mutations<R, E>(effects: seq<Effect<R, E>>): nat
  {
    if effects == [] then 0 else (if effects[0].LaunchMutation? then 1 else 0) + Mutations(effects[1..])
  }

  function Handled<R, E>(effects: seq<Effect<R, E>>): nat
  {
    if effects == [] then 0 else (if effects[0].HandleLaunchResult? then 1 else 0) + Handled(effects[1..])
  }

  function ErrorsShown<R, E>(effects: seq<Effect<R, E>>): nat
  {
    if effects == [] then 0 else (if effects[0].ShowLaunchError? then 1 else 0) + ErrorsShown(effects[1..])
  }

  lemma {:induction false} CountsDistribute<R, E>(a: seq<Effect<R, E>>, b: seq<Effect<R, E>>)
    ensures Mutations(a + b) == Mutations(a) + Mutations(b)
    ensures Handled(a + b) == Handled(a) + Handled(b)
    ensures ErrorsShown(a + b) == ErrorsShown(a) + ErrorsShown(b)
  {
    if a == [] {
      assert a + b == b;
    } else {
      assert (a + b)[0] == a[0] && (a + b)[1..] == a[1..] + b;
      CountsDistribute(a[1..], b);
    }
  }

  // ---------------------------------------------------------------------------
  // Properties of one invocation

  /** A null or empty job name returns at once: no mutation, no result handled, no error shown. */
  lemma FalsyJobNameDoesNothing<R, E>(
    basePath: string, toSelector: RepoAddress -> RepositorySelector, repoAddress: RepoAddress,
    definition: AssetJobDefinition, outcome: Outcome<R, E>, handlerThrows: Option<E>)
    requires !Truthy(definition.jobName)
    ensures LaunchSingleAsset(basePath, toSelector, repoAddress, definition, outcome, handlerThrows) == []
  {
  }

  /**
   * With a job name, the first effect is the one launch mutation, carrying
   * the parameters built from the arguments, and no other mutation follows.
   */
  lemma {:induction false} OneMutationPerLaunch<R, E>(
    basePath: string, toSelector: RepoAddress -> RepositorySelector, repoAddress: RepoAddress,
    definition: AssetJobDefinition, outcome: Outcome<R, E>, handlerThrows: Option<E>)
    requires Truthy(definition.jobName)
    ensures var effects := LaunchSingleAsset(basePath, toSelector, repoAddress, definition, outcome, handlerThrows);
      && |effects| >= 2
      && effects[0] == LaunchMutation(BuildExecutionParams(toSelector, repoAddress, definition).value)
      && Mutations(effects) == 1
  {
    var params := BuildExecutionParams(toSelector, repoAddress, definition).value;
    var rest := Dispatch(basePath, definition.jobName.value, outcome, handlerThrows);
    CountsDistribute<R, E>([LaunchMutation(params)], rest);
    assert Mutations<R, E>([LaunchMutation(params)]) == 1;
    match outcome
    case Threw(e) =>
      assert Mutations(rest) == 0;
    case Resolved(result) =>
      var tail := match handlerThrows case None => [] case Some(e) => [ShowLaunchError(e)];
      CountsDistribute<R, E>([HandleLaunchResult(basePath, definition.jobName.value, result, true)], tail);
  }

  /**
   * A resolved mutation whose handler returns: the handler is called exactly
   * once, with the base path, the job name, the response and `true`, and no
   * error is shown.
   */
  lemma {:induction false} ResolvedGoesToHandler<R, E>(
    basePath: string, toSelector: RepoAddress -> RepositorySelector, repoAddress: RepoAddress,
    definition: AssetJobDefinition, result: R)
    requires Truthy(definition.jobName)
    ensures var effects := LaunchSingleAsset<R, E>(basePath, toSelector, repoAddress, definition, Resolved(result), None);
      && Handled(effects) == 1
      && ErrorsShown(effects) == 0
      && effects[|effects| - 1] == HandleLaunchResult(basePath, definition.jobName.value, result, true)
  {
    var params := BuildExecutionParams(toSelector, repoAddress, definition).value;
    var effects: seq<Effect<R, E>> := LaunchSingleAsset(basePath, toSelector, repoAddress, definition, Resolved(result), None);
    assert effects == [LaunchMutation(params), HandleLaunchResult(basePath, definition.jobName.value, result, true)];
    CountsDistribute<R, E>([LaunchMutation(params)], [HandleLaunchResult(basePath, definition.jobName.value, result, true)]);
  }

  /**
   * Anything thrown inside the try block, by the mutation or by the handler,
   * ends in exactly one report of that error, as the last effect.
   */
  lemma {:induction false} ThrownErrorIsShown<R, E>(
    basePath: string, toSelector: RepoAddress -> RepositorySelector, repoAddress: RepoAddress,
    definition: AssetJobDefinition, outcome: Outcome<R, E>, handlerThrows: Option<E>)
    requires Truthy(definition.jobName)
    requires outcome.Threw? || handlerThrows.Some?
    ensures var effects := LaunchSingleAsset(basePath, toSelector, repoAddress, definition, outcome, handlerThrows);
      && ErrorsShown(effects) == 1
      && effects[|effects| - 1] == ShowLaunchError(if outcome.Threw? then outcome.error else handlerThrows.value)
      && (outcome.Threw? ==> Handled(effects) == 0)
  {
    var params := BuildExecutionParams(toSelector, repoAddress, definition).value;
    var job := definition.jobName.value;
    match outcome
    case Threw(e) =>
      CountsDistribute<R, E>([LaunchMutation(params)], [ShowLaunchError(e)]);
    case Resolved(result) =>
      var e := handlerThrows.value;
      CountsDistribute<R, E>([LaunchMutation(params)], [HandleLaunchResult(basePath, job, result, true), ShowLaunchError(e)]);
      CountsDistribute<R, E>([HandleLaunchResult(basePath, job, result, true)], [ShowLaunchError(e)]);
      assert [LaunchMutation(params)] + [HandleLaunchResult(basePath, job, result, true), ShowLaunchError(e)]
          == LaunchSingleAsset(basePath, toSelector, repoAddress, definition, outcome, handlerThrows);
  }

  /**
   * The request identifies the asset: the selector's job, the single step and
   * the asset tag read back from the built parameters give the definition's
   * job name, step and asset path.
   */
  lemma RequestIdentifiesAsset(
    toSelector: RepoAddress -> RepositorySelector, repoAddress: RepoAddress,
    d1: AssetJobDefinition, d2: AssetJobDefinition)
    requires Truthy(d1.jobName) && Truthy(d2.jobName)
    requires BuildExecutionParams(toSelector, repoAddress, d1) == BuildExecutionParams(toSelector, repoAddress, d2)
    ensures d1 == d2
  {
    var p := BuildExecutionParams(toSelector, repoAddress, d1).value;
    assert p.stepKeys[0] == d1.opName == d2.opName;
    assert d1.assetKey.path == TagValue(p.tags, AssetKeyTag).value == d2.assetKey.path;
  }

  // ---------------------------------------------------------------------------
  // Repeated invocations

  /** The arguments of one invocation and how its awaited calls end. */
  datatype Invocation<R, E> = Invocation(
    repoAddress: RepoAddress,
    definition: AssetJobDefinition,
    outcome: Outcome<R, E>,
    handlerThrows: Option<E>)

  /** Invocations one after another: nothing is carried from one to the next. */
  function LaunchEach<R, E>(
    basePath: string, toSelector: RepoAddress -> RepositorySelector, calls: seq<Invocation<R, E>>)
    : (effects: seq<Effect<R, E>>)
  {
    if calls == [] then []
    else
      var c := calls[0];
      LaunchSingleAsset(basePath, toSelector, c.repoAddress, c.definition, c.outcome, c.handlerThrows)
      + LaunchEach(basePath, toSelector, calls[1..])
  }

  /** Number of invocations whose job name is truthy. */
  function Launchable<R, E>(calls: seq<Invocation<R, E>>): nat
  {
    if calls == [] then 0 else (if Truthy(calls[0].definition.jobName) then 1 else 0) + Launchable(calls[1..])
  }

  /**
   * No deduplication: every invocation with a job name issues its own
   * mutation, so repeated launches of the same asset each reach the backend.
   */
  lemma {:induction false} EveryLaunchableCallMutates<R, E>(
    basePath: string, toSelector: RepoAddress -> RepositorySelector, calls: seq<Invocation<R, E>>)
    ensures Mutations(LaunchEach(basePath, toSelector, calls)) == Launchable(calls)
  {
    if calls != [] {
      var c := calls[0];
      var first := LaunchSingleAsset(basePath, toSelector, c.repoAddress, c.definition, c.outcome, c.handlerThrows);
      CountsDistribute<R, E>(first, LaunchEach(basePath, toSelector, calls[1..]));
      EveryLaunchableCallMutates(basePath, toSelector, calls[1..]);
      if Truthy(c.definition.jobName) {
        OneMutationPerLaunch(basePath, toSelector, c.repoAddress, c.definition, c.outcome, c.handlerThrows);
      }
    }
  }
}
