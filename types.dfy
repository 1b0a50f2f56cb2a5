/**
 * The values the sync-version resolver works on: project-version metadata as
 * returned by the resolution service, the local config/lock state, the sync
 * options, the injected semver operations and the injected confirmation
 * prompt.  The records themselves are declared in files that are not part of
 * this model (the API client and the config utilities); only the fields the
 * resolver reads are kept.
 */
module ResolveTypes {

  datatype Option<T> = None | Some(value: T)

  /** The fatal errors the resolver throws. */
  datatype Error =
    | MissingMeta(projectId: string, version: string)
    | VersionCompareFailed(projectId: string, newVersion: string, versionOnDisk: string)
    | NothingToSync

  datatype Result<T> = Ok(value: T) | Err(error: Error)

  /** One declared dependency edge: an entry of a `dependencies` object, in key order. */
  datatype Dep = Dep(projectId: string, version: string)

  /** One version of one remote project, with its own dependency edges. */
  datatype ProjectVersionMeta = ProjectVersionMeta(projectId: string, version: string, dependencies: seq<Dep>)

  /** The answer of one resolution call: the requested roots and the flat pool of metadata. */
  datatype VersionResolution = VersionResolution(projects: seq<ProjectVersionMeta>, dependencies: seq<ProjectVersionMeta>)

  /** An entry of the config's or the lock's project list (only the two fields read here). */
  datatype VersionRecord = VersionRecord(projectId: string, version: string)

  /** The local state: declared ranges (config) and last-synced versions (lock). */
  datatype Context = Context(configProjects: seq<VersionRecord>, lockProjects: seq<VersionRecord>)

  /**
   * The sync options read by the resolver.  `yes` and `force` are optional
   * booleans handed to the prompt as they are; `nonRecursive` is only read
   * for truth, so an absent flag is `false`.
   */
  datatype Options = Options(nonRecursive: bool, yes: Option<bool>, force: Option<bool>)

  /**
   * The semver module, which is not part of this model, as injected
   * operations: `isLatest`, `eq`, `lt`, `gt` on version strings and
   * `satisfies` of a version against a range string.
   */
  datatype SemverOps = SemverOps(
    isLatest: string -> bool,
    eq: (string, string) -> bool,
    lt: (string, string) -> bool,
    gt: (string, string) -> bool,
    satisfies: (string, string) -> bool)

  /** What a confirmation prompt asks; the identifiers stand for the names in its text. */
  datatype Question =
    | UpgradeDependency(projectId: string, newVersion: string)
    | SyncNewDependency(rootId: string, projectId: string, newVersion: string)
    | ForceOutOfRange

  datatype DefaultAnswer = Unspecified | AnswerNo

  /** One call of the confirmation helper: the question, the `assume` argument and the default answer. */
  datatype Prompt = Prompt(question: Question, assumeAnswer: Option<bool>, defaultAnswer: DefaultAnswer)

  /** The user (or the non-interactive override): the answer to the n-th prompt of a run. */
  type Confirm = (nat, Prompt) -> bool

  predicate Matches(m: ProjectVersionMeta, projectId: string, version: string)
  {
    m.projectId == projectId && m.version == version
  }

  predicate SamePair(a: ProjectVersionMeta, b: ProjectVersionMeta)
  {
    Matches(a, b.projectId, b.version)
  }

  /** Array `find` by (projectId, version): the index of the first match, if any. */
  function FindIndex(metas: seq<ProjectVersionMeta>, projectId: string, version: string): (r: Option<nat>)
    ensures r.Some? ==> r.value < |metas| && Matches(metas[r.value], projectId, version)
    ensures r.Some? ==> forall k :: 0 <= k < r.value ==> !Matches(metas[k], projectId, version)
    ensures r.None? <==> forall k :: 0 <= k < |metas| ==> !Matches(metas[k], projectId, version)
  {
    if metas == [] then None
    else if Matches(metas[0], projectId, version) then Some(0)
    else match FindIndex(metas[1..], projectId, version)
      case None => None
      case Some(i) => Some(i + 1)
  }

  /** Array `find` by projectId over config or lock entries: the index of the first match, if any. */
  function FindRecord(records: seq<VersionRecord>, projectId: string): (r: Option<nat>)
    ensures r.Some? ==> r.value < |records| && records[r.value].projectId == projectId
    ensures r.Some? ==> forall k :: 0 <= k < r.value ==> records[k].projectId != projectId
    ensures r.None? <==> forall k :: 0 <= k < |records| ==> records[k].projectId != projectId
  {
    if records == [] then None
    else if records[0].projectId == projectId then Some(0)
    else match FindRecord(records[1..], projectId)
      case None => None
      case Some(i) => Some(i + 1)
  }

  /** The version of the first entry for the project, if any. */
  function FindVersion(records: seq<VersionRecord>, projectId: string): (r: Option<string>)
    ensures r.None? <==> forall k :: 0 <= k < |records| ==> records[k].projectId != projectId
    ensures forall i :: 0 <= i < |records| && records[i].projectId == projectId &&
                        (forall k :: 0 <= k < i ==> records[k].projectId != projectId)
                        ==> r == Some(records[i].version)
  {
    match FindRecord(records, projectId)
    case None => None
    case Some(i) => Some(records[i].version)
  }

  /**
   * JavaScript falsiness of an optional string: absent, or present but empty.
   */
  predicate Blank(v: Option<string>)
    ensures Blank(v) <==> (v.Some? ==> |v.value| == 0)
  {
    v.None? || v.value == ""
  }
}
