/**
 * `checkVersionResolution`: which of the project versions returned by the
 * resolution service to sync.  Each requested root is expanded to its
 * candidates (its walk reversed, or the root alone in non-recursive mode);
 * each (projectId, version) pair is checked once, the first time it comes
 * up, and the approved ones are collected in order.
 *
 * The driver is specified by functions over the state it grows (the `seen`
 * and `result` lists and the prompts issued so far) and implemented by a
 * method with the source's two nested loops.  `getDependencies` is the
 * accessor at the end of the same file.
 */
module SyncResolution {
  import opened ResolveTypes
  import opened DependencyWalk
  import opened ProjectCheck

  /** A queue entry of the driver: the meta to check, the root it came from, and whether it is that root object. */
  datatype Candidate = Candidate(meta: ProjectVersionMeta, root: ProjectVersionMeta, isRoot: bool)

  /** The driver's state: `seen`, `result`, and every prompt issued so far. */
  datatype State = State(seen: seq<ProjectVersionMeta>, result: seq<ProjectVersionMeta>, prompts: seq<Prompt>)

  /** How a run ends: the error that stopped it, if any, and the state at that point. */
  datatype Run = Run(failure: Option<Error>, state: State)

  const Start := State([], [], [])

  /** `Array.prototype.reverse` on a list. */
  function Reversed<T>(s: seq<T>): (r: seq<T>)
    ensures |r| == |s|
  {
    if s == [] then [] else Reversed(s[1..]) + [s[0]]
  }

  lemma {:induction false} ReversedAt<T>(s: seq<T>, k: nat)
    requires k < |s|
    ensures Reversed(s)[k] == s[|s| - 1 - k]
  {
    if k < |s| - 1 {
      ReversedAt(s[1..], k);
    }
  }

  /** The candidates of a queue of metas from `root`: only the last one is the root object. */
  function Tag(queue: seq<ProjectVersionMeta>, root: ProjectVersionMeta): (g: seq<Candidate>)
    ensures |g| == |queue|
    ensures forall i :: 0 <= i < |g| ==> g[i].meta == queue[i] && g[i].root == root && (g[i].isRoot <==> i == |queue| - 1)
  {
    seq(|queue|, i requires 0 <= i < |queue| => Candidate(queue[i], root, i == |queue| - 1))
  }

  /**
   * The walks of the roots are defined: `rank` ranks the whole pool and every
   * root, unless no walk happens (non-recursive mode, or nothing requested).
   */
  ghost predicate Walkable(vr: VersionResolution, opts: Options, rank: ProjectVersionMeta -> nat)
  {
    !opts.nonRecursive && |vr.projects| > 0 ==>
      Acyclic(vr.dependencies, rank) && forall i :: 0 <= i < |vr.projects| ==> Descends(vr.dependencies, rank, vr.projects[i])
  }

  /** The queue of one root: the root alone, or its walk over the dependency pool reversed. */
  ghost function GroupOf(vr: VersionResolution, root: ProjectVersionMeta, opts: Options, rank: ProjectVersionMeta -> nat): Result<seq<Candidate>>
    requires !opts.nonRecursive ==> Acyclic(vr.dependencies, rank) && Descends(vr.dependencies, rank, root)
  {
    if opts.nonRecursive then Ok(Tag([root], root))
    else match Walk(vr.dependencies, rank, root)
      case Err(e) => Err(e)
      case Ok(w) => Ok(Tag(Reversed(w), root))
  }

  /** A pair already in `seen` is skipped. */
  predicate Seen(seen: seq<ProjectVersionMeta>, m: ProjectVersionMeta)
  {
    FindIndex(seen, m.projectId, m.version).Some?
  }

  /** The check of one candidate, numbering its prompts after those already issued. */
  function CheckOne(c: Candidate, st: State, ctx: Context, opts: Options, sem: SemverOps, confirm: Confirm): Checked
  {
    CheckProjectMeta(c.meta, c.root, c.isRoot, ctx, opts, sem, confirm, |st.prompts|)
  }

  /** The state after a candidate's check returned `ok`: the meta is seen, and kept when approved. */
  function Record(c: Candidate, st: State, k: Checked, ok: bool): State
  {
    State(st.seen + [c.meta], if ok then st.result + [c.meta] else st.result, st.prompts + k.prompts)
  }

  /** The inner loop over one root's queue. */
  function Reconcile(g: seq<Candidate>, st: State, ctx: Context, opts: Options, sem: SemverOps, confirm: Confirm): (run: Run)
    ensures st.seen <= run.state.seen && st.result <= run.state.result && st.prompts <= run.state.prompts
  {
    if g == [] then Run(None, st)
    else if Seen(st.seen, g[0].meta) then Reconcile(g[1..], st, ctx, opts, sem, confirm)
    else
      var k := CheckOne(g[0], st, ctx, opts, sem, confirm);
      match k.verdict
      case Err(e) => Run(Some(e), State(st.seen, st.result, st.prompts + k.prompts))
      case Ok(ok) => Reconcile(g[1..], Record(g[0], st, k, ok), ctx, opts, sem, confirm)
  }

  /** The outer loop over the requested roots. */
  ghost function ResolveRoots(vr: VersionResolution, roots: seq<ProjectVersionMeta>, st: State, ctx: Context, opts: Options,
                              sem: SemverOps, confirm: Confirm, rank: ProjectVersionMeta -> nat): (run: Run)
    requires !opts.nonRecursive ==> Acyclic(vr.dependencies, rank) && forall i :: 0 <= i < |roots| ==> Descends(vr.dependencies, rank, roots[i])
    ensures st.seen <= run.state.seen && st.result <= run.state.result && st.prompts <= run.state.prompts
  {
    if roots == [] then Run(None, st)
    else match GroupOf(vr, roots[0], opts, rank)
      case Err(e) => Run(Some(e), st)
      case Ok(g) =>
        var r := Reconcile(g, st, ctx, opts, sem, confirm);
        if r.failure.Some? then r
        else ResolveRoots(vr, roots[1..], r.state, ctx, opts, sem, confirm, rank)
  }

  /** The whole run of `checkVersionResolution`; nothing requested is an error before anything else happens. */
  ghost function Resolution(vr: VersionResolution, ctx: Context, opts: Options, sem: SemverOps, confirm: Confirm,
                            rank: ProjectVersionMeta -> nat): (run: Run)
    requires Walkable(vr, opts, rank)
    ensures |vr.projects| == 0 <==> run == Run(Some(NothingToSync), Start)
  {
    if |vr.projects| <= 0 then Run(Some(NothingToSync), Start)
    else
      ResolveRootsNeverNothing(vr, vr.projects, Start, ctx, opts, sem, confirm, rank);
      ResolveRoots(vr, vr.projects, Start, ctx, opts, sem, confirm, rank)
  }

  /** The walk and the checks never throw the "nothing to sync" error. */
  lemma {:induction false} ResolveRootsNeverNothing(vr: VersionResolution, roots: seq<ProjectVersionMeta>, st: State, ctx: Context, opts: Options,
                                                    sem: SemverOps, confirm: Confirm, rank: ProjectVersionMeta -> nat)
    requires !opts.nonRecursive ==> Acyclic(vr.dependencies, rank) && forall i :: 0 <= i < |roots| ==> Descends(vr.dependencies, rank, roots[i])
    ensures ResolveRoots(vr, roots, st, ctx, opts, sem, confirm, rank).failure != Some(NothingToSync)
  {
    if roots != [] {
      match GroupOf(vr, roots[0], opts, rank)
      case Err(e) =>
        if !opts.nonRecursive {
          WalkNeverNothing(vr.dependencies, rank, roots[0]);
        }
      case Ok(g) =>
        ReconcileThrowsCompare(g, st, ctx, opts, sem, confirm);
        var r := Reconcile(g, st, ctx, opts, sem, confirm);
        if r.failure.None? {
          ResolveRootsNeverNothing(vr, roots[1..], r.state, ctx, opts, sem, confirm, rank);
        }
    }
  }

  lemma WalkNeverNothing(pool: seq<ProjectVersionMeta>, rank: ProjectVersionMeta -> nat, root: ProjectVersionMeta)
    requires Acyclic(pool, rank) && Descends(pool, rank, root)
    ensures Walk(pool, rank, root).Err? ==> Walk(pool, rank, root).error.MissingMeta?
  {
    BfsErrorsAreMissing(pool, rank, [root]);
  }

  lemma {:induction false} BfsErrorsAreMissing(pool: seq<ProjectVersionMeta>, rank: ProjectVersionMeta -> nat, queue: seq<ProjectVersionMeta>)
    requires Acyclic(pool, rank) && AllDescend(pool, rank, queue)
    ensures Bfs(pool, rank, queue).Err? ==> Bfs(pool, rank, queue).error.MissingMeta?
    decreases SumSize(pool, rank, queue)
  {
    if queue != [] {
      match Children(pool, queue[0].dependencies)
      case Err(e) =>
      case Ok(cs) =>
        StepShrinks(pool, rank, queue, cs);
        BfsErrorsAreMissing(pool, rank, queue[1..] + cs);
    }
  }

  /** A check in the inner loop throws only the version comparison error. */
  lemma {:induction false} ReconcileThrowsCompare(g: seq<Candidate>, st: State, ctx: Context, opts: Options, sem: SemverOps, confirm: Confirm)
    ensures Reconcile(g, st, ctx, opts, sem, confirm).failure.Some? ==>
              Reconcile(g, st, ctx, opts, sem, confirm).failure.value.VersionCompareFailed?
  {
    if g != [] {
      if Seen(st.seen, g[0].meta) {
        ReconcileThrowsCompare(g[1..], st, ctx, opts, sem, confirm);
      } else {
        var k := CheckOne(g[0], st, ctx, opts, sem, confirm);
        if k.verdict.Ok? {
          ReconcileThrowsCompare(g[1..], Record(g[0], st, k, k.verdict.value), ctx, opts, sem, confirm);
        }
      }
    }
  }

  /** What `checkVersionResolution` returns or throws at the end of a run. */
  function Outcome(run: Run): Result<seq<ProjectVersionMeta>>
  {
    match run.failure
    case Some(e) => Err(e)
    case None => Ok(run.state.result)
  }

  /**
   * `checkVersionResolution`: for each root, its queue (the root alone, or
   * the walk reversed); each meta whose pair is not yet in `seen` is checked,
   * kept when approved, and added to `seen`.  The prompts issued are
   * returned beside the outcome, also when the run throws.
   */
  method CheckVersionResolution(vr: VersionResolution, ctx: Context, opts: Options, sem: SemverOps, confirm: Confirm,
                                ghost rank: ProjectVersionMeta -> nat)
    returns (outcome: Result<seq<ProjectVersionMeta>>, prompts: seq<Prompt>)
    requires Walkable(vr, opts, rank)
    ensures outcome == Outcome(Resolution(vr, ctx, opts, sem, confirm, rank))
    ensures prompts == Resolution(vr, ctx, opts, sem, confirm, rank).state.prompts
  {
    prompts := [];
    if |vr.projects| <= 0 {
      return Err(NothingToSync), prompts;
    }
    var seen: seq<ProjectVersionMeta> := [];
    var result: seq<ProjectVersionMeta> := [];
    ghost var whole := Resolution(vr, ctx, opts, sem, confirm, rank);
    for i := 0 to |vr.projects|
      invariant whole == ResolveRoots(vr, vr.projects[i..], State(seen, result, prompts), ctx, opts, sem, confirm, rank)
    {
      var root := vr.projects[i];
      assert vr.projects[i..][0] == root && vr.projects[i..][1..] == vr.projects[i + 1..];
      var queue: seq<ProjectVersionMeta>;
      if opts.nonRecursive {
        queue := [root];
      } else {
        var walked := WalkDependencyTree(root, vr.dependencies, rank);
        if walked.Err? {
          return Err(walked.error), prompts;
        }
        queue := Reversed(walked.value);
      }
      ghost var g := Tag(queue, root);
      assert GroupOf(vr, root, opts, rank) == Ok(g);
      for j := 0 to |queue|
        invariant whole == (var r := Reconcile(g[j..], State(seen, result, prompts), ctx, opts, sem, confirm);
                            if r.failure.Some? then r else ResolveRoots(vr, vr.projects[i + 1..], r.state, ctx, opts, sem, confirm, rank))
      {
        var m := queue[j];
        assert g[j..][0] == Candidate(m, root, j == |queue| - 1) && g[j..][1..] == g[j + 1..];
        if FindIndex(seen, m.projectId, m.version).None? {
          var checked := CheckProjectMeta(m, root, j == |queue| - 1, ctx, opts, sem, confirm, |prompts|);
          prompts := prompts + checked.prompts;
          if checked.verdict.Err? {
            return Err(checked.verdict.error), prompts;
          }
          if checked.verdict.value {
            result := result + [m];
          }
          seen := seen + [m];
        }
      }
      assert g[|queue|..] == [];
    }
    assert vr.projects[|vr.projects|..] == [];
    return Ok(result), prompts;
  }

  /** No entry of `metas` matches the pair. */
  predicate NoMatch(metas: seq<ProjectVersionMeta>, projectId: string, version: string)
  {
    forall k :: 0 <= k < |metas| ==> !Matches(metas[k], projectId, version)
  }

  /** Entry `i` is the first entry of `metas` matching the pair. */
  predicate FirstMatchAt(metas: seq<ProjectVersionMeta>, projectId: string, version: string, i: int)
  {
    0 <= i < |metas| && Matches(metas[i], projectId, version) && NoMatch(metas[..i], projectId, version)
  }

  /**
   * `getDependencies`: the edges of the first requested project matching the
   * pair, else of the first matching pool entry, else nothing.
   */
  function GetDependencies(projectId: string, version: string, vr: VersionResolution): (r: Option<seq<Dep>>)
    ensures forall i :: FirstMatchAt(vr.projects, projectId, version, i) ==> r == Some(vr.projects[i].dependencies)
    ensures NoMatch(vr.projects, projectId, version) ==>
              forall i :: FirstMatchAt(vr.dependencies, projectId, version, i) ==> r == Some(vr.dependencies[i].dependencies)
    ensures r.None? <==> NoMatch(vr.projects, projectId, version) && NoMatch(vr.dependencies, projectId, version)
  {
    FindIndexIsFirstMatch(vr.projects, projectId, version);
    FindIndexIsFirstMatch(vr.dependencies, projectId, version);
    match FindIndex(vr.projects, projectId, version)
    case Some(i) => Some(vr.projects[i].dependencies)
    case None =>
      match FindIndex(vr.dependencies, projectId, version)
      case Some(i) => Some(vr.dependencies[i].dependencies)
      case None => None
  }

  /** `find` by pair: its index is the one first match, and there is none exactly when no entry matches. */
  lemma FindIndexIsFirstMatch(metas: seq<ProjectVersionMeta>, projectId: string, version: string)
    ensures forall i :: FirstMatchAt(metas, projectId, version, i) <==> FindIndex(metas, projectId, version) == Some(i)
    ensures FindIndex(metas, projectId, version).None? <==> NoMatch(metas, projectId, version)
  {
    forall i | FirstMatchAt(metas, projectId, version, i)
      ensures FindIndex(metas, projectId, version) == Some(i)
    {
      assert forall k :: 0 <= k < i ==> metas[..i][k] == metas[k];
    }
    if FindIndex(metas, projectId, version).Some? {
      var j := FindIndex(metas, projectId, version).value;
      forall k | 0 <= k < j ensures !Matches(metas[..j][k], projectId, version) {
        assert metas[..j][k] == metas[k];
      }
      assert FirstMatchAt(metas, projectId, version, j);
    }
  }
}
