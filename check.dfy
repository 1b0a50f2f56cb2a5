/**
 * `checkProjectMeta`: whether one candidate project version may be synced,
 * judged against the lock state (`checkVersionLock`), then against the
 * declared ranges of the config (`checkVersionRange`), with the user asked
 * when neither decides on its own.
 *
 * A check is a value: the verdict (or the comparison error it throws) and
 * the prompts it issued, in order.  The answer to a prompt is
 * `confirm(n, prompt)`, `n` being the number of prompts issued before it in
 * the run; `asked` is that number when the check starts.
 */
module ProjectCheck {
  import opened ResolveTypes

  datatype Checked = Checked(verdict: Result<bool>, prompts: seq<Prompt>)

  /** Every prompt of `prompts` was answered yes, numbering them from `asked`. */
  predicate AllConfirmed(confirm: Confirm, asked: nat, prompts: seq<Prompt>)
  {
    forall n :: 0 <= n < |prompts| ==> confirm(asked + n, prompts[n])
  }

  /** The prompts ask nothing of the given kind. */
  predicate NoUpgradePrompt(prompts: seq<Prompt>)
  {
    forall n :: 0 <= n < |prompts| ==> !prompts[n].question.UpgradeDependency?
  }

  predicate NoNewDependencyPrompt(prompts: seq<Prompt>)
  {
    forall n :: 0 <= n < |prompts| ==> !prompts[n].question.SyncNewDependency?
  }

  /** The semver comparison gives one of equal, older or newer. */
  predicate Comparable(sem: SemverOps, v: string, w: string)
  {
    sem.eq(v, w) || sem.lt(v, w) || sem.gt(v, w)
  }

  /** The version last synced for the project, from the lock state. */
  function VersionOnDisk(ctx: Context, projectId: string): Option<string>
  {
    FindVersion(ctx.lockProjects, projectId)
  }

  /** The range the config declares for the project. */
  function VersionRange(ctx: Context, projectId: string): Option<string>
  {
    FindVersion(ctx.configProjects, projectId)
  }

  /** Whether the lock check gets past its two early exits to the comparison. */
  predicate ComparesWithLock(meta: ProjectVersionMeta, ctx: Context, sem: SemverOps)
  {
    !sem.isLatest(meta.version) && !Blank(VersionOnDisk(ctx, meta.projectId))
  }

  /**
   * `checkVersionLock`: "latest" and a project never synced pass; otherwise
   * the requested version is compared with the locked one.  The same or an
   * older version is skipped; a newer one passes for the root and is put to
   * the user for a dependency; no comparison at all is an error.
   */
  function CheckVersionLock(meta: ProjectVersionMeta, isRoot: bool, ctx: Context, opts: Options,
                            sem: SemverOps, confirm: Confirm, asked: nat): (c: Checked)
    ensures !ComparesWithLock(meta, ctx, sem) ==> c == Checked(Ok(true), [])
    ensures c.verdict.Err? <==>
              ComparesWithLock(meta, ctx, sem) && !Comparable(sem, meta.version, VersionOnDisk(ctx, meta.projectId).value)
    ensures c.verdict.Err? ==>
              c.verdict.error == VersionCompareFailed(meta.projectId, meta.version, VersionOnDisk(ctx, meta.projectId).value)
    ensures ComparesWithLock(meta, ctx, sem) ==>
              var onDisk := VersionOnDisk(ctx, meta.projectId).value;
              (sem.eq(meta.version, onDisk) || sem.lt(meta.version, onDisk)) ==> c == Checked(Ok(false), [])
    ensures ComparesWithLock(meta, ctx, sem) ==>
              var onDisk := VersionOnDisk(ctx, meta.projectId).value;
              var p := Prompt(UpgradeDependency(meta.projectId, meta.version), opts.yes, Unspecified);
              !sem.eq(meta.version, onDisk) && !sem.lt(meta.version, onDisk) && sem.gt(meta.version, onDisk) ==>
                c == (if isRoot then Checked(Ok(true), []) else Checked(Ok(confirm(asked, p)), [p]))
    ensures c.verdict.Err? || isRoot ==> c.prompts == []
    ensures |c.prompts| <= 1
    ensures forall p :: p in c.prompts ==> p == Prompt(UpgradeDependency(meta.projectId, meta.version), opts.yes, Unspecified)
    ensures c.prompts != [] ==> c.verdict == Ok(confirm(asked, c.prompts[0]))
    ensures c.verdict == Ok(true) ==> AllConfirmed(confirm, asked, c.prompts)
  {
    var onDisk := VersionOnDisk(ctx, meta.projectId);
    if sem.isLatest(meta.version) then Checked(Ok(true), [])
    else if Blank(onDisk) then Checked(Ok(true), [])
    else if sem.eq(meta.version, onDisk.value) then Checked(Ok(false), [])
    else if sem.lt(meta.version, onDisk.value) then Checked(Ok(false), [])
    else if sem.gt(meta.version, onDisk.value) then
      if isRoot then Checked(Ok(true), [])
      else
        var p := Prompt(UpgradeDependency(meta.projectId, meta.version), opts.yes, Unspecified);
        Checked(Ok(confirm(asked, p)), [p])
    else Checked(Err(VersionCompareFailed(meta.projectId, meta.version, onDisk.value)), [])
  }

  /**
   * `checkVersionRange`: a project with no declared range passes silently
   * when it is the root's project and is put to the user otherwise; a
   * version in the declared range passes; one outside it is put to the user
   * with "no" as the default answer.
   */
  function CheckVersionRange(meta: ProjectVersionMeta, root: ProjectVersionMeta, ctx: Context, opts: Options,
                             sem: SemverOps, confirm: Confirm, asked: nat): (c: Checked)
    ensures c.verdict.Ok?
    ensures |c.prompts| <= 1
    ensures c.prompts != [] ==> c.verdict == Ok(confirm(asked, c.prompts[0]))
    ensures c.verdict == Ok(true) ==> AllConfirmed(confirm, asked, c.prompts)
    ensures c.prompts == [] ==> c.verdict == Ok(true)
    ensures meta.projectId == root.projectId ==> NoNewDependencyPrompt(c.prompts)
    ensures NoUpgradePrompt(c.prompts)
    ensures !Blank(VersionRange(ctx, meta.projectId)) && sem.satisfies(meta.version, VersionRange(ctx, meta.projectId).value) ==>
              c == Checked(Ok(true), [])
    ensures Blank(VersionRange(ctx, meta.projectId)) && meta.projectId == root.projectId ==> c == Checked(Ok(true), [])
    ensures Blank(VersionRange(ctx, meta.projectId)) && meta.projectId != root.projectId ==>
              var p := Prompt(SyncNewDependency(root.projectId, meta.projectId, meta.version), opts.yes, Unspecified);
              c == Checked(Ok(confirm(asked, p)), [p])
    ensures !Blank(VersionRange(ctx, meta.projectId)) && !sem.satisfies(meta.version, VersionRange(ctx, meta.projectId).value) ==>
              var p := Prompt(ForceOutOfRange, opts.force, AnswerNo);
              c == Checked(Ok(confirm(asked, p)), [p])
    ensures forall p :: p in c.prompts ==>
              if Blank(VersionRange(ctx, meta.projectId))
              then p == Prompt(SyncNewDependency(root.projectId, meta.projectId, meta.version), opts.yes, Unspecified)
              else p == Prompt(ForceOutOfRange, opts.force, AnswerNo)
  {
    var range := VersionRange(ctx, meta.projectId);
    if Blank(range) then
      if meta.projectId == root.projectId then Checked(Ok(true), [])
      else
        var p := Prompt(SyncNewDependency(root.projectId, meta.projectId, meta.version), opts.yes, Unspecified);
        Checked(Ok(confirm(asked, p)), [p])
    else if sem.satisfies(meta.version, range.value) then Checked(Ok(true), [])
    else
      var p := Prompt(ForceOutOfRange, opts.force, AnswerNo);
      Checked(Ok(confirm(asked, p)), [p])
  }

  /**
   * `checkProjectMeta`: the lock check, then (only when it passed) the range
   * check; the project is synced when both pass.  `isRoot` stands for the
   * identity test `meta === root`.
   */
  function CheckProjectMeta(meta: ProjectVersionMeta, root: ProjectVersionMeta, isRoot: bool, ctx: Context, opts: Options,
                            sem: SemverOps, confirm: Confirm, asked: nat): (c: Checked)
    ensures c.verdict.Err? ==> c.prompts == []
    ensures |c.prompts| <= 2
    ensures c.verdict == Ok(true) ==> AllConfirmed(confirm, asked, c.prompts)
    ensures isRoot ==> NoUpgradePrompt(c.prompts)
    ensures meta.projectId == root.projectId ==> NoNewDependencyPrompt(c.prompts)
    ensures var lock := CheckVersionLock(meta, isRoot, ctx, opts, sem, confirm, asked);
            c.verdict == Ok(true) <==>
              lock.verdict == Ok(true) && CheckVersionRange(meta, root, ctx, opts, sem, confirm, asked + |lock.prompts|).verdict == Ok(true)
    ensures var lock := CheckVersionLock(meta, isRoot, ctx, opts, sem, confirm, asked);
            lock.verdict != Ok(true) ==> c == lock
    ensures var lock := CheckVersionLock(meta, isRoot, ctx, opts, sem, confirm, asked);
            var range := CheckVersionRange(meta, root, ctx, opts, sem, confirm, asked + |lock.prompts|);
            lock.verdict == Ok(true) ==> c == Checked(range.verdict, lock.prompts + range.prompts)
  {
    var lock := CheckVersionLock(meta, isRoot, ctx, opts, sem, confirm, asked);
    if lock.verdict != Ok(true) then lock
    else
      var range := CheckVersionRange(meta, root, ctx, opts, sem, confirm, asked + |lock.prompts|);
      Checked(range.verdict, lock.prompts + range.prompts)
  }

  /**
   * "latest", or a project never synced: the lock check passes without a
   * prompt, and the verdict is the range check's alone.
   */
  lemma UnlockedDefersToRange(meta: ProjectVersionMeta, root: ProjectVersionMeta, isRoot: bool, ctx: Context, opts: Options,
                              sem: SemverOps, confirm: Confirm, asked: nat)
    requires sem.isLatest(meta.version) || Blank(VersionOnDisk(ctx, meta.projectId))
    ensures CheckProjectMeta(meta, root, isRoot, ctx, opts, sem, confirm, asked)
            == CheckVersionRange(meta, root, ctx, opts, sem, confirm, asked)
  {
    assert [] + CheckVersionRange(meta, root, ctx, opts, sem, confirm, asked).prompts
           == CheckVersionRange(meta, root, ctx, opts, sem, confirm, asked).prompts;
  }

  /** The same or an older version than the locked one is skipped without a prompt, for the root and for a dependency alike. */
  lemma SameOrOlderSkipped(meta: ProjectVersionMeta, root: ProjectVersionMeta, isRoot: bool, ctx: Context, opts: Options,
                           sem: SemverOps, confirm: Confirm, asked: nat)
    requires ComparesWithLock(meta, ctx, sem)
    requires var onDisk := VersionOnDisk(ctx, meta.projectId).value;
             sem.eq(meta.version, onDisk) || sem.lt(meta.version, onDisk)
    ensures CheckProjectMeta(meta, root, isRoot, ctx, opts, sem, confirm, asked) == Checked(Ok(false), [])
  {
  }

  /** A newer version of the root passes the lock check silently: the verdict is the range check's. */
  lemma NewerRootDefersToRange(meta: ProjectVersionMeta, root: ProjectVersionMeta, ctx: Context, opts: Options,
                               sem: SemverOps, confirm: Confirm, asked: nat)
    requires ComparesWithLock(meta, ctx, sem)
    requires var onDisk := VersionOnDisk(ctx, meta.projectId).value;
             !sem.eq(meta.version, onDisk) && !sem.lt(meta.version, onDisk) && sem.gt(meta.version, onDisk)
    ensures CheckProjectMeta(meta, root, true, ctx, opts, sem, confirm, asked)
            == CheckVersionRange(meta, root, ctx, opts, sem, confirm, asked)
  {
    assert [] + CheckVersionRange(meta, root, ctx, opts, sem, confirm, asked).prompts
           == CheckVersionRange(meta, root, ctx, opts, sem, confirm, asked).prompts;
  }

  /**
   * A newer version of a dependency is put to the user first, with `yes`
   * as the assumed answer; a "no" skips it, a "yes" leaves the verdict to
   * the range check, which numbers its prompt after this one.
   */
  lemma NewerDependencyAsks(meta: ProjectVersionMeta, root: ProjectVersionMeta, ctx: Context, opts: Options,
                            sem: SemverOps, confirm: Confirm, asked: nat)
    requires ComparesWithLock(meta, ctx, sem)
    requires var onDisk := VersionOnDisk(ctx, meta.projectId).value;
             !sem.eq(meta.version, onDisk) && !sem.lt(meta.version, onDisk) && sem.gt(meta.version, onDisk)
    ensures var p := Prompt(UpgradeDependency(meta.projectId, meta.version), opts.yes, Unspecified);
            var c := CheckProjectMeta(meta, root, false, ctx, opts, sem, confirm, asked);
            var range := CheckVersionRange(meta, root, ctx, opts, sem, confirm, asked + 1);
            if confirm(asked, p) then c == Checked(range.verdict, [p] + range.prompts)
            else c == Checked(Ok(false), [p])
  {
  }

  /** Versions that none of `eq`, `lt`, `gt` relates make the check throw, before any prompt. */
  lemma IncomparableThrows(meta: ProjectVersionMeta, root: ProjectVersionMeta, isRoot: bool, ctx: Context, opts: Options,
                           sem: SemverOps, confirm: Confirm, asked: nat)
    requires ComparesWithLock(meta, ctx, sem)
    requires !Comparable(sem, meta.version, VersionOnDisk(ctx, meta.projectId).value)
    ensures CheckProjectMeta(meta, root, isRoot, ctx, opts, sem, confirm, asked)
            == Checked(Err(VersionCompareFailed(meta.projectId, meta.version, VersionOnDisk(ctx, meta.projectId).value)), [])
  {
  }

  /** With a semver order that compares every two versions, the check never throws. */
  lemma TotalOrderNeverThrows(meta: ProjectVersionMeta, root: ProjectVersionMeta, isRoot: bool, ctx: Context, opts: Options,
                              sem: SemverOps, confirm: Confirm, asked: nat)
    requires forall v, w :: Comparable(sem, v, w)
    ensures CheckProjectMeta(meta, root, isRoot, ctx, opts, sem, confirm, asked).verdict.Ok?
  {
    if ComparesWithLock(meta, ctx, sem) {
      assert Comparable(sem, meta.version, VersionOnDisk(ctx, meta.projectId).value);
    }
  }

  /**
   * The range check in the cases that ask: no declared range for a project
   * other than the root's asks whether to sync it, with `yes` assumed; a
   * version outside the declared range asks whether to force it, with
   * `force` assumed and "no" as the default.  Either way the answer is the
   * verdict.
   */
  lemma RangeAsks(meta: ProjectVersionMeta, root: ProjectVersionMeta, ctx: Context, opts: Options,
                  sem: SemverOps, confirm: Confirm, asked: nat)
    requires var range := VersionRange(ctx, meta.projectId);
             if Blank(range) then meta.projectId != root.projectId else !sem.satisfies(meta.version, range.value)
    ensures var p := if Blank(VersionRange(ctx, meta.projectId))
                     then Prompt(SyncNewDependency(root.projectId, meta.projectId, meta.version), opts.yes, Unspecified)
                     else Prompt(ForceOutOfRange, opts.force, AnswerNo);
            CheckVersionRange(meta, root, ctx, opts, sem, confirm, asked) == Checked(Ok(confirm(asked, p)), [p])
  {
  }

  /** The range check passes silently for the root's own project when no range is declared. */
  lemma RootProjectNeedsNoRange(meta: ProjectVersionMeta, root: ProjectVersionMeta, ctx: Context, opts: Options,
                                sem: SemverOps, confirm: Confirm, asked: nat)
    requires Blank(VersionRange(ctx, meta.projectId)) && meta.projectId == root.projectId
    ensures CheckVersionRange(meta, root, ctx, opts, sem, confirm, asked) == Checked(Ok(true), [])
  {
  }
}
