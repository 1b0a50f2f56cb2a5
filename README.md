# Sync-version resolution of the Plasmic CLI, modelled in Dafny

`plasmic sync` asks the Plasmic server to resolve the requested projects to
concrete versions. The server answers with a *version resolution*:

- the requested root project versions;
- a flat pool holding the metadata of every dependency version.

Each meta lists its own dependency edges as (projectId, version) pairs.
This project models the resolver that decides which of those project
versions the CLI syncs (`@plasmicapp/cli/src/utils/resolve-utils.ts`). It
has four parts:

- **The dependency walk** (`walkDependencyTree`). It runs a breadth-first
  walk from a root. Each edge is resolved to its meta in the pool by exact
  (projectId, version) match, and an edge with no entry in the pool is a
  fatal error. The module `DependencyWalk` holds the loop, proved equal to
  the recursive specification `Walk`. `DependencyWalkProofs` characterises
  `Walk` without its queue:
  - the result is the one sequence that starts at the root and continues
    with exactly what its own elements push, in order;
  - the walk throws exactly when a node it reaches has an edge that does
    not resolve;
  - the walk's length equals the size of the unfolded dependency tree;
  - every edge of the i-th node resolves to a later node.

  The walk does **not** deduplicate. A dependency reachable along two paths
  is emitted twice, and `DiamondEmitsTwice` proves this for a diamond.
  The walk keeps no visited set, so it returns only when no dependency cycle
  is reachable from the root; a missing edge met before a cycle repeats
  still ends it, with the error. The model asks for more: the whole pool,
  including entries no root reaches, must be free of cycles.
- **The per-project check** (`checkProjectMeta`, module `ProjectCheck`). It
  has two parts:
  - The lock check compares the requested version with the version last
    synced. "latest" and a never-synced project pass. The same or an older
    version is skipped. A newer version passes for the root, and for a
    dependency the user is asked. Versions that semver cannot order are a
    fatal error.
  - The range check compares the version with the range in the config. A
    project with no range passes when it is the root's own project, and
    otherwise the user is asked. A version inside the range passes. For a
    version outside it, the user is asked whether to force it, with "no" as
    the default.

  The verdict is `lock && range`. The range check runs only when the lock
  check passed.
- **The driver** (`checkVersionResolution`, modules `SyncResolution` and
  `ResolutionProofs`). For each root, its queue is either the root alone
  (non-recursive mode) or the walk reversed. Each meta whose pair is not yet
  *seen* is checked. It is kept when approved and is marked seen either
  way. An empty request is an error before anything else.
  `ResolutionProofs` proves:
  - When every walk succeeds, a run checks, in order, exactly the first
    occurrence of each pair among all the roots' candidates.
  - The sync list never names a pair twice.
  - In each queue, dependencies come before their dependents, and the root
    comes last, as the only candidate checked as the root.
- **`getDependencies`**. It returns the edges of the first requested project
  with the pair, else those of the first pool entry with it, else nothing.

The injected parts are modelled as follows:

- **Semver.** Semver is a datatype of five injected operations (`SemverOps`:
  `isLatest`, `eq`, `lt`, `gt`, `satisfies`). This keeps the "cannot
  compare" branch reachable. `TotalOrderNeverThrows` shows the branch is dead
  for a total order.
- **The user.** The user is a function `Confirm` from (number of prompts
  already issued in the run, prompt) to the answer. Every check returns the
  prompts it issued, with the question, the `yes`/`force` value passed as
  the assumed answer, and the default. This lets contracts state who is
  asked what, in which order, and which answers decide the verdict.
  `user-utils.ts` is not part of this model.
- **Identity.** The source tests `meta === root` by object identity. The
  model passes an explicit flag, `isRoot`. The driver sets it exactly for
  the last entry of a queue, which is the root object itself: the walk's
  first element, or the root in non-recursive mode. The model assumes that
  no pool entry is the root object itself, as holds when both lists come
  from one decoded response.

Two behaviours of the code are easy to expect otherwise:

- The walk emits a node once per path that reaches it. There is no
  first-discovery deduplication inside the walk; the driver's `seen` list
  removes repeats.
- "latest" bypasses only the lock check. The range check still applies, and
  may prompt (`UnlockedDefersToRange`).

## Model

| member | source | states |
|---|---|---|
| ResolveTypes.FindIndex | @plasmicapp/cli/src/utils/resolve-utils.ts:26-28 | `find` by (projectId, version): the index of the first matching entry, and none exactly when no entry matches |
| ResolveTypes.FindRecord | @plasmicapp/cli/src/utils/resolve-utils.ts:81-84 | `find` by projectId over lock or config entries: the first entry with that id, none exactly when there is none |
| ResolveTypes.FindVersion | @plasmicapp/cli/src/utils/resolve-utils.ts:81-84 | the version of the first lock (or config) entry for the project; none exactly when no entry has that id |
| ResolveTypes.Blank | @plasmicapp/cli/src/utils/resolve-utils.ts:91 | JavaScript falsiness of an optional version string: absent, or present and empty |
| DependencyWalk.Lookup | @plasmicapp/cli/src/utils/resolve-utils.ts:25-35 | `getMeta`: a found meta is a pool entry with exactly the requested pair |
| DependencyWalkProofs.LookupIsFirstMatch | @plasmicapp/cli/src/utils/resolve-utils.ts:25-35 | `getMeta` gives the first pool entry with the pair, and throws exactly when no entry has it |
| DependencyWalk.Children | @plasmicapp/cli/src/utils/resolve-utils.ts:40-44 | resolving a node's edges in key order: succeeds exactly when every edge resolves, the i-th result being the i-th edge's meta; otherwise throws `MissingMeta` for the first edge that does not resolve |
| DependencyWalk.Expand | @plasmicapp/cli/src/utils/resolve-utils.ts:37-45 | what a run of nodes pushes: one pool entry per edge, in order |
| DependencyWalk.WalkDependencyTree | @plasmicapp/cli/src/utils/resolve-utils.ts:18-48 | the queue loop (shift, push to result, push the resolved edges) returns or throws exactly what the walk specification `Walk` does |
| DependencyWalkProofs.WalkSucceeds | @plasmicapp/cli/src/utils/resolve-utils.ts:37-47 | a walk that returns gives a sequence that starts at the root and whose tail is exactly what its nodes push; one that throws stopped at a reached node whose edges do not resolve |
| DependencyWalkProofs.WalkReturnsIff | @plasmicapp/cli/src/utils/resolve-utils.ts:18-48 | the walk returns `r` if and only if `r` starts at the root and is followed by exactly what its own nodes push, in FIFO order |
| DependencyWalkProofs.WalkThrowsIff | @plasmicapp/cli/src/utils/resolve-utils.ts:25-44 | the walk throws if and only if a node it gets to emit has an edge missing from the pool, and the error names that node's first missing edge |
| DependencyWalkProofs.WalkOfIsUnique | @plasmicapp/cli/src/utils/resolve-utils.ts:37-47 | at most one sequence is a walk of a root: the result is determined by root and pool |
| DependencyWalkProofs.WalkSize | @plasmicapp/cli/src/utils/resolve-utils.ts:37-47 | a walk has one node more than the edges of its nodes, which is the size of the unfolded dependency tree |
| DependencyWalkProofs.EmittedIsPrefix | @plasmicapp/cli/src/utils/resolve-utils.ts:37-45 | every sequence of nodes the loop gets to emit is a prefix of the final walk |
| DependencyWalkProofs.EmittedBound | @plasmicapp/cli/src/utils/resolve-utils.ts:37-45 | the loop emits no more nodes than the unfolded tree has, so it stops on an acyclic pool |
| DependencyWalkProofs.EmittedInPool | @plasmicapp/cli/src/utils/resolve-utils.ts:37-45 | everything emitted is the root or a pool entry |
| DependencyWalkProofs.ChildrenFollowParent | @plasmicapp/cli/src/utils/resolve-utils.ts:40-44 | the j-th edge of the i-th node of a walk resolves to the node at position 1 + (edges of the nodes before i) + j, which comes after i |
| DependencyWalkProofs.DiamondShape | @plasmicapp/cli/src/utils/resolve-utils.ts:37-45 | for a root with edges to a and b that both depend on c, the sequence root, a, b, c, c is a walk |
| DependencyWalkProofs.DiamondEmitsTwice | @plasmicapp/cli/src/utils/resolve-utils.ts:37-45 | on a diamond the walk returns root, a, b, c, c: a shared dependency is emitted once per path, without deduplication |
| DependencyWalkProofs.DiamondWalk | @plasmicapp/cli/src/utils/resolve-utils.ts:37-45 | on the concrete pool a@1, b@1, c@1 with root r@1, the walk returns r, a, b, c, c |
| ProjectCheck.CheckVersionLock | @plasmicapp/cli/src/utils/resolve-utils.ts:80-145 | "latest" or nothing locked passes silently; equal or older is skipped silently; throws exactly when the versions cannot be compared; a newer version passes silently for the root, and for a dependency issues exactly the upgrade prompt with `yes` as the assumed answer, whose answer is the verdict |
| ProjectCheck.CheckVersionRange | @plasmicapp/cli/src/utils/resolve-utils.ts:148-177 | never throws; in range passes silently; no range passes silently for the root's project and otherwise issues exactly the "never synced" prompt with `yes` assumed; out of range issues exactly the force prompt with `force` assumed and default "no"; the answer to the one prompt is the verdict |
| ProjectCheck.CheckProjectMeta | @plasmicapp/cli/src/utils/resolve-utils.ts:179 | a lock approval is followed by the range check, numbered after the lock's prompts, whose verdict is the result and whose prompts follow the lock's; a lock verdict other than approval is the result as is; so it approves exactly when both do, and an approval means every prompt issued was answered yes |
| ProjectCheck.UnlockedDefersToRange | @plasmicapp/cli/src/utils/resolve-utils.ts:86-94 | for "latest" or a never-synced project the whole check is the range check |
| ProjectCheck.SameOrOlderSkipped | @plasmicapp/cli/src/utils/resolve-utils.ts:97-121 | an equal or older version than the locked one is skipped without a prompt, for roots and dependencies alike |
| ProjectCheck.NewerRootDefersToRange | @plasmicapp/cli/src/utils/resolve-utils.ts:123-126 | a newer version of the root passes the lock check silently |
| ProjectCheck.NewerDependencyAsks | @plasmicapp/cli/src/utils/resolve-utils.ts:127-137 | a newer dependency prompts to upgrade; "no" skips it, "yes" leads to the range check, prompted after it |
| ProjectCheck.IncomparableThrows | @plasmicapp/cli/src/utils/resolve-utils.ts:140-144 | versions that none of eq, lt, gt relate throw the comparison error without a prompt |
| ProjectCheck.TotalOrderNeverThrows | @plasmicapp/cli/src/utils/resolve-utils.ts:96-144 | with a semver order that relates every two versions, the check never throws |
| ProjectCheck.RangeAsks | @plasmicapp/cli/src/utils/resolve-utils.ts:153-176 | the two prompting cases of the range check: which question, which assumed answer and default, and that the answer is the verdict |
| ProjectCheck.RootProjectNeedsNoRange | @plasmicapp/cli/src/utils/resolve-utils.ts:154-156 | a project with the root's id and no declared range passes silently |
| SyncResolution.Reversed | @plasmicapp/cli/src/utils/resolve-utils.ts:205 | reversing keeps the length |
| SyncResolution.ReversedAt | @plasmicapp/cli/src/utils/resolve-utils.ts:205 | entry k of the reversed walk is entry length-1-k of the walk |
| SyncResolution.Tag | @plasmicapp/cli/src/utils/resolve-utils.ts:202-206 | each queue entry is checked against its root, and only the last one as the root itself |
| SyncResolution.Reconcile | @plasmicapp/cli/src/utils/resolve-utils.ts:206-218 | the inner loop only appends: `seen`, `result` and the prompts issued before it are prefixes of those after it, whether it throws or not |
| SyncResolution.ResolveRoots | @plasmicapp/cli/src/utils/resolve-utils.ts:202-219 | the outer loop only appends, in the same sense |
| SyncResolution.Resolution | @plasmicapp/cli/src/utils/resolve-utils.ts:193-198 | a run fails with "nothing to sync" exactly when no project was requested |
| SyncResolution.ResolveRootsNeverNothing | @plasmicapp/cli/src/utils/resolve-utils.ts:200-219 | once the loops start, no walk and no check throws "nothing to sync" |
| SyncResolution.WalkNeverNothing | @plasmicapp/cli/src/utils/resolve-utils.ts:29-33 | the only error a walk throws is a missing meta |
| SyncResolution.BfsErrorsAreMissing | @plasmicapp/cli/src/utils/resolve-utils.ts:37-45 | every error of the walk loop is a missing meta |
| SyncResolution.ReconcileThrowsCompare | @plasmicapp/cli/src/utils/resolve-utils.ts:213 | the only error a check in the inner loop throws is a version comparison failure |
| SyncResolution.CheckVersionResolution | @plasmicapp/cli/src/utils/resolve-utils.ts:188-223 | the two nested loops over roots and queues, with `seen` and `result`, return or throw exactly the outcome of the run `Resolution`, and issue exactly its prompts |
| SyncResolution.GetDependencies | @plasmicapp/cli/src/utils/resolve-utils.ts:225-237 | the edges of the first requested project with the pair, else of the first pool entry with it; nothing exactly when neither list has the pair |
| SyncResolution.FindIndexIsFirstMatch | @plasmicapp/cli/src/utils/resolve-utils.ts:230-234 | `find` returns index i exactly when entry i is the first match, and nothing exactly when no entry matches |
| ResolutionProofs.ReconcileIsCheckAll | @plasmicapp/cli/src/utils/resolve-utils.ts:206-218 | the inner loop checks exactly the candidates of its queue whose pair is neither seen nor taken earlier, in order |
| ResolutionProofs.CheckAllAppend | @plasmicapp/cli/src/utils/resolve-utils.ts:202-219 | checking two runs of candidates is checking the first and, unless it threw, the second from where it stopped |
| ResolutionProofs.CheckAllSeen | @plasmicapp/cli/src/utils/resolve-utils.ts:216 | a run of checks that does not throw marks every checked meta seen, in order, whatever the verdicts |
| ResolutionProofs.FreshAppend | @plasmicapp/cli/src/utils/resolve-utils.ts:206-218 | the unseen candidates of two queues are those of the first, then those of the second given what the first added |
| ResolutionProofs.ResolveRootsIsCheckAll | @plasmicapp/cli/src/utils/resolve-utils.ts:202-219 | when every walk succeeds, the outer loop checks the unseen candidates of all roots, in order |
| ResolutionProofs.SeenIff | @plasmicapp/cli/src/utils/resolve-utils.ts:208-211 | the `seen.find` test `Seen` holds exactly when some seen meta has the same (projectId, version) pair |
| ResolutionProofs.SeenAppend | @plasmicapp/cli/src/utils/resolve-utils.ts:209-211 | a pair is in a concatenation of seen lists exactly when it is in one of them |
| ResolutionProofs.FreshCovers | @plasmicapp/cli/src/utils/resolve-utils.ts:208-216 | checking only the unseen candidates marks exactly the same pairs seen as checking all of them would |
| ResolutionProofs.FirstIsUnseen | @plasmicapp/cli/src/utils/resolve-utils.ts:208-211 | a candidate is the first occurrence of its pair exactly when the candidates before it do not have the pair |
| ResolutionProofs.FreshIsFirstOccurrences | @plasmicapp/cli/src/utils/resolve-utils.ts:200-219 | deduplicating through `seen` from an empty list keeps exactly the first occurrence of each pair, in order (reference definition `FirstOccurrences`) |
| ResolutionProofs.FreshIsDistinct | @plasmicapp/cli/src/utils/resolve-utils.ts:208-216 | the candidates actually checked avoid the pairs already seen and have pairwise different pairs |
| ResolutionProofs.FirstOccurrencesAreDistinct | @plasmicapp/cli/src/utils/resolve-utils.ts:221-222 | the first occurrences have pairwise different pairs |
| ResolutionProofs.ResolutionChecksFirstOccurrences | @plasmicapp/cli/src/utils/resolve-utils.ts:188-223 | when every walk succeeds a run is the plain in-order check of the first occurrences of all candidates; when a walk throws, the run throws that error or an earlier comparison error |
| ResolutionProofs.ResolveRootsThrows | @plasmicapp/cli/src/utils/resolve-utils.ts:202-205 | if some root's walk throws, the outer loop throws that error or an earlier comparison failure |
| ResolutionProofs.RecordKeepsConsistent | @plasmicapp/cli/src/utils/resolve-utils.ts:213-216 | marking an unseen meta seen (and keeping it when approved) keeps `seen` and `result` free of repeated pairs, with `result` inside `seen` |
| ResolutionProofs.ReconcileKeepsConsistent | @plasmicapp/cli/src/utils/resolve-utils.ts:206-218 | the inner loop keeps that invariant, also when it throws |
| ResolutionProofs.ResolveRootsKeepsConsistent | @plasmicapp/cli/src/utils/resolve-utils.ts:202-219 | the outer loop keeps that invariant |
| ResolutionProofs.ResolutionNeverRepeats | @plasmicapp/cli/src/utils/resolve-utils.ts:221-222 | the list returned to sync never names the same (projectId, version) twice |
| ResolutionProofs.NonRecursiveGroup | @plasmicapp/cli/src/utils/resolve-utils.ts:203-204 | in non-recursive mode a root's queue is the root alone, checked as the root |
| ResolutionProofs.GroupDependenciesFirst | @plasmicapp/cli/src/utils/resolve-utils.ts:203-205 | in recursive mode a root's queue ends with the root, the only candidate checked as the root, and every dependency edge of a candidate resolves to a meta earlier in the queue |
| ResolutionProofs.ReversedWalkEdge | @plasmicapp/cli/src/utils/resolve-utils.ts:205 | in the reversed walk, each edge of an entry resolves to an earlier entry |
| ProjectNames.FindConfig | @plasmicapp/cli/src/utils/resolve-utils.ts:69-71 | the first config entry for a project id, none exactly when there is none |
| ProjectNames.GetNameAsWritten | @plasmicapp/cli/src/utils/resolve-utils.ts:68-77 | the helper as written: the id of the project under check when the project asked about has no config entry, and otherwise the same quoted name as the intended helper |
| ProjectNames.GetName | @plasmicapp/cli/src/utils/resolve-utils.ts:68-77 | intended naming: the quoted config name of the first entry for the project asked about, else that project's own id |
| ProjectNames.AsWrittenNamesTheCheckedProject | @plasmicapp/cli/src/utils/resolve-utils.ts:74-76 | as written, a root without a config entry gets the same name as the project under check, namely that project's id |
| ProjectNames.AsWrittenCounterexample | @plasmicapp/cli/src/utils/resolve-utils.ts:74-76 | with no config entries, root "r" is named "d" while checking "d" |
| ProjectNames.GetNameDistinguishesUnconfigured | @plasmicapp/cli/src/utils/resolve-utils.ts:68-77 | intended naming never gives two different unconfigured projects the same name |
| ProjectNames.AsWrittenAgreesOnConfigured | @plasmicapp/cli/src/utils/resolve-utils.ts:68-77 | as written and intended agree exactly on configured projects and on the project under check |

`SyncResolution.GroupOf` (203-205), `SyncResolution.Seen` (208-211),
`SyncResolution.CheckOne` (213) and `SyncResolution.Record` (213-216) are
definitions without contracts of their own. The rows of `NonRecursiveGroup`
and `GroupDependenciesFirst`, `SeenIff`, `ReconcileIsCheckAll` and
`RecordKeepsConsistent` state what they mean.

## Findings

| source | as written | input that shows it | evidently intended | confidence | as-written member | corrected member |
|---|---|---|---|---|---|---|
| @plasmicapp/cli/src/utils/resolve-utils.ts:74-76 | `getName(pid)` falls back to the id of the project under check, not to `pid` | a root with no config entry, while a dependency `d` is checked: `getName(root.projectId)` is `d`, so the messages read "d uses d@v" | fall back to `pid` itself | high, not executed | ProjectNames.AsWrittenNamesTheCheckedProject | ProjectNames.GetNameDistinguishesUnconfigured |

Outside `ProjectNames`, the model names projects by their own ids: a
prompt's `Question` carries `rootId` and `projectId`. For a project without
a config entry, this is what the corrected `GetName` gives, and never the
as-written fallback.

## Left out

- Log messages and the prompts' text are left out; a prompt is its `Question` with the ids it names. `getName` is modelled on its own in `ProjectNames`.
- Semver parsing and comparison are left out: the five operations are parameters of every check.
- `confirmWithUser` and the terminal are left out; answers are the `Confirm` parameter. `user-utils.ts` is not part of this model.
- The asynchrony of the checks (`async`/`await`) is left out, because the checks run strictly one after another.
- Loading `plasmic.json` and `plasmic.lock` (`PlasmicContext`), and the server call that builds the resolution, are left out. Only the fields the resolver reads are modelled: project ids, versions and dependency edges.
- The `dependencies` object of a meta is modelled as a sequence of edges, in the order of its keys.
- Object identity: `meta === root` becomes the `isRoot` flag, which holds exactly for the queue's last entry. The model assumes that no pool entry is the root object itself.
- `.reverse()` mutates the walk's array in place; it is modelled as the pure `Reversed` of the returned sequence, which nothing else holds.
- DependencyWalk.WalkDependencyTree: requires a rank that decreases along every resolvable edge from every pool entry, reachable from the root or not, and from the root. The source's loop ends whenever no cycle is reachable from the root; the model says nothing about a pool with a cycle anywhere, even one no root reaches, and nothing about the non-terminating case.
- SyncResolution.CheckVersionResolution: carries the same whole-pool acyclicity requirement, unless the mode is non-recursive or no project was requested.
- The `HandledError` class and the message of every thrown error are left out; errors are the `Error` datatype, with the ids and versions they report.
