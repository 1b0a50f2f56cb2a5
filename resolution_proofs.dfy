/**
 * What the driver computes, stated without its `seen` list: when every walk
 * succeeds, a run checks, in order, exactly the first occurrence of each
 * (projectId, version) pair among all the candidates of all the roots, and
 * keeps the approved ones.
 */
module ResolutionProofs {
  import opened ResolveTypes
  import opened DependencyWalk
  import opened DependencyWalkProofs
  import opened ProjectCheck
  import opened SyncResolution

  function Metas(cs: seq<Candidate>): (ms: seq<ProjectVersionMeta>)
    ensures |ms| == |cs| && forall i :: 0 <= i < |cs| ==> ms[i] == cs[i].meta
  {
    seq(|cs|, i requires 0 <= i < |cs| => cs[i].meta)
  }

  lemma MetasCons(cs: seq<Candidate>)
    requires cs != []
    ensures Metas(cs) == [cs[0].meta] + Metas(cs[1..])
  {
  }

  /** All candidates of the given roots, root after root; the first walk that throws decides the error. */
  ghost function Candidates(vr: VersionResolution, roots: seq<ProjectVersionMeta>, opts: Options, rank: ProjectVersionMeta -> nat): Result<seq<Candidate>>
    requires !opts.nonRecursive ==> Acyclic(vr.dependencies, rank) && forall i :: 0 <= i < |roots| ==> Descends(vr.dependencies, rank, roots[i])
  {
    if roots == [] then Ok([])
    else match GroupOf(vr, roots[0], opts, rank)
      case Err(e) => Err(e)
      case Ok(g) =>
        match Candidates(vr, roots[1..], opts, rank)
        case Err(e) => Err(e)
        case Ok(rest) => Ok(g + rest)
  }

  /** The candidates whose pair is neither in `seen` nor taken earlier, in order. */
  function Fresh(cs: seq<Candidate>, seen: seq<ProjectVersionMeta>): seq<Candidate>
  {
    if cs == [] then []
    else if Seen(seen, cs[0].meta) then Fresh(cs[1..], seen)
    else [cs[0]] + Fresh(cs[1..], seen + [cs[0].meta])
  }

  /** Checking candidates in order without any deduplication, keeping the approved ones. */
  function CheckAll(cs: seq<Candidate>, st: State, ctx: Context, opts: Options, sem: SemverOps, confirm: Confirm): Run
  {
    if cs == [] then Run(None, st)
    else
      var k := CheckOne(cs[0], st, ctx, opts, sem, confirm);
      match k.verdict
      case Err(e) => Run(Some(e), State(st.seen, st.result, st.prompts + k.prompts))
      case Ok(ok) => CheckAll(cs[1..], Record(cs[0], st, k, ok), ctx, opts, sem, confirm)
  }

  /** No earlier candidate has the pair of candidate `i`. */
  predicate IsFirst(cs: seq<Candidate>, i: int)
    requires 0 <= i < |cs|
  {
    forall j :: 0 <= j < i ==> !SamePair(cs[j].meta, cs[i].meta)
  }

  /** Reference definition: the candidates that are the first occurrence of their pair, in order. */
  function FirstOccurrences(cs: seq<Candidate>): seq<Candidate>
  {
    if cs == [] then []
    else FirstOccurrences(cs[..|cs| - 1]) + (if IsFirst(cs, |cs| - 1) then [cs[|cs| - 1]] else [])
  }

  /** The inner loop checks the fresh candidates of its queue, in order. */
  lemma {:induction false} ReconcileIsCheckAll(g: seq<Candidate>, st: State, ctx: Context, opts: Options, sem: SemverOps, confirm: Confirm)
    ensures Reconcile(g, st, ctx, opts, sem, confirm) == CheckAll(Fresh(g, st.seen), st, ctx, opts, sem, confirm)
  {
    if g != [] && !Seen(st.seen, g[0].meta) {
      var rest := Fresh(g[1..], st.seen + [g[0].meta]);
      assert ([g[0]] + rest)[0] == g[0] && ([g[0]] + rest)[1..] == rest;
      var k := CheckOne(g[0], st, ctx, opts, sem, confirm);
      if k.verdict.Ok? {
        ReconcileIsCheckAll(g[1..], Record(g[0], st, k, k.verdict.value), ctx, opts, sem, confirm);
      }
    } else if g != [] {
      ReconcileIsCheckAll(g[1..], st, ctx, opts, sem, confirm);
    }
  }

  /** Checking two runs of candidates is checking the first, then (unless it threw) the second. */
  lemma {:induction false} CheckAllAppend(a: seq<Candidate>, b: seq<Candidate>, st: State, ctx: Context, opts: Options, sem: SemverOps, confirm: Confirm)
    ensures CheckAll(a + b, st, ctx, opts, sem, confirm)
            == (var r := CheckAll(a, st, ctx, opts, sem, confirm);
                if r.failure.Some? then r else CheckAll(b, r.state, ctx, opts, sem, confirm))
  {
    if a == [] {
      assert a + b == b;
    } else {
      assert (a + b)[0] == a[0] && (a + b)[1..] == a[1..] + b;
      var k := CheckOne(a[0], st, ctx, opts, sem, confirm);
      if k.verdict.Ok? {
        CheckAllAppend(a[1..], b, Record(a[0], st, k, k.verdict.value), ctx, opts, sem, confirm);
      }
    }
  }

  /** A check of candidates that does not throw adds all of them to `seen`. */
  lemma {:induction false} CheckAllSeen(cs: seq<Candidate>, st: State, ctx: Context, opts: Options, sem: SemverOps, confirm: Confirm)
    ensures CheckAll(cs, st, ctx, opts, sem, confirm).failure.None? ==>
              CheckAll(cs, st, ctx, opts, sem, confirm).state.seen == st.seen + Metas(cs)
  {
    if cs == [] {
      assert st.seen + Metas(cs) == st.seen;
    } else {
      var k := CheckOne(cs[0], st, ctx, opts, sem, confirm);
      if k.verdict.Ok? {
        var st' := Record(cs[0], st, k, k.verdict.value);
        assert st'.seen == st.seen + [cs[0].meta];
        CheckAllSeen(cs[1..], st', ctx, opts, sem, confirm);
        MetasCons(cs);
        Associative(st.seen, [cs[0].meta], Metas(cs[1..]));
      }
    }
  }

  /** The fresh candidates of two runs: those of the first, then those of the second given what the first took. */
  lemma {:induction false} FreshAppend(a: seq<Candidate>, b: seq<Candidate>, seen: seq<ProjectVersionMeta>)
    ensures Fresh(a + b, seen) == Fresh(a, seen) + Fresh(b, seen + Metas(Fresh(a, seen)))
  {
    if a == [] {
      assert a + b == b;
      assert seen + Metas([]) == seen;
    } else {
      assert (a + b)[0] == a[0] && (a + b)[1..] == a[1..] + b;
      if Seen(seen, a[0].meta) {
        FreshAppend(a[1..], b, seen);
      } else {
        var seen' := seen + [a[0].meta];
        FreshAppend(a[1..], b, seen');
        var f := Fresh(a[1..], seen');
        assert Fresh(a, seen) == [a[0]] + f;
        MetasCons([a[0]] + f);
        assert ([a[0]] + f)[1..] == f;
        Associative(seen, [a[0].meta], Metas(f));
        assert seen + Metas(Fresh(a, seen)) == seen' + Metas(f);
        Associative([a[0]], f, Fresh(b, seen' + Metas(f)));
      }
    }
  }

  /**
   * The outer loop, when every walk succeeds, checks the fresh candidates
   * of all the roots, in order.
   */
  lemma {:induction false} ResolveRootsIsCheckAll(vr: VersionResolution, roots: seq<ProjectVersionMeta>, st: State, ctx: Context, opts: Options,
                                                  sem: SemverOps, confirm: Confirm, rank: ProjectVersionMeta -> nat)
    requires !opts.nonRecursive ==> Acyclic(vr.dependencies, rank) && forall i :: 0 <= i < |roots| ==> Descends(vr.dependencies, rank, roots[i])
    requires Candidates(vr, roots, opts, rank).Ok?
    ensures ResolveRoots(vr, roots, st, ctx, opts, sem, confirm, rank)
            == CheckAll(Fresh(Candidates(vr, roots, opts, rank).value, st.seen), st, ctx, opts, sem, confirm)
  {
    if roots != [] {
      var g := GroupOf(vr, roots[0], opts, rank).value;
      var rest := Candidates(vr, roots[1..], opts, rank).value;
      var fg := Fresh(g, st.seen);
      ReconcileIsCheckAll(g, st, ctx, opts, sem, confirm);
      FreshAppend(g, rest, st.seen);
      CheckAllAppend(fg, Fresh(rest, st.seen + Metas(fg)), st, ctx, opts, sem, confirm);
      var r := CheckAll(fg, st, ctx, opts, sem, confirm);
      if r.failure.None? {
        CheckAllSeen(fg, st, ctx, opts, sem, confirm);
        ResolveRootsIsCheckAll(vr, roots[1..], r.state, ctx, opts, sem, confirm, rank);
      }
    }
  }

  /** `Seen` is "some entry has the pair". */
  lemma SeenIff(s: seq<ProjectVersionMeta>, m: ProjectVersionMeta)
    ensures Seen(s, m) <==> exists k :: 0 <= k < |s| && SamePair(s[k], m)
  {
  }

  lemma SeenAppend(a: seq<ProjectVersionMeta>, b: seq<ProjectVersionMeta>, m: ProjectVersionMeta)
    ensures Seen(a + b, m) <==> Seen(a, m) || Seen(b, m)
  {
    SeenIff(a + b, m);
    SeenIff(a, m);
    SeenIff(b, m);
    if Seen(a, m) {
      var k :| 0 <= k < |a| && SamePair(a[k], m);
      assert (a + b)[k] == a[k];
    }
    if Seen(b, m) {
      var k :| 0 <= k < |b| && SamePair(b[k], m);
      assert (a + b)[|a| + k] == b[k];
    }
    if Seen(a + b, m) {
      var k :| 0 <= k < |a + b| && SamePair((a + b)[k], m);
      if k < |a| {
        assert (a + b)[k] == a[k];
      } else {
        assert (a + b)[k] == b[k - |a|];
      }
    }
  }

  /** A pair in `s` is in `s` under any meta that has it. */
  lemma SeenSamePair(s: seq<ProjectVersionMeta>, a: ProjectVersionMeta, b: ProjectVersionMeta)
    requires Seen(s, a) && SamePair(a, b)
    ensures Seen(s, b)
  {
    SeenIff(s, a);
    SeenIff(s, b);
  }

  /** The fresh candidates add to `seen` exactly the pairs all the candidates would. */
  lemma {:induction false} FreshCovers(cs: seq<Candidate>, seen: seq<ProjectVersionMeta>, m: ProjectVersionMeta)
    ensures Seen(seen + Metas(Fresh(cs, seen)), m) <==> Seen(seen + Metas(cs), m)
  {
    if cs != [] {
      var c := cs[0].meta;
      MetasCons(cs);
      Associative(seen, [c], Metas(cs[1..]));
      if Seen(seen, c) {
        FreshCovers(cs[1..], seen, m);
        SeenAppend(seen + [c], Metas(cs[1..]), m);
        SeenAppend(seen, [c], m);
        SeenAppend(seen, Metas(cs[1..]), m);
        SeenIff([c], m);
        if Seen([c], m) {
          assert [c][0] == c;
          SeenSamePair(seen, c, m);
        }
      } else {
        var f := Fresh(cs[1..], seen + [c]);
        FreshCovers(cs[1..], seen + [c], m);
        assert Fresh(cs, seen) == [cs[0]] + f;
        MetasCons([cs[0]] + f);
        assert ([cs[0]] + f)[1..] == f;
        Associative(seen, [c], Metas(f));
      }
    }
  }

  /** Candidate `i` is a first occurrence exactly when the candidates before it do not have its pair. */
  lemma FirstIsUnseen(cs: seq<Candidate>, i: nat)
    requires i < |cs|
    ensures IsFirst(cs, i) <==> !Seen(Metas(cs[..i]), cs[i].meta)
  {
    SeenIff(Metas(cs[..i]), cs[i].meta);
    assert forall k :: 0 <= k < i ==> Metas(cs[..i])[k] == cs[k].meta;
  }

  /** Deduplicating against `seen` from an empty start keeps exactly the first occurrences. */
  lemma {:induction false} FreshIsFirstOccurrences(cs: seq<Candidate>)
    ensures Fresh(cs, []) == FirstOccurrences(cs)
    decreases |cs|
  {
    if cs != [] {
      var n := |cs| - 1;
      var init, x := cs[..n], cs[n];
      assert cs == init + [x];
      FreshIsFirstOccurrences(init);
      FreshAppend(init, [x], []);
      FreshCovers(init, [], x.meta);
      assert [] + Metas(init) == Metas(init);
      FirstIsUnseen(cs, n);
      assert [x][1..] == [];
    }
  }

  /** No two entries have the same (projectId, version) pair. */
  predicate DistinctPairs(ms: seq<ProjectVersionMeta>)
  {
    forall i, j :: 0 <= i < j < |ms| ==> !SamePair(ms[i], ms[j])
  }

  lemma DistinctSnoc(s: seq<ProjectVersionMeta>, m: ProjectVersionMeta)
    requires DistinctPairs(s) && !Seen(s, m)
    ensures DistinctPairs(s + [m])
  {
    SeenIff(s, m);
    forall i, j | 0 <= i < j < |s + [m]| ensures !SamePair((s + [m])[i], (s + [m])[j]) {
      assert (s + [m])[i] == s[i];
    }
  }

  /** The fresh candidates avoid `seen` and have pairwise different pairs. */
  lemma {:induction false} FreshIsDistinct(cs: seq<Candidate>, seen: seq<ProjectVersionMeta>)
    ensures forall i :: 0 <= i < |Fresh(cs, seen)| ==> !Seen(seen, Fresh(cs, seen)[i].meta)
    ensures DistinctPairs(Metas(Fresh(cs, seen)))
  {
    if cs != [] {
      var c := cs[0].meta;
      if Seen(seen, c) {
        FreshIsDistinct(cs[1..], seen);
      } else {
        FreshIsDistinct(cs[1..], seen + [c]);
        var f := Fresh(cs[1..], seen + [c]);
        assert Fresh(cs, seen) == [cs[0]] + f;
        forall i | 0 <= i < |f| ensures !Seen(seen, f[i].meta) && !SamePair(c, f[i].meta) {
          SeenAppend(seen, [c], f[i].meta);
          SeenIff([c], f[i].meta);
          assert [c][0] == c;
        }
        var ms := Metas([cs[0]] + f);
        forall i, j | 0 <= i < j < |ms| ensures !SamePair(ms[i], ms[j]) {
          assert ms[j] == f[j - 1].meta;
          if i > 0 {
            assert ms[i] == Metas(f)[i - 1];
            assert ms[j] == Metas(f)[j - 1];
          }
        }
      }
    }
  }

  /** The first occurrences of the candidates have pairwise different pairs. */
  lemma FirstOccurrencesAreDistinct(cs: seq<Candidate>)
    ensures DistinctPairs(Metas(FirstOccurrences(cs)))
  {
    FreshIsFirstOccurrences(cs);
    FreshIsDistinct(cs, []);
  }

  /**
   * Whole runs: when every walk succeeds, a run checks the first occurrences
   * of all the candidates in order and nothing else; when one throws, the run
   * throws, with that error or an earlier comparison failure.
   */
  lemma ResolutionChecksFirstOccurrences(vr: VersionResolution, ctx: Context, opts: Options, sem: SemverOps, confirm: Confirm,
                                         rank: ProjectVersionMeta -> nat)
    requires Walkable(vr, opts, rank) && |vr.projects| > 0
    ensures Candidates(vr, vr.projects, opts, rank).Ok? ==>
              Resolution(vr, ctx, opts, sem, confirm, rank)
              == CheckAll(FirstOccurrences(Candidates(vr, vr.projects, opts, rank).value), Start, ctx, opts, sem, confirm)
    ensures Candidates(vr, vr.projects, opts, rank).Err? ==>
              Resolution(vr, ctx, opts, sem, confirm, rank).failure == Some(Candidates(vr, vr.projects, opts, rank).error) ||
              (Resolution(vr, ctx, opts, sem, confirm, rank).failure.Some? &&
               Resolution(vr, ctx, opts, sem, confirm, rank).failure.value.VersionCompareFailed?)
  {
    if Candidates(vr, vr.projects, opts, rank).Ok? {
      ResolveRootsIsCheckAll(vr, vr.projects, Start, ctx, opts, sem, confirm, rank);
      FreshIsFirstOccurrences(Candidates(vr, vr.projects, opts, rank).value);
    } else {
      ResolveRootsThrows(vr, vr.projects, Start, ctx, opts, sem, confirm, rank);
    }
  }

  lemma {:induction false} ResolveRootsThrows(vr: VersionResolution, roots: seq<ProjectVersionMeta>, st: State, ctx: Context, opts: Options,
                                              sem: SemverOps, confirm: Confirm, rank: ProjectVersionMeta -> nat)
    requires !opts.nonRecursive ==> Acyclic(vr.dependencies, rank) && forall i :: 0 <= i < |roots| ==> Descends(vr.dependencies, rank, roots[i])
    requires Candidates(vr, roots, opts, rank).Err?
    ensures ResolveRoots(vr, roots, st, ctx, opts, sem, confirm, rank).failure == Some(Candidates(vr, roots, opts, rank).error) ||
            (ResolveRoots(vr, roots, st, ctx, opts, sem, confirm, rank).failure.Some? &&
             ResolveRoots(vr, roots, st, ctx, opts, sem, confirm, rank).failure.value.VersionCompareFailed?)
  {
    match GroupOf(vr, roots[0], opts, rank)
    case Err(e) =>
    case Ok(g) =>
      ReconcileThrowsCompare(g, st, ctx, opts, sem, confirm);
      var r := Reconcile(g, st, ctx, opts, sem, confirm);
      if r.failure.None? {
        ResolveRootsThrows(vr, roots[1..], r.state, ctx, opts, sem, confirm, rank);
      }
  }

  /** The driver's bookkeeping: no pair twice in `seen`, none twice in `result`, and every kept meta is seen. */
  predicate Consistent(st: State)
  {
    DistinctPairs(st.seen) && DistinctPairs(st.result) && forall i :: 0 <= i < |st.result| ==> Seen(st.seen, st.result[i])
  }

  lemma RecordKeepsConsistent(c: Candidate, st: State, k: Checked, ok: bool)
    requires Consistent(st) && !Seen(st.seen, c.meta)
    ensures Consistent(Record(c, st, k, ok))
  {
    var st' := Record(c, st, k, ok);
    DistinctSnoc(st.seen, c.meta);
    forall i | 0 <= i < |st.result| ensures !SamePair(st.result[i], c.meta) && Seen(st'.seen, st.result[i]) {
      if SamePair(st.result[i], c.meta) {
        SeenSamePair(st.seen, st.result[i], c.meta);
      }
      SeenAppend(st.seen, [c.meta], st.result[i]);
    }
    SeenAppend(st.seen, [c.meta], c.meta);
    SeenIff([c.meta], c.meta);
    assert [c.meta][0] == c.meta;
    if ok {
      SeenIff(st.result, c.meta);
      DistinctSnoc(st.result, c.meta);
      assert forall i :: 0 <= i < |st.result| ==> st'.result[i] == st.result[i];
    }
  }

  lemma {:induction false} ReconcileKeepsConsistent(g: seq<Candidate>, st: State, ctx: Context, opts: Options, sem: SemverOps, confirm: Confirm)
    requires Consistent(st)
    ensures Consistent(Reconcile(g, st, ctx, opts, sem, confirm).state)
  {
    if g != [] {
      if Seen(st.seen, g[0].meta) {
        ReconcileKeepsConsistent(g[1..], st, ctx, opts, sem, confirm);
      } else {
        var k := CheckOne(g[0], st, ctx, opts, sem, confirm);
        if k.verdict.Ok? {
          RecordKeepsConsistent(g[0], st, k, k.verdict.value);
          ReconcileKeepsConsistent(g[1..], Record(g[0], st, k, k.verdict.value), ctx, opts, sem, confirm);
        }
      }
    }
  }

  lemma {:induction false} ResolveRootsKeepsConsistent(vr: VersionResolution, roots: seq<ProjectVersionMeta>, st: State, ctx: Context, opts: Options,
                                                       sem: SemverOps, confirm: Confirm, rank: ProjectVersionMeta -> nat)
    requires !opts.nonRecursive ==> Acyclic(vr.dependencies, rank) && forall i :: 0 <= i < |roots| ==> Descends(vr.dependencies, rank, roots[i])
    requires Consistent(st)
    ensures Consistent(ResolveRoots(vr, roots, st, ctx, opts, sem, confirm, rank).state)
  {
    if roots != [] {
      match GroupOf(vr, roots[0], opts, rank)
      case Err(e) =>
      case Ok(g) =>
        ReconcileKeepsConsistent(g, st, ctx, opts, sem, confirm);
        var r := Reconcile(g, st, ctx, opts, sem, confirm);
        if r.failure.None? {
          ResolveRootsKeepsConsistent(vr, roots[1..], r.state, ctx, opts, sem, confirm, rank);
        }
    }
  }

  /** The list to sync never names the same project version twice, whatever the answers and however the run ends. */
  lemma ResolutionNeverRepeats(vr: VersionResolution, ctx: Context, opts: Options, sem: SemverOps, confirm: Confirm,
                               rank: ProjectVersionMeta -> nat)
    requires Walkable(vr, opts, rank)
    ensures Consistent(Resolution(vr, ctx, opts, sem, confirm, rank).state)
    ensures Outcome(Resolution(vr, ctx, opts, sem, confirm, rank)).Ok? ==>
              DistinctPairs(Outcome(Resolution(vr, ctx, opts, sem, confirm, rank)).value)
  {
    if |vr.projects| > 0 {
      ResolveRootsKeepsConsistent(vr, vr.projects, Start, ctx, opts, sem, confirm, rank);
    }
  }

  /** In non-recursive mode a root's queue is the root alone, checked as the root. */
  lemma NonRecursiveGroup(vr: VersionResolution, root: ProjectVersionMeta, opts: Options, rank: ProjectVersionMeta -> nat)
    requires opts.nonRecursive
    ensures GroupOf(vr, root, opts, rank) == Ok([Candidate(root, root, true)])
  {
    assert Tag([root], root) == [Candidate(root, root, true)];
  }

  /**
   * In recursive mode a root's queue ends with the root, the one candidate
   * checked as the root, and every edge of a candidate resolves to a meta
   * that comes earlier in the queue: dependencies are checked before their
   * dependents.
   */
  lemma GroupDependenciesFirst(vr: VersionResolution, root: ProjectVersionMeta, opts: Options, rank: ProjectVersionMeta -> nat,
                               g: seq<Candidate>)
    requires !opts.nonRecursive && Acyclic(vr.dependencies, rank) && Descends(vr.dependencies, rank, root)
    requires GroupOf(vr, root, opts, rank) == Ok(g)
    ensures |g| >= 1 && g[|g| - 1] == Candidate(root, root, true)
    ensures forall i :: 0 <= i < |g| - 1 ==> !g[i].isRoot && g[i].root == root
    ensures forall i, d {:trigger d in g[i].meta.dependencies} :: 0 <= i < |g| && d in g[i].meta.dependencies ==>
              exists k :: 0 <= k < i && Lookup(vr.dependencies, d) == Some(g[k].meta)
  {
    var pool := vr.dependencies;
    var w := Walk(pool, rank, root).value;
    var _ := WalkSucceeds(pool, rank, root);
    var q := Reversed(w);
    assert g == Tag(q, root) && |g| == |q| == |w| >= 1;
    ReversedAt(w, |w| - 1);
    assert g[|g| - 1] == Candidate(q[|w| - 1], root, true) && q[|w| - 1] == root;
    forall i, d {:trigger d in g[i].meta.dependencies} | 0 <= i < |g| && d in g[i].meta.dependencies
      ensures exists k :: 0 <= k < i && Lookup(pool, d) == Some(g[k].meta)
    {
      var j :| 0 <= j < |g[i].meta.dependencies| && g[i].meta.dependencies[j] == d;
      var k := ReversedWalkEdge(pool, rank, root, w, i, j);
      assert g[i].meta == q[i] && g[k].meta == q[k];
    }
  }

  /** An edge of entry `i` of a reversed walk resolves to an earlier entry `k`. */
  lemma ReversedWalkEdge(pool: seq<ProjectVersionMeta>, rank: ProjectVersionMeta -> nat, root: ProjectVersionMeta,
                         w: seq<ProjectVersionMeta>, i: nat, j: nat) returns (k: nat)
    requires Acyclic(pool, rank) && Descends(pool, rank, root) && Walk(pool, rank, root) == Ok(w)
    requires i < |w| && j < |Reversed(w)[i].dependencies|
    ensures k < i && Lookup(pool, Reversed(w)[i].dependencies[j]) == Some(Reversed(w)[k])
  {
    var p := |w| - 1 - i;
    ReversedAt(w, i);
    ChildrenFollowParent(pool, rank, root, w, p, j);
    var q := 1 + EdgeCount(w[..p]) + j;
    k := |w| - 1 - q;
    ReversedAt(w, k);
  }
}
