/**
 * What the walk returns, stated without the queue.
 *
 * A successful walk is the one sequence whose first element is the root and
 * whose remaining elements are exactly what its own elements push, in
 * order (`IsWalkOf`).  A walk throws exactly when the nodes it gets to emit
 * (`Emitted`) include one with an edge that has no entry in the pool.
 */
module DependencyWalkProofs {
  import opened ResolveTypes
  import opened DependencyWalk

  /** Root first; every later element is the resolution of an edge of an earlier one, in FIFO order. */
  ghost predicate IsWalkOf(pool: seq<ProjectVersionMeta>, root: ProjectVersionMeta, r: seq<ProjectVersionMeta>)
  {
    |r| >= 1 && r[0] == root && Expand(pool, r) == Ok(r[1..])
  }

  /**
   * `s` is a sequence of nodes the walk gets to emit: the root, then the
   * first elements pushed by the nodes before the last one.
   */
  ghost predicate Emitted(pool: seq<ProjectVersionMeta>, root: ProjectVersionMeta, s: seq<ProjectVersionMeta>)
  {
    |s| >= 1 && s[0] == root && Expand(pool, s[..|s| - 1]).Ok? && s[1..] <= Expand(pool, s[..|s| - 1]).value
  }

  /** Expanding two runs of nodes is expanding the first, then the second. */
  lemma {:induction false} ExpandAppend(pool: seq<ProjectVersionMeta>, a: seq<ProjectVersionMeta>, b: seq<ProjectVersionMeta>)
    ensures Expand(pool, a + b) == Chain(Expand(pool, a), Expand(pool, b))
    decreases |b|
  {
    if b == [] {
      assert a + b == a;
      if Expand(pool, a).Ok? {
        assert Expand(pool, a).value + [] == Expand(pool, a).value;
      }
    } else {
      var b' := b[..|b| - 1];
      assert (a + b)[..|a + b| - 1] == a + b';
      assert (a + b)[|a + b| - 1] == b[|b| - 1];
      ExpandAppend(pool, a, b');
      ChainAssociative(Expand(pool, a), Expand(pool, b'), Children(pool, b[|b| - 1].dependencies));
    }
  }

  /** The nodes of the walk all lie in the part of the pool where `rank` is a ranking. */
  lemma TreeNodesDescend(pool: seq<ProjectVersionMeta>, rank: ProjectVersionMeta -> nat, root: ProjectVersionMeta, xs: seq<ProjectVersionMeta>)
    requires Acyclic(pool, rank) && Descends(pool, rank, root)
    requires forall x :: x in xs ==> x == root || x in pool
    ensures AllDescend(pool, rank, xs)
  {
  }

  /**
   * `getMeta` finds the first pool entry with the edge's pair, and throws
   * exactly when no entry has it.
   */
  lemma LookupIsFirstMatch(pool: seq<ProjectVersionMeta>, d: Dep)
    ensures Lookup(pool, d).None? <==> forall k :: 0 <= k < |pool| ==> !Matches(pool[k], d.projectId, d.version)
    ensures forall i :: 0 <= i < |pool| && Matches(pool[i], d.projectId, d.version) && (forall k :: 0 <= k < i ==> !Matches(pool[k], d.projectId, d.version))
              ==> Lookup(pool, d) == Some(pool[i])
  {
    forall i | 0 <= i < |pool| && Matches(pool[i], d.projectId, d.version) && (forall k :: 0 <= k < i ==> !Matches(pool[k], d.projectId, d.version))
      ensures Lookup(pool, d) == Some(pool[i])
    {
      var j := FindIndex(pool, d.projectId, d.version).value;
      assert !(j < i) && !(i < j);
    }
  }

  /** A queue state: `done` then `queue` is the root followed by what `done` pushed. */
  ghost predicate QueueState(pool: seq<ProjectVersionMeta>, root: ProjectVersionMeta, done: seq<ProjectVersionMeta>, queue: seq<ProjectVersionMeta>)
  {
    Expand(pool, done).Ok? && done + queue == [root] + Expand(pool, done).value
  }

  /** With the queue empty, what has been emitted is a complete walk. */
  lemma QueueStateDone(pool: seq<ProjectVersionMeta>, root: ProjectVersionMeta, done: seq<ProjectVersionMeta>)
    requires QueueState(pool, root, done, [])
    ensures IsWalkOf(pool, root, done)
  {
    assert done + [] == done;
  }

  /** The head of the queue is the next node the walk gets to emit. */
  lemma QueueStateEmits(pool: seq<ProjectVersionMeta>, root: ProjectVersionMeta, done: seq<ProjectVersionMeta>, queue: seq<ProjectVersionMeta>)
    requires QueueState(pool, root, done, queue) && queue != []
    ensures Emitted(pool, root, done + [queue[0]])
  {
    HeadJoinsPrefix(done, queue, root, Expand(pool, done).value);
  }

  /** Appending the head of the queue to `done` keeps the root first and the rest a prefix of what was pushed. */
  lemma HeadJoinsPrefix<T>(done: seq<T>, queue: seq<T>, root: T, xs: seq<T>)
    requires queue != [] && done + queue == [root] + xs
    ensures var s := done + [queue[0]]; s[0] == root && s[..|s| - 1] == done && s[1..] <= xs
  {
    var s := done + [queue[0]];
    assert s == (done + queue)[..|s|];
  }

  /** Dequeuing the head and pushing its children gives the next queue state. */
  lemma QueueStateStep(pool: seq<ProjectVersionMeta>, root: ProjectVersionMeta, done: seq<ProjectVersionMeta>, queue: seq<ProjectVersionMeta>,
                       cs: seq<ProjectVersionMeta>)
    requires QueueState(pool, root, done, queue) && queue != []
    requires Children(pool, queue[0].dependencies) == Ok(cs)
    ensures QueueState(pool, root, done + [queue[0]], queue[1..] + cs)
  {
    var xs := Expand(pool, done).value;
    ExpandSnoc(pool, done, queue[0]);
    ShiftHead(done, queue, cs, [root], xs);
  }

  lemma Associative<T>(a: seq<T>, b: seq<T>, c: seq<T>)
    ensures a + (b + c) == (a + b) + c
  {
  }

  /** Expanding one more node appends its children. */
  lemma ExpandSnoc(pool: seq<ProjectVersionMeta>, done: seq<ProjectVersionMeta>, q: ProjectVersionMeta)
    ensures Expand(pool, done + [q]) == Chain(Expand(pool, done), Children(pool, q.dependencies))
  {
    assert (done + [q])[..|done|] == done;
  }

  /** Moving the head of the queue to the emitted part keeps the concatenation. */
  lemma ShiftHead<T>(done: seq<T>, queue: seq<T>, cs: seq<T>, a: seq<T>, xs: seq<T>)
    requires queue != [] && done + queue == a + xs
    ensures (done + [queue[0]]) + (queue[1..] + cs) == a + (xs + cs)
  {
    var q := queue[0];
    assert [q] + queue[1..] == queue;
    calc {
      (done + [q]) + (queue[1..] + cs);
      done + (([q] + queue[1..]) + cs);
      (done + queue) + cs;
      (a + xs) + cs;
      a + (xs + cs);
    }
  }

  /**
   * The walk from a queue state; when it throws, `s` is the emitted sequence
   * whose last node has the missing edge.
   */
  lemma {:induction false} BfsFromState(pool: seq<ProjectVersionMeta>, rank: ProjectVersionMeta -> nat, root: ProjectVersionMeta,
                                        done: seq<ProjectVersionMeta>, queue: seq<ProjectVersionMeta>)
    returns (s: seq<ProjectVersionMeta>)
    requires Acyclic(pool, rank) && AllDescend(pool, rank, queue)
    requires QueueState(pool, root, done, queue)
    ensures Bfs(pool, rank, queue).Ok? ==> IsWalkOf(pool, root, done + Bfs(pool, rank, queue).value)
    ensures Bfs(pool, rank, queue).Err? ==> Emitted(pool, root, s) && Children(pool, s[|s| - 1].dependencies) == Err(Bfs(pool, rank, queue).error)
    decreases SumSize(pool, rank, queue)
  {
    if queue == [] {
      QueueStateDone(pool, root, done);
      assert done + [] == done;
      s := done;
    } else {
      var q := queue[0];
      QueueStateEmits(pool, root, done, queue);
      s := done + [q];
      assert s[|s| - 1] == q;
      var c := BfsStep(pool, rank, queue);
      if c.Ok? {
        var cs := c.value;
        QueueStateStep(pool, root, done, queue, cs);
        s := BfsFromState(pool, rank, root, done + [q], queue[1..] + cs);
        var rest := Bfs(pool, rank, queue[1..] + cs);
        if rest.Ok? {
          Associative(done, [q], rest.value);
        }
      }
    }
  }

  /** One step of the walk: the head's edges either throw, or are pushed behind the rest of the queue. */
  lemma BfsStep(pool: seq<ProjectVersionMeta>, rank: ProjectVersionMeta -> nat, queue: seq<ProjectVersionMeta>)
    returns (c: Result<seq<ProjectVersionMeta>>)
    requires Acyclic(pool, rank) && AllDescend(pool, rank, queue) && queue != []
    ensures c == Children(pool, queue[0].dependencies)
    ensures c.Err? ==> Bfs(pool, rank, queue) == Err(c.error)
    ensures c.Ok? ==> AllDescend(pool, rank, queue[1..] + c.value) && SumSize(pool, rank, queue[1..] + c.value) < SumSize(pool, rank, queue)
    ensures c.Ok? ==> Bfs(pool, rank, queue) == Chain(Ok([queue[0]]), Bfs(pool, rank, queue[1..] + c.value))
  {
    c := Children(pool, queue[0].dependencies);
    if c.Ok? {
      StepShrinks(pool, rank, queue, c.value);
    }
  }

  /** A walk that returns gives the sequence `IsWalkOf` describes; one that throws names its emitted sequence. */
  lemma WalkSucceeds(pool: seq<ProjectVersionMeta>, rank: ProjectVersionMeta -> nat, root: ProjectVersionMeta)
    returns (s: seq<ProjectVersionMeta>)
    requires Acyclic(pool, rank) && Descends(pool, rank, root)
    ensures Walk(pool, rank, root).Ok? ==> IsWalkOf(pool, root, Walk(pool, rank, root).value)
    ensures Walk(pool, rank, root).Err? ==> Emitted(pool, root, s) && Children(pool, s[|s| - 1].dependencies) == Err(Walk(pool, rank, root).error)
  {
    assert [] + [root] == [root] + [];
    assert QueueState(pool, root, [], [root]);
    s := BfsFromState(pool, rank, root, [], [root]);
    if Walk(pool, rank, root).Ok? {
      assert [] + Walk(pool, rank, root).value == Walk(pool, rank, root).value;
    }
  }

  /** The unfolded-tree size of a run of nodes is their number plus the size of what they push. */
  lemma {:induction false} ExpandSize(pool: seq<ProjectVersionMeta>, rank: ProjectVersionMeta -> nat, t: seq<ProjectVersionMeta>)
    requires Acyclic(pool, rank) && AllDescend(pool, rank, t) && Expand(pool, t).Ok?
    ensures AllDescend(pool, rank, Expand(pool, t).value)
    ensures SumSize(pool, rank, t) == |t| + SumSize(pool, rank, Expand(pool, t).value)
    decreases |t|
  {
    if t != [] {
      var init, last := t[..|t| - 1], t[|t| - 1];
      assert t == init + [last];
      assert AllDescend(pool, rank, init);
      ExpandSize(pool, rank, init);
      var xs := Expand(pool, init).value;
      var cs := Children(pool, last.dependencies).value;
      SizeOfChildren(pool, rank, last);
      SumSizeAppend(pool, rank, init, [last]);
      SumSizeAppend(pool, rank, xs, cs);
      assert SumSize(pool, rank, [last]) == Size(pool, rank, last);
    }
  }

  /** A complete walk has as many elements as the tree unfolded below the root. */
  lemma WalkSize(pool: seq<ProjectVersionMeta>, rank: ProjectVersionMeta -> nat, root: ProjectVersionMeta, r: seq<ProjectVersionMeta>)
    requires Acyclic(pool, rank) && Descends(pool, rank, root) && IsWalkOf(pool, root, r)
    ensures |r| == 1 + EdgeCount(r) == Size(pool, rank, root)
  {
    assert forall x :: x in r ==> x == root || x in pool by {
      forall x | x in r ensures x == root || x in pool {
        var i :| 0 <= i < |r| && r[i] == x;
        if i > 0 {
          assert x == r[1..][i - 1];
        }
      }
    }
    TreeNodesDescend(pool, rank, root, r);
    ExpandSize(pool, rank, r);
  }

  /** Every emitted node is the root or an entry of the pool. */
  lemma EmittedInPool(pool: seq<ProjectVersionMeta>, root: ProjectVersionMeta, s: seq<ProjectVersionMeta>)
    requires Emitted(pool, root, s)
    ensures forall x :: x in s ==> x == root || x in pool
  {
    var xs := Expand(pool, s[..|s| - 1]).value;
    forall x | x in s ensures x == root || x in pool {
      var i :| 0 <= i < |s| && s[i] == x;
      if i > 0 {
        assert x == s[1..][i - 1] && x == xs[i - 1];
      }
    }
  }

  /** Any sequence of emitted nodes is no longer than the tree unfolded below the root. */
  lemma EmittedBound(pool: seq<ProjectVersionMeta>, rank: ProjectVersionMeta -> nat, root: ProjectVersionMeta, s: seq<ProjectVersionMeta>)
    requires Acyclic(pool, rank) && Descends(pool, rank, root) && Emitted(pool, root, s)
    ensures |s| <= Size(pool, rank, root)
  {
    var n := |s|;
    var t, last := s[..n - 1], s[n - 1];
    var xs := Expand(pool, t).value;
    var rest := xs[n - 1..];
    EmittedInPool(pool, root, s);
    TreeNodesDescend(pool, rank, root, s);
    SplitLast(s);
    assert AllDescend(pool, rank, t) && AllDescend(pool, rank, [last]);
    ExpandSize(pool, rank, t);
    assert AllDescend(pool, rank, rest) && AllDescend(pool, rank, [root]);
    assert SumSize(pool, rank, s) == |t| + SumSize(pool, rank, xs) + Size(pool, rank, last) by {
      SumSizeAppend(pool, rank, t, [last]);
    }
    assert SumSize(pool, rank, s) + SumSize(pool, rank, rest) == Size(pool, rank, root) + SumSize(pool, rank, xs) by {
      SplitPushed(s, xs);
      SumSizeAppend(pool, rank, [root], xs);
      SumSizeAppend(pool, rank, s, rest);
    }
  }

  lemma SplitLast<T>(s: seq<T>)
    requires s != []
    ensures s == s[..|s| - 1] + [s[|s| - 1]]
  {
  }

  /** The head of `s` then what was pushed is `s` then what remains of the queue. */
  lemma SplitPushed<T>(s: seq<T>, xs: seq<T>)
    requires s != [] && s[1..] <= xs
    ensures [s[0]] + xs == s + xs[|s| - 1..]
    ensures ([s[0]] + xs)[1..] == xs
  {
    assert s[1..] == xs[..|s| - 1];
  }

  /** What a prefix of a run of nodes pushes is a prefix of what the whole run pushes. */
  lemma ExpandPrefix(pool: seq<ProjectVersionMeta>, r: seq<ProjectVersionMeta>, n: nat)
    requires n <= |r| && Expand(pool, r).Ok?
    ensures Expand(pool, r[..n]).Ok? && Expand(pool, r[..n]).value <= Expand(pool, r).value
  {
    assert r[..n] + r[n..] == r;
    ExpandAppend(pool, r[..n], r[n..]);
  }

  /** One more node pushes its children after what the nodes before it pushed. */
  lemma ExpandStep(pool: seq<ProjectVersionMeta>, r: seq<ProjectVersionMeta>, i: nat)
    requires i < |r|
    ensures Expand(pool, r[..i + 1]) == Chain(Expand(pool, r[..i]), Children(pool, r[i].dependencies))
  {
    assert r[..i + 1][..i] == r[..i];
    assert r[..i + 1][i] == r[i];
  }

  /** No proper prefix of `r` is itself a complete walk. */
  ghost predicate NoShorterWalk(pool: seq<ProjectVersionMeta>, root: ProjectVersionMeta, r: seq<ProjectVersionMeta>)
  {
    forall k :: 1 <= k < |r| ==> !IsWalkOf(pool, root, r[..k])
  }

  /** A complete walk has no shorter complete walk inside it: all complete walks have the tree's size. */
  lemma WalkHasNoShorterWalk(pool: seq<ProjectVersionMeta>, rank: ProjectVersionMeta -> nat, root: ProjectVersionMeta, r: seq<ProjectVersionMeta>)
    requires Acyclic(pool, rank) && Descends(pool, rank, root) && IsWalkOf(pool, root, r)
    ensures NoShorterWalk(pool, root, r)
  {
    WalkSize(pool, rank, root, r);
    forall k | 1 <= k < |r| ensures !IsWalkOf(pool, root, r[..k]) {
      if IsWalkOf(pool, root, r[..k]) {
        WalkSize(pool, rank, root, r[..k]);
      }
    }
  }

  /** A prefix of a complete walk that pushes exactly the rest of the prefix is a complete walk. */
  lemma PrefixIsWalk(pool: seq<ProjectVersionMeta>, root: ProjectVersionMeta, r: seq<ProjectVersionMeta>, i: nat)
    requires IsWalkOf(pool, root, r) && 1 <= i <= |r| && EdgeCount(r[..i]) == i - 1
    ensures IsWalkOf(pool, root, r[..i])
  {
    ExpandPrefix(pool, r, i);
    PrefixOfTail(r, Expand(pool, r[..i]).value, i);
  }

  /** A prefix of `r[1..]` of length `i - 1` is the tail of `r[..i]`. */
  lemma PrefixOfTail<T>(r: seq<T>, e: seq<T>, i: nat)
    requires 1 <= i <= |r| && e <= r[1..] && |e| == i - 1
    ensures e == r[..i][1..]
  {
  }

  /** Two sequences that agree up to `m` and at `m` agree up to `m + 1`. */
  lemma ExtendAgreement<T>(a: seq<T>, b: seq<T>, m: nat)
    requires m < |a| && m < |b| && a[..m] == b[..m] && a[m] == b[m]
    ensures a[..m + 1] == b[..m + 1]
  {
    assert a[..m + 1] == a[..m] + [a[m]];
    assert b[..m + 1] == b[..m] + [b[m]];
  }

  /** In a complete walk, the first `i` nodes push at least `i` nodes: the queue never runs dry early. */
  lemma {:induction false} EdgeCountCovers(pool: seq<ProjectVersionMeta>, root: ProjectVersionMeta, r: seq<ProjectVersionMeta>, i: nat)
    requires IsWalkOf(pool, root, r) && NoShorterWalk(pool, root, r)
    requires 1 <= i < |r|
    ensures EdgeCount(r[..i]) >= i
    decreases i
  {
    if i > 1 {
      EdgeCountCovers(pool, root, r, i - 1);
      assert r[..i][..i - 1] == r[..i - 1];
    }
    if EdgeCount(r[..i]) < i {
      PrefixIsWalk(pool, root, r, i);
    }
  }

  /** Edge `j` of node `i` of a complete walk resolves to the node FIFO order puts it at. */
  lemma EdgesLandAt(pool: seq<ProjectVersionMeta>, root: ProjectVersionMeta,
                             r: seq<ProjectVersionMeta>, i: nat, j: nat)
    requires IsWalkOf(pool, root, r) && NoShorterWalk(pool, root, r)
    requires i < |r| && j < |r[i].dependencies|
    ensures i < 1 + EdgeCount(r[..i]) + j < |r|
    ensures Lookup(pool, r[i].dependencies[j]) == Some(r[1 + EdgeCount(r[..i]) + j])
  {
    if i >= 1 {
      EdgeCountCovers(pool, root, r, i);
    }
    EdgeLands(pool, r, i, j);
  }

  /** The step of `EdgesLandAt`, once the nodes before `i` are known to push at least `i` nodes. */
  lemma EdgeLands(pool: seq<ProjectVersionMeta>, r: seq<ProjectVersionMeta>, i: nat, j: nat)
    requires |r| >= 1 && Expand(pool, r) == Ok(r[1..])
    requires i < |r| && j < |r[i].dependencies| && EdgeCount(r[..i]) >= i
    ensures i < 1 + EdgeCount(r[..i]) + j < |r|
    ensures Lookup(pool, r[i].dependencies[j]) == Some(r[1 + EdgeCount(r[..i]) + j])
  {
    ExpandPrefix(pool, r, i + 1);
    var xs, cs := ExpandSplit(pool, r, i);
    ChildAt(pool, r[i].dependencies, cs, j);
    PushedAt(r, xs, cs, Expand(pool, r[..i + 1]).value, j);
  }

  /** The `j`-th resolved edge is the meta `getMeta` finds for edge `j`. */
  lemma ChildAt(pool: seq<ProjectVersionMeta>, deps: seq<Dep>, cs: seq<ProjectVersionMeta>, j: nat)
    requires Children(pool, deps) == Ok(cs) && j < |deps|
    ensures j < |cs| && Lookup(pool, deps[j]) == Some(cs[j])
  {
  }

  /** What the first `i + 1` nodes push: what the first `i` push, then the resolved edges of node `i`. */
  lemma ExpandSplit(pool: seq<ProjectVersionMeta>, r: seq<ProjectVersionMeta>, i: nat)
    returns (xs: seq<ProjectVersionMeta>, cs: seq<ProjectVersionMeta>)
    requires i < |r| && Expand(pool, r[..i + 1]).Ok?
    ensures Expand(pool, r[..i]) == Ok(xs) && |xs| == EdgeCount(r[..i])
    ensures Children(pool, r[i].dependencies) == Ok(cs)
    ensures Expand(pool, r[..i + 1]).value == xs + cs
  {
    ExpandStep(pool, r, i);
    xs := Expand(pool, r[..i]).value;
    cs := Children(pool, r[i].dependencies).value;
  }

  /**
   * A sequence that starts at the root and whose later elements are pushed by
   * its own elements agrees with a complete walk on its first `k` elements.
   */
  lemma {:induction false} AgreesWithWalk(pool: seq<ProjectVersionMeta>, root: ProjectVersionMeta,
                                          r: seq<ProjectVersionMeta>, s: seq<ProjectVersionMeta>, t: seq<ProjectVersionMeta>, k: nat)
    requires IsWalkOf(pool, root, r) && NoShorterWalk(pool, root, r)
    requires |s| >= 1 && s[0] == root && |s| <= |r|
    requires t <= s && |s| - 1 <= |t| && Expand(pool, t).Ok? && s[1..] <= Expand(pool, t).value
    requires 1 <= k <= |s|
    ensures s[..k] == r[..k]
    decreases k
  {
    if k > 1 {
      var m := k - 1;
      AgreesWithWalk(pool, root, r, s, t, m);
      AgreeStep(pool, root, r, s, t, m);
      ExtendAgreement(s, r, m);
    }
  }

  /** The step of `AgreesWithWalk`: agreeing on the first `m` nodes, they agree on node `m`. */
  lemma AgreeStep(pool: seq<ProjectVersionMeta>, root: ProjectVersionMeta,
                  r: seq<ProjectVersionMeta>, s: seq<ProjectVersionMeta>, t: seq<ProjectVersionMeta>, m: nat)
    requires IsWalkOf(pool, root, r) && NoShorterWalk(pool, root, r)
    requires |s| <= |r| && 1 <= m < |s|
    requires t <= s && |s| - 1 <= |t| && Expand(pool, t).Ok? && s[1..] <= Expand(pool, t).value
    requires s[..m] == r[..m]
    ensures s[m] == r[m]
  {
    EdgeCountCovers(pool, root, r, m);
    ExpandPrefix(pool, r, m);
    ExpandPrefix(pool, t, m);
    assert t[..m] == s[..m];
    var xs := Expand(pool, r[..m]).value;
    PushedAgree(s, Expand(pool, t).value, xs, m);
    PushedAgree(r, r[1..], xs, m);
  }

  /** Where the children of a node land in a walk whose pushed prefix is `xs + cs`. */
  lemma PushedAt<T>(r: seq<T>, xs: seq<T>, cs: seq<T>, ys: seq<T>, j: nat)
    requires |r| >= 1 && ys == xs + cs && ys <= r[1..] && j < |cs|
    ensures 1 + |xs| + j < |r| && r[1 + |xs| + j] == cs[j]
  {
    assert ys[|xs| + j] == cs[j];
    assert r[1..][|xs| + j] == ys[|xs| + j];
  }

  /** Element `m` of a sequence whose tail is a prefix of `ps` is element `m - 1` of any long enough prefix of `ps`. */
  lemma PushedAgree<T>(s: seq<T>, ps: seq<T>, xs: seq<T>, m: nat)
    requires 1 <= m < |s| && s[1..] <= ps && xs <= ps && m - 1 < |xs|
    ensures s[m] == xs[m - 1]
  {
    assert s[m] == s[1..][m - 1];
  }

  /**
   * Each edge of a node the walk returns is resolved to a LATER node of the
   * result, at the position FIFO order gives it; reversed, the result lists
   * every dependency before the node that depends on it.
   */
  lemma ChildrenFollowParent(pool: seq<ProjectVersionMeta>, rank: ProjectVersionMeta -> nat, root: ProjectVersionMeta,
                             r: seq<ProjectVersionMeta>, i: nat, j: nat)
    requires Acyclic(pool, rank) && Descends(pool, rank, root) && Walk(pool, rank, root) == Ok(r)
    requires i < |r| && j < |r[i].dependencies|
    ensures i < 1 + EdgeCount(r[..i]) + j < |r|
    ensures Lookup(pool, r[i].dependencies[j]) == Some(r[1 + EdgeCount(r[..i]) + j])
  {
    var w := WalkSucceeds(pool, rank, root);
    WalkHasNoShorterWalk(pool, rank, root, r);
    EdgesLandAt(pool, root, r, i, j);
  }

  /** Everything the walk gets to emit is a prefix of the complete walk. */
  lemma EmittedIsPrefix(pool: seq<ProjectVersionMeta>, rank: ProjectVersionMeta -> nat, root: ProjectVersionMeta,
                        r: seq<ProjectVersionMeta>, s: seq<ProjectVersionMeta>)
    requires Acyclic(pool, rank) && Descends(pool, rank, root) && IsWalkOf(pool, root, r) && Emitted(pool, root, s)
    ensures |s| <= |r| && s == r[..|s|]
    ensures Expand(pool, s).Ok?
  {
    EmittedBound(pool, rank, root, s);
    WalkSize(pool, rank, root, r);
    WalkHasNoShorterWalk(pool, rank, root, r);
    AgreesWithWalk(pool, root, r, s, s[..|s| - 1], |s|);
    assert s[..|s|] == s;
    ExpandPrefix(pool, r, |s|);
  }

  /** There is only one sequence `IsWalkOf` describes. */
  lemma WalkOfIsUnique(pool: seq<ProjectVersionMeta>, rank: ProjectVersionMeta -> nat, root: ProjectVersionMeta,
                       r1: seq<ProjectVersionMeta>, r2: seq<ProjectVersionMeta>)
    requires Acyclic(pool, rank) && Descends(pool, rank, root)
    requires IsWalkOf(pool, root, r1) && IsWalkOf(pool, root, r2)
    ensures r1 == r2
  {
    WalkSize(pool, rank, root, r1);
    WalkSize(pool, rank, root, r2);
    WalkHasNoShorterWalk(pool, rank, root, r1);
    AgreesWithWalk(pool, root, r1, r2, r2, |r2|);
    assert r2[..|r2|] == r2 && r1[..|r1|] == r1;
  }

  /** The walk returns `r` exactly when `r` is the root followed by what its own nodes push. */
  lemma WalkReturnsIff(pool: seq<ProjectVersionMeta>, rank: ProjectVersionMeta -> nat, root: ProjectVersionMeta, r: seq<ProjectVersionMeta>)
    requires Acyclic(pool, rank) && Descends(pool, rank, root)
    ensures Walk(pool, rank, root) == Ok(r) <==> IsWalkOf(pool, root, r)
  {
    var s := WalkSucceeds(pool, rank, root);
    if IsWalkOf(pool, root, r) {
      if Walk(pool, rank, root).Err? {
        EmittedIsPrefix(pool, rank, root, r, s);
      } else {
        WalkOfIsUnique(pool, rank, root, r, Walk(pool, rank, root).value);
      }
    }
  }

  /**
   * The walk throws exactly when some node it gets to emit has an edge with
   * no entry in the pool; the error names that node's first such edge.
   */
  lemma WalkThrowsIff(pool: seq<ProjectVersionMeta>, rank: ProjectVersionMeta -> nat, root: ProjectVersionMeta)
    requires Acyclic(pool, rank) && Descends(pool, rank, root)
    ensures Walk(pool, rank, root).Err? <==> exists s: seq<ProjectVersionMeta> :: Emitted(pool, root, s) && Children(pool, s[|s| - 1].dependencies).Err?
    ensures Walk(pool, rank, root).Err? ==>
              exists s: seq<ProjectVersionMeta> :: Emitted(pool, root, s) && Children(pool, s[|s| - 1].dependencies) == Err(Walk(pool, rank, root).error)
  {
    var w := WalkSucceeds(pool, rank, root);
    if Walk(pool, rank, root).Ok? {
      var r := Walk(pool, rank, root).value;
      forall s: seq<ProjectVersionMeta> | Emitted(pool, root, s) ensures Children(pool, s[|s| - 1].dependencies).Ok? {
        EmittedIsPrefix(pool, rank, root, r, s);
      }
    }
  }

  /** A diamond: the root depends on `a` and `b`, both of which depend on `c`. */
  const diamondC := ProjectVersionMeta("c", "1", [])
  const diamondA := ProjectVersionMeta("a", "1", [Dep("c", "1")])
  const diamondB := ProjectVersionMeta("b", "1", [Dep("c", "1")])
  const diamondRoot := ProjectVersionMeta("r", "1", [Dep("a", "1"), Dep("b", "1")])
  const diamondPool := [diamondA, diamondB, diamondC]
  const diamondRank := (m: ProjectVersionMeta) => if m.projectId == "r" then 2 else if m.projectId == "c" then 0 else 1

  lemma DiamondLookups()
    ensures Lookup(diamondPool, Dep("a", "1")) == Some(diamondA)
    ensures Lookup(diamondPool, Dep("b", "1")) == Some(diamondB)
    ensures Lookup(diamondPool, Dep("c", "1")) == Some(diamondC)
  {
    assert "a"[0] != "b"[0] && "a"[0] != "c"[0] && "b"[0] != "c"[0];
    assert diamondPool[1..] == [diamondB, diamondC] && diamondPool[1..][1..] == [diamondC];
    assert FindIndex([diamondC], "c", "1") == Some(0);
    assert FindIndex([diamondB, diamondC], "c", "1") == Some(1);
  }

  lemma DiamondChildren()
    ensures Children(diamondPool, diamondC.dependencies) == Ok([])
    ensures Children(diamondPool, diamondA.dependencies) == Ok([diamondC])
    ensures Children(diamondPool, diamondB.dependencies) == Ok([diamondC])
    ensures Children(diamondPool, diamondRoot.dependencies) == Ok([diamondA, diamondB])
  {
    DiamondLookups();
    assert Children(diamondPool, []) == Ok([]);
    var toC := [Dep("c", "1")];
    assert toC[0] == Dep("c", "1") && toC[1..] == [] && [diamondC] + [] == [diamondC];
    assert Children(diamondPool, toC) == Ok([diamondC]);
    var toB := [Dep("b", "1")];
    assert toB[0] == Dep("b", "1") && toB[1..] == [] && [diamondB] + [] == [diamondB];
    assert Children(diamondPool, toB) == Ok([diamondB]);
    var toAB := [Dep("a", "1"), Dep("b", "1")];
    assert toAB[0] == Dep("a", "1") && toAB[1..] == toB;
    assert Children(diamondPool, toAB) == Ok([diamondA] + [diamondB]);
    assert [diamondA] + [diamondB] == [diamondA, diamondB] && diamondRoot.dependencies == toAB;
  }

  lemma DiamondRanks()
    ensures diamondRank(diamondRoot) == 2 && diamondRank(diamondA) == 1 && diamondRank(diamondB) == 1 && diamondRank(diamondC) == 0
  {
    assert "r"[0] != "a"[0] && "r"[0] != "b"[0] && "r"[0] != "c"[0] && "a"[0] != "c"[0] && "b"[0] != "c"[0];
  }

  lemma DiamondDescends()
    ensures Descends(diamondPool, diamondRank, diamondRoot) && Descends(diamondPool, diamondRank, diamondA)
    ensures Descends(diamondPool, diamondRank, diamondB) && Descends(diamondPool, diamondRank, diamondC)
  {
    DiamondLookups();
    DiamondRanks();
    assert diamondA.dependencies == [Dep("c", "1")] && diamondB.dependencies == [Dep("c", "1")];
    assert diamondRoot.dependencies == [Dep("a", "1"), Dep("b", "1")];
  }

  lemma DiamondIsAcyclic()
    ensures Acyclic(diamondPool, diamondRank) && Descends(diamondPool, diamondRank, diamondRoot)
  {
    DiamondDescends();
    forall m | m in diamondPool ensures Descends(diamondPool, diamondRank, m) {
      assert m == diamondA || m == diamondB || m == diamondC;
    }
  }

  /** Expanding one more node whose edges all resolve. */
  lemma ExpandSnocOk(pool: seq<ProjectVersionMeta>, done: seq<ProjectVersionMeta>, q: ProjectVersionMeta,
                     xs: seq<ProjectVersionMeta>, cs: seq<ProjectVersionMeta>)
    requires Expand(pool, done) == Ok(xs) && Children(pool, q.dependencies) == Ok(cs)
    ensures Expand(pool, done + [q]) == Ok(xs + cs)
  {
    ExpandSnoc(pool, done, q);
  }

  /** Any diamond-shaped pool: the root pushes `a, b`, each of which pushes `c`, which pushes nothing. */
  lemma DiamondShape(pool: seq<ProjectVersionMeta>, root: ProjectVersionMeta, a: ProjectVersionMeta, b: ProjectVersionMeta, c: ProjectVersionMeta)
    requires Children(pool, root.dependencies) == Ok([a, b])
    requires Children(pool, a.dependencies) == Ok([c]) && Children(pool, b.dependencies) == Ok([c])
    requires Children(pool, c.dependencies) == Ok([])
    ensures IsWalkOf(pool, root, [root, a, b, c, c])
  {
    var s0: seq<ProjectVersionMeta> := [];
    var s1, s2, s3, s4, s5 := s0 + [root], s0 + [root] + [a], s0 + [root] + [a] + [b], s0 + [root] + [a] + [b] + [c], s0 + [root] + [a] + [b] + [c] + [c];
    var e1 := [a, b];
    var e2 := e1 + [c];
    var e3 := e2 + [c];
    ExpandSnocOk(pool, s0, root, [], e1);
    assert [] + e1 == e1;
    ExpandSnocOk(pool, s1, a, e1, [c]);
    ExpandSnocOk(pool, s2, b, e2, [c]);
    ExpandSnocOk(pool, s3, c, e3, []);
    assert e3 + [] == e3;
    ExpandSnocOk(pool, s4, c, e3, []);
    assert s5 == [root, a, b, c, c] && s5[1..] == e3 == [a, b, c, c];
  }

  /**
   * The walk keeps no visited set: in a diamond (the root depends on `a` and
   * `b`, both of which depend on `c`), `c` is returned twice.
   * `DiamondWalk` instantiates it on a concrete pool.
   */
  lemma DiamondEmitsTwice(pool: seq<ProjectVersionMeta>, rank: ProjectVersionMeta -> nat,
                          root: ProjectVersionMeta, a: ProjectVersionMeta, b: ProjectVersionMeta, c: ProjectVersionMeta)
    requires Acyclic(pool, rank) && Descends(pool, rank, root)
    requires Children(pool, root.dependencies) == Ok([a, b])
    requires Children(pool, a.dependencies) == Ok([c]) && Children(pool, b.dependencies) == Ok([c])
    requires Children(pool, c.dependencies) == Ok([])
    ensures Walk(pool, rank, root) == Ok([root, a, b, c, c])
  {
    DiamondShape(pool, root, a, b, c);
    WalkReturnsIff(pool, rank, root, [root, a, b, c, c]);
  }

  /** The concrete diamond: `c` comes out twice, once below `a` and once below `b`. */
  lemma DiamondWalk(pool: seq<ProjectVersionMeta>, rank: ProjectVersionMeta -> nat, root: ProjectVersionMeta)
    requires pool == diamondPool && rank == diamondRank && root == diamondRoot
    ensures Acyclic(pool, rank) && Descends(pool, rank, root)
    ensures Walk(pool, rank, root) == Ok([root, diamondA, diamondB, diamondC, diamondC])
  {
    DiamondIsAcyclic();
    DiamondChildren();
    DiamondEmitsTwice(pool, rank, root, diamondA, diamondB, diamondC);
  }
}
