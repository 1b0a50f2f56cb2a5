/**
 * The breadth-first walk of one root's dependency tree
 * (`walkDependencyTree` with its inner `getMeta`).
 *
 * The walk keeps no visited set, so it returns only when no dependency
 * cycle is reachable from the root; a missing edge met before a cycle
 * repeats still ends it, with the error.  The model asks for more: a ghost `rank`
 * that strictly decreases along every edge that resolves in the pool, from
 * every pool entry, reachable or not (`Acyclic`), and from the root; the measure
 * that decreases at each step is the size of the dependency tree unfolded
 * below the queued nodes.
 */
module DependencyWalk {
  import opened ResolveTypes

  /** `getMeta`: the first entry of the pool matching the edge, or nothing (the "cannot find" case). */
  function Lookup(pool: seq<ProjectVersionMeta>, d: Dep): (r: Option<ProjectVersionMeta>)
    ensures r.Some? ==> r.value in pool && Matches(r.value, d.projectId, d.version)
  {
    match FindIndex(pool, d.projectId, d.version)
    case None => None
    case Some(i) => Some(pool[i])
  }

  /**
   * The metadata of a node's edges, looked up in order; the first edge with
   * no entry in the pool is the "cannot find" error.
   */
  function Children(pool: seq<ProjectVersionMeta>, deps: seq<Dep>): (r: Result<seq<ProjectVersionMeta>>)
    ensures r.Ok? <==> forall i :: 0 <= i < |deps| ==> Lookup(pool, deps[i]).Some?
    ensures r.Ok? ==> |r.value| == |deps| && forall i :: 0 <= i < |deps| ==> Lookup(pool, deps[i]) == Some(r.value[i])
    ensures r.Ok? ==> forall x :: x in r.value ==> x in pool
    ensures r.Err? ==> exists i :: 0 <= i < |deps| && Lookup(pool, deps[i]).None?
                                   && r.error == MissingMeta(deps[i].projectId, deps[i].version)
                                   && forall k :: 0 <= k < i ==> Lookup(pool, deps[k]).Some?
  {
    if deps == [] then Ok([])
    else match Lookup(pool, deps[0])
      case None => Err(MissingMeta(deps[0].projectId, deps[0].version))
      case Some(m) =>
        match Children(pool, deps[1..])
        case Err(e) =>
          assert forall k :: 1 <= k < |deps| ==> deps[1..][k - 1] == deps[k];
          Err(e)
        case Ok(ms) => Ok([m] + ms)
  }

  /** The number of declared edges of the given nodes. */
  function EdgeCount(nodes: seq<ProjectVersionMeta>): nat
  {
    if nodes == [] then 0 else EdgeCount(nodes[..|nodes| - 1]) + |nodes[|nodes| - 1].dependencies|
  }

  /**
   * Two results one after the other: both lists concatenated, or the first
   * error.
   */
  function Chain(a: Result<seq<ProjectVersionMeta>>, b: Result<seq<ProjectVersionMeta>>): Result<seq<ProjectVersionMeta>>
  {
    match a
    case Err(e) => Err(e)
    case Ok(xs) =>
      match b
      case Err(e) => Err(e)
      case Ok(ys) => Ok(xs + ys)
  }

  lemma ChainAssociative(a: Result<seq<ProjectVersionMeta>>, b: Result<seq<ProjectVersionMeta>>, c: Result<seq<ProjectVersionMeta>>)
    ensures Chain(Chain(a, b), c) == Chain(a, Chain(b, c))
  {
    if a.Ok? && b.Ok? && c.Ok? {
      assert (a.value + b.value) + c.value == a.value + (b.value + c.value);
    }
  }

  /**
   * Everything the given nodes push onto the queue, in order: their
   * children, node after node; the first node with a missing edge decides
   * the error.
   */
  function Expand(pool: seq<ProjectVersionMeta>, nodes: seq<ProjectVersionMeta>): (r: Result<seq<ProjectVersionMeta>>)
    ensures r.Ok? ==> |r.value| == EdgeCount(nodes)
    ensures r.Ok? ==> forall x :: x in r.value ==> x in pool
  {
    if nodes == [] then Ok([])
    else
      var init := nodes[..|nodes| - 1];
      assert forall i :: 0 <= i < |init| ==> init[i] == nodes[i];
      Chain(Expand(pool, init), Children(pool, nodes[|nodes| - 1].dependencies))
  }

  /** Every edge of `m` that resolves in the pool leads to a node of smaller rank. */
  ghost predicate Descends(pool: seq<ProjectVersionMeta>, rank: ProjectVersionMeta -> nat, m: ProjectVersionMeta)
  {
    forall j :: 0 <= j < |m.dependencies| && Lookup(pool, m.dependencies[j]).Some? ==>
      rank(Lookup(pool, m.dependencies[j]).value) < rank(m)
  }

  /**
   * The dependency graph over the whole pool, entries no root reaches
   * included, has no cycle: `rank` decreases along every edge.
   */
  ghost predicate Acyclic(pool: seq<ProjectVersionMeta>, rank: ProjectVersionMeta -> nat)
  {
    forall m :: m in pool ==> Descends(pool, rank, m)
  }

  ghost predicate AllDescend(pool: seq<ProjectVersionMeta>, rank: ProjectVersionMeta -> nat, nodes: seq<ProjectVersionMeta>)
  {
    forall m :: m in nodes ==> Descends(pool, rank, m)
  }

  /** The number of nodes of the dependency tree unfolded below `m`, `m` included. */
  ghost function Size(pool: seq<ProjectVersionMeta>, rank: ProjectVersionMeta -> nat, m: ProjectVersionMeta): nat
    requires Acyclic(pool, rank) && Descends(pool, rank, m)
    decreases rank(m), 1, 0
  {
    1 + EdgesSize(pool, rank, m, 0)
  }

  /** The sizes of the subtrees below the edges of `m` from index `k` on. */
  ghost function EdgesSize(pool: seq<ProjectVersionMeta>, rank: ProjectVersionMeta -> nat, m: ProjectVersionMeta, k: nat): nat
    requires Acyclic(pool, rank) && Descends(pool, rank, m) && k <= |m.dependencies|
    decreases rank(m), 0, |m.dependencies| - k
  {
    if k == |m.dependencies| then 0
    else
      var below := match Lookup(pool, m.dependencies[k])
        case None => 0
        case Some(c) => Size(pool, rank, c);
      below + EdgesSize(pool, rank, m, k + 1)
  }

  ghost function SumSize(pool: seq<ProjectVersionMeta>, rank: ProjectVersionMeta -> nat, nodes: seq<ProjectVersionMeta>): nat
    requires Acyclic(pool, rank) && AllDescend(pool, rank, nodes)
  {
    if nodes == [] then 0 else Size(pool, rank, nodes[0]) + SumSize(pool, rank, nodes[1..])
  }

  lemma {:induction false} SumSizeAppend(pool: seq<ProjectVersionMeta>, rank: ProjectVersionMeta -> nat, a: seq<ProjectVersionMeta>, b: seq<ProjectVersionMeta>)
    requires Acyclic(pool, rank) && AllDescend(pool, rank, a) && AllDescend(pool, rank, b)
    ensures AllDescend(pool, rank, a + b)
    ensures SumSize(pool, rank, a + b) == SumSize(pool, rank, a) + SumSize(pool, rank, b)
  {
    if a == [] {
      assert a + b == b;
    } else {
      assert (a + b)[0] == a[0] && (a + b)[1..] == a[1..] + b;
      SumSizeAppend(pool, rank, a[1..], b);
    }
  }

  /** The size of the children's subtrees, edge by edge from index `k`. */
  lemma {:induction false} EdgesSizeOfChildren(pool: seq<ProjectVersionMeta>, rank: ProjectVersionMeta -> nat, m: ProjectVersionMeta, k: nat)
    requires Acyclic(pool, rank) && Descends(pool, rank, m) && k <= |m.dependencies|
    requires Children(pool, m.dependencies[k..]).Ok?
    ensures AllDescend(pool, rank, Children(pool, m.dependencies[k..]).value)
    ensures EdgesSize(pool, rank, m, k) == SumSize(pool, rank, Children(pool, m.dependencies[k..]).value)
    decreases |m.dependencies| - k
  {
    var cs := Children(pool, m.dependencies[k..]).value;
    if k < |m.dependencies| {
      assert m.dependencies[k..][1..] == m.dependencies[k + 1..];
      assert m.dependencies[k..][0] == m.dependencies[k];
      EdgesSizeOfChildren(pool, rank, m, k + 1);
    }
  }

  /** A node's tree is the node plus its children's trees. */
  lemma SizeOfChildren(pool: seq<ProjectVersionMeta>, rank: ProjectVersionMeta -> nat, m: ProjectVersionMeta)
    requires Acyclic(pool, rank) && Descends(pool, rank, m)
    requires Children(pool, m.dependencies).Ok?
    ensures AllDescend(pool, rank, Children(pool, m.dependencies).value)
    ensures Size(pool, rank, m) == 1 + SumSize(pool, rank, Children(pool, m.dependencies).value)
  {
    assert m.dependencies[0..] == m.dependencies;
    EdgesSizeOfChildren(pool, rank, m, 0);
  }

  /** Replacing the head of a queue by its children shrinks the measure by one. */
  lemma StepShrinks(pool: seq<ProjectVersionMeta>, rank: ProjectVersionMeta -> nat, queue: seq<ProjectVersionMeta>, cs: seq<ProjectVersionMeta>)
    requires Acyclic(pool, rank) && AllDescend(pool, rank, queue) && queue != []
    requires Children(pool, queue[0].dependencies) == Ok(cs)
    ensures AllDescend(pool, rank, queue[1..] + cs)
    ensures SumSize(pool, rank, queue[1..] + cs) < SumSize(pool, rank, queue)
  {
    SizeOfChildren(pool, rank, queue[0]);
    SumSizeAppend(pool, rank, queue[1..], cs);
  }

  /** The FIFO walk from a queue: dequeue the head, emit it, enqueue its children. */
  ghost function Bfs(pool: seq<ProjectVersionMeta>, rank: ProjectVersionMeta -> nat, queue: seq<ProjectVersionMeta>): Result<seq<ProjectVersionMeta>>
    requires Acyclic(pool, rank) && AllDescend(pool, rank, queue)
    decreases SumSize(pool, rank, queue)
  {
    if queue == [] then Ok([])
    else match Children(pool, queue[0].dependencies)
      case Err(e) => Err(e)
      case Ok(cs) =>
        StepShrinks(pool, rank, queue, cs);
        Chain(Ok([queue[0]]), Bfs(pool, rank, queue[1..] + cs))
  }

  /** What `walkDependencyTree(root, pool)` returns or throws. */
  ghost function Walk(pool: seq<ProjectVersionMeta>, rank: ProjectVersionMeta -> nat, root: ProjectVersionMeta): Result<seq<ProjectVersionMeta>>
    requires Acyclic(pool, rank) && Descends(pool, rank, root)
  {
    Bfs(pool, rank, [root])
  }

  /**
   * `walkDependencyTree`: a queue starting at the root; each step shifts the
   * head, appends it to the result and pushes the metadata of its edges.
   */
  method WalkDependencyTree(root: ProjectVersionMeta, available: seq<ProjectVersionMeta>, ghost rank: ProjectVersionMeta -> nat)
    returns (outcome: Result<seq<ProjectVersionMeta>>)
    requires Acyclic(available, rank) && Descends(available, rank, root)
    ensures outcome == Walk(available, rank, root)
  {
    var queue := [root];
    var result: seq<ProjectVersionMeta> := [];
    ghost var whole := Bfs(available, rank, queue);
    assert whole.Ok? ==> [] + whole.value == whole.value;
    while |queue| > 0
      invariant AllDescend(available, rank, queue)
      invariant Walk(available, rank, root) == Chain(Ok(result), Bfs(available, rank, queue))
      decreases SumSize(available, rank, queue)
    {
      var curr := queue[0];
      ghost var before := queue;
      queue := queue[1..];
      result := result + [curr];
      var children := Children(available, curr.dependencies);
      if children.Err? {
        return Err(children.error);
      }
      StepShrinks(available, rank, before, children.value);
      queue := queue + children.value;
      assert Bfs(available, rank, before) == Chain(Ok([curr]), Bfs(available, rank, queue));
      ChainAssociative(Ok(result[..|result| - 1]), Ok([curr]), Bfs(available, rank, queue));
      assert result[..|result| - 1] + [curr] == result;
    }
    assert result + [] == result;
    return Ok(result);
  }
}
