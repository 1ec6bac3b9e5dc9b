/** The breadth-first search over workflow edges, and what it finds. */
module Reachability {

  /** A node's UUID, as a number. */
  type NodeId = nat

  /** An edge between two nodes; its own id and its sockets play no part here. */
  datatype Edge = Edge(source: NodeId, target: NodeId)

  predicate IsPath(edges: seq<Edge>, path: seq<NodeId>) {
    path != [] && forall i :: 0 <= i < |path| - 1 ==> Edge(path[i], path[i + 1]) in edges
  }

  ghost predicate ReachableBy(edges: seq<Edge>, starts: seq<NodeId>, n: NodeId, path: seq<NodeId>) {
    IsPath(edges, path) && path[0] in starts && path[|path| - 1] == n
  }

  /** Some path of edges leads from one of `starts` to `n`. */
  ghost predicate Reachable(edges: seq<Edge>, starts: seq<NodeId>, n: NodeId) {
    exists path :: ReachableBy(edges, starts, n, path)
  }

  lemma ReachableStart(edges: seq<Edge>, starts: seq<NodeId>, n: NodeId)
    requires n in starts
    ensures Reachable(edges, starts, n)
  {
    assert ReachableBy(edges, starts, n, [n]);
  }

  lemma ReachableStep(edges: seq<Edge>, starts: seq<NodeId>, e: Edge)
    requires e in edges && Reachable(edges, starts, e.source)
    ensures Reachable(edges, starts, e.target)
  {
    var path :| ReachableBy(edges, starts, e.source, path);
    var longer := path + [e.target];
    forall i | 0 <= i < |longer| - 1
      ensures Edge(longer[i], longer[i + 1]) in edges
    {
      if i == |path| - 1 {
        assert Edge(longer[i], longer[i + 1]) == e;
      } else {
        assert Edge(path[i], path[i + 1]) in edges;
      }
    }
    assert ReachableBy(edges, starts, e.target, longer);
  }

  /** No edge leads out of `s`. */
  ghost predicate Closed(edges: seq<Edge>, s: set<NodeId>) {
    forall e :: e in edges && e.source in s ==> e.target in s
  }

  lemma {:induction false} ClosedHoldsPath(edges: seq<Edge>, s: set<NodeId>, path: seq<NodeId>)
    requires Closed(edges, s) && IsPath(edges, path) && path[0] in s
    ensures path[|path| - 1] in s
  {
    var n := |path| - 1;
    if n > 0 {
      var shorter := path[..n];
      assert forall i :: 0 <= i < n - 1 ==> Edge(shorter[i], shorter[i + 1]) == Edge(path[i], path[i + 1]);
      ClosedHoldsPath(edges, s, shorter);
      assert Edge(path[n - 1], path[n]) in edges;
    }
  }

  /** A closed set with the starts holds everything reachable. */
  lemma ClosedHoldsReachable(edges: seq<Edge>, starts: seq<NodeId>, s: set<NodeId>)
    requires Closed(edges, s) && forall n :: n in starts ==> n in s
    ensures forall n :: Reachable(edges, starts, n) ==> n in s
  {
    forall n | Reachable(edges, starts, n)
      ensures n in s
    {
      var path :| ReachableBy(edges, starts, n, path);
      ClosedHoldsPath(edges, s, path);
    }
  }

  /** The targets of the edges out of `node`, in edge order. */
  function Targets(edges: seq<Edge>, node: NodeId): (targets: seq<NodeId>)
    ensures forall t :: t in targets <==> Edge(node, t) in edges
  {
    if edges == [] then []
    else
      var n := |edges| - 1;
      assert edges == edges[..n] + [edges[n]];
      Targets(edges[..n], node) + if edges[n].source == node then [edges[n].target] else []
  }

  method PushTargets(edges: seq<Edge>, node: NodeId, queue: seq<NodeId>) returns (longer: seq<NodeId>)
    ensures longer == queue + Targets(edges, node)
  {
    longer := queue;
    for i := 0 to |edges|
      invariant longer == queue + Targets(edges[..i], node)
    {
      assert edges[..i + 1][..i] == edges[..i];
      if edges[i].source == node {
        longer := longer + [edges[i].target];
      }
    }
    assert edges[..|edges|] == edges;
  }

  /** Everything the queue can ever hold. */
  function Universe(edges: seq<Edge>, starts: seq<NodeId>): set<NodeId> {
    (set n | n in starts) + (set e | e in edges :: e.target)
  }

  /** Seen and queued nodes are reachable, and together they hold the starts and all successors of seen nodes. */
  ghost predicate Frontier(edges: seq<Edge>, starts: seq<NodeId>, seen: set<NodeId>, queue: seq<NodeId>) {
    && (forall n :: n in seen || n in queue ==> n in Universe(edges, starts) && Reachable(edges, starts, n))
    && (forall n :: n in starts ==> n in seen || n in queue)
    && (forall e :: e in edges && e.source in seen ==> e.target in seen || e.target in queue)
  }

  lemma FrontierStart(edges: seq<Edge>, starts: seq<NodeId>)
    ensures Frontier(edges, starts, {}, starts)
  {
    forall n | n in starts
      ensures Reachable(edges, starts, n)
    {
      ReachableStart(edges, starts, n);
    }
  }

  lemma FrontierSkip(edges: seq<Edge>, starts: seq<NodeId>, seen: set<NodeId>, queue: seq<NodeId>)
    requires queue != [] && queue[0] in seen && Frontier(edges, starts, seen, queue)
    ensures Frontier(edges, starts, seen, queue[1..])
  {
    assert forall n :: n in queue ==> n == queue[0] || n in queue[1..];
  }

  lemma FrontierVisit(edges: seq<Edge>, starts: seq<NodeId>, seen: set<NodeId>, queue: seq<NodeId>, queue': seq<NodeId>)
    requires queue != [] && Frontier(edges, starts, seen, queue)
    requires queue' == queue[1..] + Targets(edges, queue[0])
    ensures Frontier(edges, starts, seen + {queue[0]}, queue')
  {
    var node, seen' := queue[0], seen + {queue[0]};
    assert forall n :: n in queue ==> n == node || n in queue[1..];
    assert forall n :: n in queue' <==> n in queue[1..] || n in Targets(edges, node);
    forall t | t in Targets(edges, node)
      ensures t in Universe(edges, starts) && Reachable(edges, starts, t)
    {
      assert Edge(node, t) in edges && Edge(node, t).target == t;
      ReachableStep(edges, starts, Edge(node, t));
    }
    forall e | e in edges && e.source in seen'
      ensures e.target in seen' || e.target in queue'
    {
      if e.source == node {
        assert Edge(node, e.target) == e;
      }
    }
  }

  /** The search: duplicates may be queued, and it still ends, with exactly the reachable nodes. */
  method ReachableNodes(edges: seq<Edge>, starts: seq<NodeId>) returns (seen: set<NodeId>)
    ensures forall n :: n in seen <==> Reachable(edges, starts, n)
    ensures Closed(edges, seen)
  {
    seen := {};
    var queue := starts;
    FrontierStart(edges, starts);
    while queue != []
      invariant Frontier(edges, starts, seen, queue)
      decreases Universe(edges, starts) - seen, |queue|
    {
      var node := queue[0];
      assert node in queue;
      if node in seen {
        FrontierSkip(edges, starts, seen, queue);
        queue := queue[1..];
      } else {
        var longer := PushTargets(edges, node, queue[1..]);
        FrontierVisit(edges, starts, seen, queue, longer);
        assert node in Universe(edges, starts) - seen && node !in Universe(edges, starts) - (seen + {node});
        seen, queue := seen + {node}, longer;
      }
    }
    ClosedHoldsReachable(edges, starts, seen);
  }

  /** The result is the least closed set that holds the starts. */
  lemma ReachableIsLeast(edges: seq<Edge>, starts: seq<NodeId>, seen: set<NodeId>, s: set<NodeId>)
    requires forall n :: n in seen <==> Reachable(edges, starts, n)
    requires Closed(edges, s) && forall n :: n in starts ==> n in s
    ensures seen <= s
  {
    ClosedHoldsReachable(edges, starts, s);
  }
}
