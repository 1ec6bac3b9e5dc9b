/**
  The workflow compiler: validation over the reports of the flow library, and the dispatch walk
  along first outgoing edges over an arbitrary, possibly cyclic graph.
 */
module Workflow {
  import opened Outcomes
  import opened Reachability

  datatype Role = Trigger | Executable | Branch | Output | OtherRole

  /** A field of a node's JSON data: a string or anything else. */
  datatype Json = Text(text: string) | NotText

  datatype Node = Node(id: NodeId, kind: string, labelField: Option<Json>, nameField: Option<Json>)
  datatype Flow = Flow(nodes: seq<Node>, edges: seq<Edge>)

  /** The node catalog of the flow library, as far as the compiler asks it. */
  datatype Catalog = Catalog(roleFor: Node -> Option<Role>, fleetDispatch: string, sentrySubmit: string)

  datatype Step = Step(nodeId: NodeId, kind: string, title: string, action: string)
  datatype Plan = Plan(trigger: string, steps: seq<Step>, output: string)

  function NodeLabel(node: Node): string {
    var field := if node.labelField.Some? then node.labelField else node.nameField;
    if field.Some? && field.value.Text? then field.value.text else node.kind
  }

  function ActionFor(catalog: Catalog, node: Node): string {
    if node.kind == catalog.fleetDispatch then "POST /api/fleet/dispatch"
    else if node.kind == catalog.sentrySubmit then "POST /api/sentry/submit"
    else if node.kind == "mcp_tool" then "invoke MCP tool"
    else if node.kind == "acp_session" then "open ACP session"
    else if node.kind == "wait_for_result" then "wait for MQTT/Aether result"
    else if node.kind == "branch" then "branch on result status"
    else "run " + node.kind
  }

  function StepFor(catalog: Catalog, node: Node): Step {
    Step(node.id, node.kind, NodeLabel(node), ActionFor(catalog, node))
  }

  // ---------------------------------------------------------------------------------------------
  // Lookups

  /** The target of the first edge out of `id`. */
  function FirstTarget(edges: seq<Edge>, id: NodeId): (target: Option<NodeId>)
    ensures target.Some? ==> Edge(id, target.value) in edges
  {
    if edges == [] then None
    else if edges[0].source == id then Some(edges[0].target)
    else FirstTarget(edges[1..], id)
  }

  /** The first node with the given role. */
  function FirstWithRole(catalog: Catalog, nodes: seq<Node>, role: Role): (found: Option<Node>)
    ensures found.Some? <==> exists node :: node in nodes && catalog.roleFor(node) == Some(role)
    ensures found.Some? ==> found.value in nodes && catalog.roleFor(found.value) == Some(role)
  {
    if nodes == [] then None
    else if catalog.roleFor(nodes[0]) == Some(role) then Some(nodes[0])
    else FirstWithRole(catalog, nodes[1..], role)
  }

  type Index = map<NodeId, Node>

  /** The nodes by id; of two nodes with one id the later is kept. */
  function IndexOf(nodes: seq<Node>): (index: Index)
    ensures forall id :: id in index ==> index[id] in nodes && index[id].id == id
    ensures forall node :: node in nodes ==> node.id in index
  {
    if nodes == [] then map[]
    else
      var n := |nodes| - 1;
      assert nodes == nodes[..n] + [nodes[n]];
      IndexOf(nodes[..n])[nodes[n].id := nodes[n]]
  }

  predicate IsStep(role: Option<Role>) {
    role == Some(Executable) || role == Some(Branch)
  }

  // ---------------------------------------------------------------------------------------------
  // The dispatch walk

  predicate Distinct<T(==)>(s: seq<T>) {
    forall i, j :: 0 <= i < j < |s| ==> s[i] != s[j]
  }

  predicate FollowsFirstEdges(edges: seq<Edge>, w: seq<NodeId>) {
    forall i :: 0 <= i < |w| - 1 ==> FirstTarget(edges, w[i]) == Some(w[i + 1])
  }

  /** `w` leaves `trigger` along first edges, through nodes that exist, are no outputs and do not repeat. */
  predicate IsWalk(edges: seq<Edge>, catalog: Catalog, index: Index, trigger: NodeId, w: seq<NodeId>) {
    && w != [] && w[0] == trigger
    && FollowsFirstEdges(edges, w)
    && Distinct(w[1..])
    && forall i :: 1 <= i < |w| ==> w[i] in index && catalog.roleFor(index[w[i]]) != Some(Output)
  }

  /** There is no way on: no edge, no such node, an output, or a node already walked. */
  predicate IsStuck(edges: seq<Edge>, catalog: Catalog, index: Index, w: seq<NodeId>)
    requires w != []
  {
    var next := FirstTarget(edges, w[|w| - 1]);
    next.Some? ==> next.value !in index || next.value in w[1..] || catalog.roleFor(index[next.value]) == Some(Output)
  }

  predicate IsDispatchWalk(edges: seq<Edge>, catalog: Catalog, index: Index, trigger: NodeId, w: seq<NodeId>) {
    IsWalk(edges, catalog, index, trigger, w) && IsStuck(edges, catalog, index, w)
  }

  /** The steps along a list of walked nodes: the executable and branch nodes among them, in order. */
  function StepsOf(catalog: Catalog, index: Index, ids: seq<NodeId>): seq<Step> {
    if ids == [] then []
    else
      var n := |ids| - 1;
      var id := ids[n];
      StepsOf(catalog, index, ids[..n])
      + if id in index && IsStep(catalog.roleFor(index[id])) then [StepFor(catalog, index[id])] else []
  }

  /** Two walks agree as far as both go. */
  lemma {:induction false} WalksAgree(edges: seq<Edge>, catalog: Catalog, index: Index, trigger: NodeId,
                                      w: seq<NodeId>, w': seq<NodeId>, k: nat)
    requires IsWalk(edges, catalog, index, trigger, w) && IsWalk(edges, catalog, index, trigger, w')
    requires k < |w| && k < |w'|
    ensures w[k] == w'[k]
  {
    if k > 0 {
      WalksAgree(edges, catalog, index, trigger, w, w', k - 1);
      assert FirstTarget(edges, w[k - 1]) == Some(w[k - 1 + 1]);
      assert FirstTarget(edges, w'[k - 1]) == Some(w'[k - 1 + 1]);
    }
  }

  lemma LongerWalkGoesOn(edges: seq<Edge>, catalog: Catalog, index: Index, trigger: NodeId, w: seq<NodeId>,
                         w': seq<NodeId>)
    requires IsWalk(edges, catalog, index, trigger, w) && IsWalk(edges, catalog, index, trigger, w') && |w| < |w'|
    ensures !IsStuck(edges, catalog, index, w)
  {
    var n := |w|;
    forall k | 0 <= k < n
      ensures w[k] == w'[k]
    {
      WalksAgree(edges, catalog, index, trigger, w, w', k);
    }
    assert FirstTarget(edges, w'[n - 1]) == Some(w'[n - 1 + 1]);
    assert w'[1..][n - 1] == w'[n];
    assert forall k :: 0 <= k < n - 1 ==> w[1..][k] == w'[1..][k];
  }

  lemma StuckIsNotShorter(edges: seq<Edge>, catalog: Catalog, index: Index, trigger: NodeId, w: seq<NodeId>,
                          w': seq<NodeId>)
    requires IsDispatchWalk(edges, catalog, index, trigger, w) && IsWalk(edges, catalog, index, trigger, w')
    ensures |w'| <= |w|
  {
    if |w| < |w'| {
      LongerWalkGoesOn(edges, catalog, index, trigger, w, w');
    }
  }

  /** The dispatch walk of a flow is unique. */
  lemma DispatchWalkUnique(edges: seq<Edge>, catalog: Catalog, index: Index, trigger: NodeId, w: seq<NodeId>,
                           w': seq<NodeId>)
    requires IsDispatchWalk(edges, catalog, index, trigger, w) && IsDispatchWalk(edges, catalog, index, trigger, w')
    ensures w == w'
  {
    StuckIsNotShorter(edges, catalog, index, trigger, w, w');
    StuckIsNotShorter(edges, catalog, index, trigger, w', w);
    forall k | 0 <= k < |w|
      ensures w[k] == w'[k]
    {
      WalksAgree(edges, catalog, index, trigger, w, w', k);
    }
  }

  lemma TailDistinct(w: seq<NodeId>, i: nat, j: nat)
    requires 0 < i < j < |w| && Distinct(w[1..])
    ensures w[i] != w[j]
  {
    assert w[1..][i - 1] == w[i] && w[1..][j - 1] == w[j];
  }

  /** A walk that is back at a node it came through is back at the trigger, and stuck there anyway. */
  lemma VisitedMeansTrigger(edges: seq<Edge>, catalog: Catalog, index: Index, trigger: NodeId, w: seq<NodeId>)
    requires IsWalk(edges, catalog, index, trigger, w) && w[|w| - 1] in w[..|w| - 1]
    ensures w[|w| - 1] == trigger && IsStuck(edges, catalog, index, w)
  {
    var n := |w| - 1;
    forall k | 0 < k < n
      ensures w[k] != w[n]
    {
      TailDistinct(w, k, n);
    }
    assert FirstTarget(edges, w[0]) == Some(w[0 + 1]);
    assert w[1..][0] == w[1];
  }

  /** Every walked node is reachable from the trigger. */
  lemma WalkedIsReachable(edges: seq<Edge>, catalog: Catalog, index: Index, trigger: NodeId, w: seq<NodeId>)
    requires IsWalk(edges, catalog, index, trigger, w)
    ensures Reachable(edges, [trigger], w[|w| - 1])
  {
    forall i | 0 <= i < |w| - 1
      ensures Edge(w[i], w[i + 1]) in edges
    {
      assert FirstTarget(edges, w[i]) == Some(w[i + 1]);
    }
    assert ReachableBy(edges, [trigger], w[|w| - 1], w);
  }

  lemma WalkOn(edges: seq<Edge>, catalog: Catalog, index: Index, trigger: NodeId, w: seq<NodeId>, next: NodeId)
    requires IsWalk(edges, catalog, index, trigger, w) && FirstTarget(edges, w[|w| - 1]) == Some(next)
    requires next in index && next !in w[1..] && catalog.roleFor(index[next]) != Some(Output)
    ensures IsWalk(edges, catalog, index, trigger, w + [next])
    ensures (w + [next])[1..] == w[1..] + [next]
  {
    var longer := w + [next];
    assert longer[1..] == w[1..] + [next];
    forall i | 0 <= i < |longer| - 1
      ensures FirstTarget(edges, longer[i]) == Some(longer[i + 1])
    {
      if i < |w| - 1 {
        assert FirstTarget(edges, w[i]) == Some(w[i + 1]);
      }
    }
  }

  function IdSet(ids: seq<NodeId>): set<NodeId> {
    set id | id in ids
  }

  /** What the compiler's variables hold after walking `w`. */
  ghost predicate Walked(edges: seq<Edge>, catalog: Catalog, index: Index, trigger: NodeId, w: seq<NodeId>,
                         cursor: NodeId, visited: set<NodeId>, indexed: Index, steps: seq<Step>)
  {
    && IsWalk(edges, catalog, index, trigger, w) && cursor == w[|w| - 1]
    && visited == IdSet(w[..|w| - 1])
    && indexed == index - IdSet(w[1..])
    && steps == StepsOf(catalog, index, w[1..])
  }

  /** `visited` can stop the loop only back at the trigger, where the walk is stuck in any case. */
  lemma WalkedBack(edges: seq<Edge>, catalog: Catalog, index: Index, trigger: NodeId, w: seq<NodeId>,
                   cursor: NodeId, visited: set<NodeId>, indexed: Index, steps: seq<Step>)
    requires Walked(edges, catalog, index, trigger, w, cursor, visited, indexed, steps) && cursor in visited
    ensures cursor == trigger && IsDispatchWalk(edges, catalog, index, trigger, w)
  {
    VisitedMeansTrigger(edges, catalog, index, trigger, w);
  }

  /** `indexed` stops it exactly when the walk is stuck: nowhere to go, or only to an output. */
  lemma WalkedStuck(edges: seq<Edge>, catalog: Catalog, index: Index, trigger: NodeId, w: seq<NodeId>,
                    cursor: NodeId, visited: set<NodeId>, indexed: Index, steps: seq<Step>)
    requires Walked(edges, catalog, index, trigger, w, cursor, visited, indexed, steps)
    ensures var next := FirstTarget(edges, cursor);
            IsStuck(edges, catalog, index, w) <==>
              (next.Some? ==> next.value !in indexed || catalog.roleFor(indexed[next.value]) == Some(Output))
  {
  }

  lemma WalkedOn(edges: seq<Edge>, catalog: Catalog, index: Index, trigger: NodeId, w: seq<NodeId>,
                 cursor: NodeId, visited: set<NodeId>, indexed: Index, steps: seq<Step>, next: NodeId)
    requires Walked(edges, catalog, index, trigger, w, cursor, visited, indexed, steps)
    requires FirstTarget(edges, cursor) == Some(next)
    requires next in indexed && catalog.roleFor(indexed[next]) != Some(Output)
    ensures Walked(edges, catalog, index, trigger, w + [next], next, visited + {cursor}, indexed - {next},
                   steps + if IsStep(catalog.roleFor(indexed[next])) then [StepFor(catalog, indexed[next])] else [])
    ensures Reachable(edges, [trigger], next)
  {
    WalkOn(edges, catalog, index, trigger, w, next);
    WalkedIsReachable(edges, catalog, index, trigger, w + [next]);
    ExtendBookkeeping(catalog, index, w, next);
  }

  lemma ExtendBookkeeping(catalog: Catalog, index: Index, w: seq<NodeId>, next: NodeId)
    requires w != [] && next in index
    ensures var longer := w + [next];
            && index - IdSet(longer[1..]) == index - IdSet(w[1..]) - {next}
            && IdSet(longer[..|longer| - 1]) == IdSet(w[..|w| - 1]) + {w[|w| - 1]}
            && StepsOf(catalog, index, longer[1..]) ==
               StepsOf(catalog, index, w[1..])
               + if IsStep(catalog.roleFor(index[next])) then [StepFor(catalog, index[next])] else []
  {
    var longer := w + [next];
    assert longer[1..] == w[1..] + [next];
    assert longer[1..][..|w| - 1] == w[1..];
    assert longer[..|longer| - 1] == w;
    assert w == w[..|w| - 1] + [w[|w| - 1]];
  }

  /** The steps of the dispatch walk `w` from the trigger. */
  ghost predicate StepsOfWalk(catalog: Catalog, flow: Flow, trigger: NodeId, steps: seq<Step>, w: seq<NodeId>) {
    && IsDispatchWalk(flow.edges, catalog, IndexOf(flow.nodes), trigger, w)
    && steps == StepsOf(catalog, IndexOf(flow.nodes), w[1..])
  }

  /**
    The walk of the compiler, with its two guards: `visited`, and `indexed` from which every walked
    node is taken. It ends on every graph; its steps are those of the dispatch walk, although it also
    asks whether a node is among the reachable ones.
   */
  method WalkSteps(catalog: Catalog, flow: Flow, trigger: NodeId) returns (steps: seq<Step>)
    ensures exists w :: StepsOfWalk(catalog, flow, trigger, steps, w)
  {
    var reachable := ReachableNodes(flow.edges, [trigger]);
    ghost var index := IndexOf(flow.nodes);
    var indexed := IndexOf(flow.nodes);
    steps := [];
    var cursor := trigger;
    var visited: set<NodeId> := {};
    ghost var w := [trigger];
    while cursor !in visited
      invariant forall id :: id in indexed ==> indexed[id].id == id
      invariant Walked(flow.edges, catalog, index, trigger, w, cursor, visited, indexed, steps)
      decreases indexed.Keys
    {
      WalkedStuck(flow.edges, catalog, index, trigger, w, cursor, visited, indexed, steps);
      ghost var before := visited;
      visited := visited + {cursor};
      var next := FirstTarget(flow.edges, cursor);
      if next.None? {
        assert StepsOfWalk(catalog, flow, trigger, steps, w);
        return;
      }
      var nextId := next.value;
      if nextId !in indexed {
        assert StepsOfWalk(catalog, flow, trigger, steps, w);
        return;
      }
      var node := indexed[nextId];
      ghost var remaining := indexed;
      indexed := indexed - {nextId};
      if catalog.roleFor(node) == Some(Output) {
        assert StepsOfWalk(catalog, flow, trigger, steps, w);
        return;
      }
      WalkedOn(flow.edges, catalog, index, trigger, w, cursor, before, remaining, steps, nextId);
      if node.id in reachable && IsStep(catalog.roleFor(node)) {
        steps := steps + [StepFor(catalog, node)];
      }
      assert steps + [] == steps;
      cursor := node.id;
      w := w + [nextId];
    }
    WalkedBack(flow.edges, catalog, index, trigger, w, cursor, visited, indexed, steps);
    assert StepsOfWalk(catalog, flow, trigger, steps, w);
  }

  /** Steps come from walked nodes only, each once, and only from executable and branch nodes. */
  lemma {:induction false} StepsFromWalk(catalog: Catalog, index: Index, ids: seq<NodeId>, i: nat)
    requires (forall id :: id in index ==> index[id].id == id) && i < |StepsOf(catalog, index, ids)|
    ensures var step := StepsOf(catalog, index, ids)[i];
            && step.nodeId in ids && step.nodeId in index
            && IsStep(catalog.roleFor(index[step.nodeId])) && step == StepFor(catalog, index[step.nodeId])
  {
    var n := |ids| - 1;
    assert ids == ids[..n] + [ids[n]];
    if i < |StepsOf(catalog, index, ids[..n])| {
      StepsFromWalk(catalog, index, ids[..n], i);
    }
  }

  lemma {:induction false} StepsDistinct(catalog: Catalog, index: Index, ids: seq<NodeId>, i: nat, j: nat)
    requires (forall id :: id in index ==> index[id].id == id) && Distinct(ids)
    requires i < j < |StepsOf(catalog, index, ids)|
    ensures StepsOf(catalog, index, ids)[i].nodeId != StepsOf(catalog, index, ids)[j].nodeId
  {
    var n := |ids| - 1;
    if j < |StepsOf(catalog, index, ids[..n])| {
      StepsDistinct(catalog, index, ids[..n], i, j);
    } else {
      StepsFromWalk(catalog, index, ids[..n], i);
    }
  }
}
