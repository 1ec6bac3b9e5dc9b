/** The dispatch plan in terms of the positions of nodes and edges in the flow. */
module WorkflowPositions {
  import opened Outcomes
  import opened Reachability
  import opened Subsequences
  import opened Workflow
  import opened WorkflowCompiler

  // ---------------------------------------------------------------------------------------------
  // First edges and first nodes

  /** Edge `i` is the first that leaves `id`. */
  predicate IsFirstEdge(edges: seq<Edge>, id: NodeId, i: nat) {
    i < |edges| && edges[i].source == id && forall j :: 0 <= j < i ==> edges[j].source != id
  }

  lemma {:induction false} FirstEdgeFound(edges: seq<Edge>, id: NodeId) returns (i: nat)
    ensures FirstTarget(edges, id).None? ==> forall j :: 0 <= j < |edges| ==> edges[j].source != id
    ensures FirstTarget(edges, id).Some?
            ==> IsFirstEdge(edges, id, i) && FirstTarget(edges, id) == Some(edges[i].target)
  {
    i := 0;
    if edges != [] && edges[0].source != id {
      var k := FirstEdgeFound(edges[1..], id);
      assert forall j :: 1 <= j < |edges| ==> edges[j] == edges[1..][j - 1];
      i := k + 1;
    }
  }

  /**
    The target that is followed is that of the first edge that leaves the node; there is none exactly if no
    edge does.
   */
  lemma FirstTargetExactly(edges: seq<Edge>, id: NodeId, t: NodeId)
    ensures FirstTarget(edges, id) == Some(t) <==> exists i: nat :: IsFirstEdge(edges, id, i) && edges[i].target == t
    ensures FirstTarget(edges, id).None? <==> forall i :: 0 <= i < |edges| ==> edges[i].source != id
  {
    var k := FirstEdgeFound(edges, id);
    forall i: nat | IsFirstEdge(edges, id, i)
      ensures FirstTarget(edges, id) == Some(edges[i].target)
    {
      assert edges[i].source == id;
    }
  }

  predicate IsFirstWithRole(catalog: Catalog, nodes: seq<Node>, role: Role, i: nat) {
    && i < |nodes| && catalog.roleFor(nodes[i]) == Some(role)
    && forall j :: 0 <= j < i ==> catalog.roleFor(nodes[j]) != Some(role)
  }

  /** The node found for a role is the first that has it. */
  lemma {:induction false} FirstWithRoleAt(catalog: Catalog, nodes: seq<Node>, role: Role) returns (i: nat)
    requires FirstWithRole(catalog, nodes, role).Some?
    ensures IsFirstWithRole(catalog, nodes, role, i) && FirstWithRole(catalog, nodes, role) == Some(nodes[i])
  {
    i := 0;
    if catalog.roleFor(nodes[0]) != Some(role) {
      var k := FirstWithRoleAt(catalog, nodes[1..], role);
      assert forall j :: 1 <= j <= k + 1 ==> nodes[j] == nodes[1..][j - 1];
      i := k + 1;
    }
  }

  predicate IsLastWithId(nodes: seq<Node>, id: NodeId, i: nat) {
    i < |nodes| && nodes[i].id == id && forall j :: i < j < |nodes| ==> nodes[j].id != id
  }

  lemma {:induction false} LastFound(nodes: seq<Node>, id: NodeId, j: nat) returns (i: nat)
    requires j < |nodes| && nodes[j].id == id
    ensures IsLastWithId(nodes, id, i)
  {
    var n := |nodes| - 1;
    if nodes[n].id == id {
      i := n;
    } else {
      i := LastFound(nodes[..n], id, j);
    }
  }

  /** The node indexed under an id is the last that has it. */
  lemma {:induction false} LastIsIndexed(nodes: seq<Node>, id: NodeId, i: nat)
    requires IsLastWithId(nodes, id, i)
    ensures id in IndexOf(nodes) && IndexOf(nodes)[id] == nodes[i]
  {
    var n := |nodes| - 1;
    IndexSnoc(nodes[..n], nodes[n], nodes);
    if i < n {
      LastIsIndexed(nodes[..n], id, i);
    }
  }

  lemma IndexSnoc(earlier: seq<Node>, last: Node, nodes: seq<Node>)
    requires nodes != [] && earlier == nodes[..|nodes| - 1] && last == nodes[|nodes| - 1]
    ensures IndexOf(nodes) == IndexOf(earlier)[last.id := last]
  {
  }

  lemma IndexedAt(nodes: seq<Node>, id: NodeId) returns (i: nat)
    requires id in IndexOf(nodes)
    ensures IsLastWithId(nodes, id, i) && IndexOf(nodes)[id] == nodes[i]
  {
    var j :| 0 <= j < |nodes| && nodes[j] == IndexOf(nodes)[id];
    i := LastFound(nodes, id, j);
    LastIsIndexed(nodes, id, i);
  }

  lemma {:induction false} NodeWithIdAt(nodes: seq<Node>, id: NodeId) returns (i: nat)
    requires NodeWithId(nodes, id).Some?
    ensures i < |nodes| && nodes[i].id == id && NodeWithId(nodes, id) == Some(nodes[i])
    ensures forall j :: 0 <= j < i ==> nodes[j].id != id
  {
    i := 0;
    if nodes[0].id != id {
      var k := NodeWithIdAt(nodes[1..], id);
      assert forall j :: 1 <= j <= k + 1 ==> nodes[j] == nodes[1..][j - 1];
      i := k + 1;
    }
  }

  // ---------------------------------------------------------------------------------------------
  // What a step shows

  /** The label if there is one, even if it is no text; otherwise the name; otherwise, or if it is no text, the kind. */
  predicate IsLabel(node: Node, text: string) {
    match (node.labelField, node.nameField)
    case (Some(Text(t)), _) => text == t
    case (Some(NotText), _) => text == node.kind
    case (None, Some(Text(t))) => text == t
    case (None, _) => text == node.kind
  }

  lemma LabelShown(node: Node)
    ensures IsLabel(node, NodeLabel(node))
  {
  }

  predicate IsAction(catalog: Catalog, kind: string, text: string) {
    && (kind == catalog.fleetDispatch ==> text == "POST /api/fleet/dispatch")
    && (kind == catalog.sentrySubmit != catalog.fleetDispatch ==> text == "POST /api/sentry/submit")
    && (kind != catalog.fleetDispatch && kind != catalog.sentrySubmit ==>
          && (kind == "mcp_tool" ==> text == "invoke MCP tool")
          && (kind == "acp_session" ==> text == "open ACP session")
          && (kind == "wait_for_result" ==> text == "wait for MQTT/Aether result")
          && (kind == "branch" ==> text == "branch on result status")
          && (kind !in ["mcp_tool", "acp_session", "wait_for_result", "branch"] ==> text == "run " + kind))
  }

  lemma ActionShown(catalog: Catalog, node: Node)
    ensures IsAction(catalog, node.kind, ActionFor(catalog, node))
  {
  }

  predicate ShowsNode(catalog: Catalog, step: Step, node: Node) {
    && step.nodeId == node.id && step.kind == node.kind
    && IsLabel(node, step.title) && IsAction(catalog, node.kind, step.action)
  }

  lemma StepShown(catalog: Catalog, node: Node)
    ensures ShowsNode(catalog, StepFor(catalog, node), node)
  {
    LabelShown(node);
    ActionShown(catalog, node);
  }

  // ---------------------------------------------------------------------------------------------
  // The walk

  /** The first edge that leaves `from` leads to `to`. */
  ghost predicate LeadsTo(edges: seq<Edge>, from: NodeId, to: NodeId) {
    exists i: nat :: IsFirstEdge(edges, from, i) && edges[i].target == to
  }

  /** The last node with the given id has the given role. */
  ghost predicate HasRole(catalog: Catalog, nodes: seq<Node>, id: NodeId, role: Role) {
    exists i: nat :: IsLastWithId(nodes, id, i) && catalog.roleFor(nodes[i]) == Some(role)
  }

  lemma RoleOf(catalog: Catalog, nodes: seq<Node>, id: NodeId, role: Role)
    ensures HasRole(catalog, nodes, id, role)
            <==> id in IndexOf(nodes) && catalog.roleFor(IndexOf(nodes)[id]) == Some(role)
  {
    if id in IndexOf(nodes) {
      var k := IndexedAt(nodes, id);
    }
    forall i: nat | IsLastWithId(nodes, id, i)
      ensures id in IndexOf(nodes) && nodes[i] == IndexOf(nodes)[id]
    {
      LastIsIndexed(nodes, id, i);
    }
  }

  /**
    A walk is at its end: no edge leaves, or the first one leads to no node, to a node walked before, or to an
    output.
   */
  ghost predicate EndsAt(catalog: Catalog, flow: Flow, w: seq<NodeId>)
    requires w != []
  {
    var last := w[|w| - 1];
    || (forall i :: 0 <= i < |flow.edges| ==> flow.edges[i].source != last)
    || exists t ::
         && LeadsTo(flow.edges, last, t)
         && (!Names(flow, t) || t in w[1..] || HasRole(catalog, flow.nodes, t, Output))
  }

  /**
    The walk from the trigger by positions: it follows first edges over different nodes of the flow, none of
    them an output, and goes on to its end.
   */
  ghost predicate WalksToEnd(catalog: Catalog, flow: Flow, trigger: NodeId, w: seq<NodeId>) {
    && w != [] && w[0] == trigger
    && (forall i :: 0 <= i < |w| - 1 ==> LeadsTo(flow.edges, w[i], w[i + 1]))
    && (forall i, j :: 1 <= i < j < |w| ==> w[i] != w[j])
    && (forall i :: 1 <= i < |w| ==> Names(flow, w[i]) && !HasRole(catalog, flow.nodes, w[i], Output))
    && EndsAt(catalog, flow, w)
  }

  lemma NamedIsIndexed(flow: Flow, id: NodeId)
    ensures Names(flow, id) <==> id in IndexOf(flow.nodes)
  {
  }

  lemma WalkEnds(catalog: Catalog, flow: Flow, w: seq<NodeId>)
    requires w != [] && IsStuck(flow.edges, catalog, IndexOf(flow.nodes), w)
    ensures EndsAt(catalog, flow, w)
  {
    var last := w[|w| - 1];
    var next := FirstTarget(flow.edges, last);
    FirstTargetExactly(flow.edges, last, if next.Some? then next.value else 0);
    if next.Some? {
      RoleOf(catalog, flow.nodes, next.value, Output);
      NamedIsIndexed(flow, next.value);
      assert LeadsTo(flow.edges, last, next.value);
    }
  }

  /** The compiler's walk is that walk. */
  lemma DispatchWalkByPositions(catalog: Catalog, flow: Flow, trigger: NodeId, w: seq<NodeId>)
    requires IsDispatchWalk(flow.edges, catalog, IndexOf(flow.nodes), trigger, w)
    ensures WalksToEnd(catalog, flow, trigger, w)
  {
    forall i | 0 <= i < |w| - 1
      ensures LeadsTo(flow.edges, w[i], w[i + 1])
    {
      FirstTargetExactly(flow.edges, w[i], w[i + 1]);
    }
    forall i, j | 1 <= i < j < |w|
      ensures w[i] != w[j]
    {
      TailDistinct(w, i, j);
    }
    forall i | 1 <= i < |w|
      ensures Names(flow, w[i]) && !HasRole(catalog, flow.nodes, w[i], Output)
    {
      RoleOf(catalog, flow.nodes, w[i], Output);
      NamedIsIndexed(flow, w[i]);
    }
    WalkEnds(catalog, flow, w);
  }

  // ---------------------------------------------------------------------------------------------
  // The steps

  function StepIds(steps: seq<Step>): (ids: seq<NodeId>)
    ensures |ids| == |steps|
  {
    seq(|steps|, i requires 0 <= i < |steps| => steps[i].nodeId)
  }

  lemma StepIdsAppend(a: seq<Step>, b: seq<Step>)
    ensures StepIds(a + b) == StepIds(a) + StepIds(b)
  {
  }

  /** Steps keep the order of the walk. */
  lemma {:induction false} StepsInOrder(catalog: Catalog, index: Index, ids: seq<NodeId>)
    requires forall id :: id in index ==> index[id].id == id
    ensures IsSubsequence(StepIds(StepsOf(catalog, index, ids)), ids)
  {
    if ids != [] {
      var n := |ids| - 1;
      var before := StepsOf(catalog, index, ids[..n]);
      var id := ids[n];
      var last := if id in index && IsStep(catalog.roleFor(index[id])) then [StepFor(catalog, index[id])] else [];
      StepsInOrder(catalog, index, ids[..n]);
      StepIdsAppend(before, last);
      SubsequenceOfSelf([ids[n]]);
      assert StepIds(last) == [ids[n]] || StepIds(last) == [];
      SubsequenceAppend(StepIds(before), ids[..n], StepIds(last), [ids[n]]);
      assert ids == ids[..n] + [ids[n]];
    }
  }

  lemma {:induction false} StepsComplete(catalog: Catalog, index: Index, ids: seq<NodeId>, id: NodeId)
    requires forall i :: i in index ==> index[i].id == i
    ensures id in StepIds(StepsOf(catalog, index, ids))
            <==> id in ids && id in index && IsStep(catalog.roleFor(index[id]))
  {
    if ids != [] {
      var n := |ids| - 1;
      var before := StepsOf(catalog, index, ids[..n]);
      var end := ids[n];
      var last := if end in index && IsStep(catalog.roleFor(index[end])) then [StepFor(catalog, index[end])] else [];
      StepsComplete(catalog, index, ids[..n], id);
      StepIdsAppend(before, last);
      assert StepIds(last) == if last == [] then [] else [ids[n]];
      assert ids == ids[..n] + [ids[n]];
    }
  }

  /** The steps of a walk: its executable and branch nodes, all of them and in order, each as the flow shows it. */
  ghost predicate StepsAlong(catalog: Catalog, flow: Flow, ids: seq<NodeId>, steps: seq<Step>) {
    && IsSubsequence(StepIds(steps), ids)
    && (forall id :: id in StepIds(steps) <==>
          && id in ids
          && (HasRole(catalog, flow.nodes, id, Executable) || HasRole(catalog, flow.nodes, id, Branch)))
    && forall k :: 0 <= k < |steps| ==> ShowsSomeNode(catalog, flow.nodes, steps[k])
  }

  /** The step shows the last node with its id. */
  ghost predicate ShowsSomeNode(catalog: Catalog, nodes: seq<Node>, step: Step) {
    exists i: nat :: IsLastWithId(nodes, step.nodeId, i) && ShowsNode(catalog, step, nodes[i])
  }

  lemma StepsByPositions(catalog: Catalog, flow: Flow, ids: seq<NodeId>)
    ensures StepsAlong(catalog, flow, ids, StepsOf(catalog, IndexOf(flow.nodes), ids))
  {
    var index := IndexOf(flow.nodes);
    var steps := StepsOf(catalog, index, ids);
    StepsInOrder(catalog, index, ids);
    forall id
      ensures id in StepIds(steps) <==>
                && id in ids
                && (HasRole(catalog, flow.nodes, id, Executable) || HasRole(catalog, flow.nodes, id, Branch))
    {
      StepsComplete(catalog, index, ids, id);
      RoleOf(catalog, flow.nodes, id, Executable);
      RoleOf(catalog, flow.nodes, id, Branch);
    }
    forall k | 0 <= k < |steps|
      ensures ShowsSomeNode(catalog, flow.nodes, steps[k])
    {
      StepShows(catalog, flow, ids, k);
    }
  }

  lemma StepShows(catalog: Catalog, flow: Flow, ids: seq<NodeId>, k: nat)
    requires k < |StepsOf(catalog, IndexOf(flow.nodes), ids)|
    ensures ShowsSomeNode(catalog, flow.nodes, StepsOf(catalog, IndexOf(flow.nodes), ids)[k])
  {
    var step := StepsOf(catalog, IndexOf(flow.nodes), ids)[k];
    StepsFromWalk(catalog, IndexOf(flow.nodes), ids, k);
    var i := IndexedAt(flow.nodes, step.nodeId);
    StepShown(catalog, flow.nodes[i]);
  }

  // ---------------------------------------------------------------------------------------------
  // The plan

  ghost predicate ShowsFlow(catalog: Catalog, flow: Flow, plan: Plan, t: nat, o: nat, w: seq<NodeId>) {
    && IsFirstWithRole(catalog, flow.nodes, Trigger, t) && IsFirstWithRole(catalog, flow.nodes, Output, o)
    && IsLabel(flow.nodes[t], plan.trigger) && IsLabel(flow.nodes[o], plan.output)
    && WalksToEnd(catalog, flow, flow.nodes[t].id, w) && StepsAlong(catalog, flow, w[1..], plan.steps)
  }

  /**
    A plan by positions: the labels of the first trigger and of the first output, and the steps of the walk
    along first edges.
   */
  lemma PlanByPositions(catalog: Catalog, flow: Flow, plan: Plan) returns (t: nat, o: nat, w: seq<NodeId>)
    requires IsPlanOf(catalog, flow, plan)
    ensures ShowsFlow(catalog, flow, plan, t, o, w)
  {
    t := FirstWithRoleAt(catalog, flow.nodes, Trigger);
    o := FirstWithRoleAt(catalog, flow.nodes, Output);
    w :| WalkedPlan(catalog, flow, plan, flow.nodes[t], flow.nodes[o], w);
    LabelShown(flow.nodes[t]);
    LabelShown(flow.nodes[o]);
    DispatchWalkByPositions(catalog, flow, flow.nodes[t].id, w);
    StepsByPositions(catalog, flow, w[1..]);
  }
}
