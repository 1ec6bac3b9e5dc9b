/** Validation of a flow, compilation to a dispatch plan, and the state built from both. */
module WorkflowCompiler {
  import opened Outcomes
  import opened Reachability
  import opened Workflow

  /** What the flow library reports about a flow. */
  datatype Reports = Reports(
    danglingEdges: seq<nat>,
    unknownSockets: seq<nat>,
    duplicateNodeIds: seq<NodeId>,
    duplicateEdgeIds: seq<nat>,
    duplicateSockets: seq<(NodeId, string)>,
    unknownKinds: seq<(NodeId, string)>,
    missingSockets: seq<(NodeId, string, string)>,
    unexpectedSockets: seq<(NodeId, string, string)>,
    triggerCount: Option<nat>,
    outputMissing: bool,
    unreachableNodes: seq<NodeId>)

  /** One message of the validation. */
  datatype Problem =
    | DanglingEdge(edge: nat)
    | UnknownSocket(edge: nat)
    | DuplicateNode(node: NodeId)
    | DuplicateEdge(edge: nat)
    | DuplicateSocket(node: NodeId, socket: string)
    | UnknownKind(node: NodeId, kind: string)
    | MissingSocket(node: NodeId, kind: string, socket: string)
    | UnexpectedSocket(node: NodeId, kind: string, socket: string)
    | TriggerCount(count: nat)
    | OutputMissing
    | Unreachable(title: string)

  datatype Validation = Validation(errors: seq<Problem>, warnings: seq<Problem>)

  function Messages<T>(items: seq<T>, problem: T -> Problem): (problems: seq<Problem>)
    ensures |problems| == |items|
  {
    seq(|items|, i requires 0 <= i < |items| => problem(items[i]))
  }

  /** One of the loops that turn reported items into messages. */
  method PushEach<T>(problems: seq<Problem>, items: seq<T>, problem: T -> Problem) returns (more: seq<Problem>)
    ensures more == problems + Messages(items, problem)
  {
    more := problems;
    for i := 0 to |items|
      invariant more == problems + Messages(items, problem)[..i]
    {
      more := more + [problem(items[i])];
    }
  }

  predicate Names(flow: Flow, id: NodeId) {
    exists node :: node in flow.nodes && node.id == id
  }

  /** The first node with the given id. */
  function NodeWithId(nodes: seq<Node>, id: NodeId): (found: Option<Node>)
    ensures found.Some? <==> exists node :: node in nodes && node.id == id
    ensures found.Some? ==> found.value in nodes && found.value.id == id
  {
    if nodes == [] then None
    else if nodes[0].id == id then Some(nodes[0])
    else NodeWithId(nodes[1..], id)
  }

  /** A message for each reported id that names a node, with the label of that node. */
  function UnreachableMessages(flow: Flow, ids: seq<NodeId>): (problems: seq<Problem>)
    ensures problems == [] <==> forall i :: 0 <= i < |ids| ==> !Names(flow, ids[i])
  {
    if ids == [] then []
    else
      var n := |ids| - 1;
      var node := NodeWithId(flow.nodes, ids[n]);
      UnreachableMessages(flow, ids[..n]) + if node.Some? then [Unreachable(NodeLabel(node.value))] else []
  }

  method PushUnreachable(problems: seq<Problem>, flow: Flow, ids: seq<NodeId>) returns (more: seq<Problem>)
    ensures more == problems + UnreachableMessages(flow, ids)
  {
    more := problems;
    for i := 0 to |ids|
      invariant more == problems + UnreachableMessages(flow, ids[..i])
    {
      assert ids[..i + 1][..i] == ids[..i];
      var node := NodeWithId(flow.nodes, ids[i]);
      if node.Some? {
        more := more + [Unreachable(NodeLabel(node.value))];
      }
    }
    assert ids[..|ids|] == ids;
  }

  /** The reports that fault a flow are all empty; unexpected sockets only warn. */
  ghost predicate Clean(flow: Flow, reports: Reports) {
    && reports.danglingEdges == [] && reports.unknownSockets == []
    && reports.duplicateNodeIds == [] && reports.duplicateEdgeIds == [] && reports.duplicateSockets == []
    && reports.unknownKinds == [] && reports.missingSockets == []
    && reports.triggerCount.None? && !reports.outputMissing
    && forall i :: 0 <= i < |reports.unreachableNodes| ==> !Names(flow, reports.unreachableNodes[i])
  }

  /** The faults of the flow's own structure, of its nodes against the catalog, and of its shape. */
  function BaseFaults(reports: Reports): seq<Problem> {
    Messages(reports.danglingEdges, edge => DanglingEdge(edge))
    + Messages(reports.unknownSockets, edge => UnknownSocket(edge))
    + Messages(reports.duplicateNodeIds, node => DuplicateNode(node))
    + Messages(reports.duplicateEdgeIds, edge => DuplicateEdge(edge))
    + Messages(reports.duplicateSockets, (at: (NodeId, string)) => DuplicateSocket(at.0, at.1))
  }

  function CatalogFaults(reports: Reports): seq<Problem> {
    Messages(reports.unknownKinds, (at: (NodeId, string)) => UnknownKind(at.0, at.1))
    + Messages(reports.missingSockets, (at: (NodeId, string, string)) => MissingSocket(at.0, at.1, at.2))
  }

  function ShapeFaults(flow: Flow, reports: Reports): seq<Problem> {
    (if reports.triggerCount.Some? then [TriggerCount(reports.triggerCount.value)] else [])
    + (if reports.outputMissing then [OutputMissing] else [])
    + UnreachableMessages(flow, reports.unreachableNodes)
  }

  function Faults(flow: Flow, reports: Reports): seq<Problem> {
    BaseFaults(reports) + CatalogFaults(reports) + ShapeFaults(flow, reports)
  }

  /** A flow is valid exactly when the reports are clean. */
  lemma FaultsOfClean(flow: Flow, reports: Reports)
    ensures Faults(flow, reports) == [] <==> Clean(flow, reports)
  {
    assert |BaseFaults(reports)| == |reports.danglingEdges| + |reports.unknownSockets| + |reports.duplicateNodeIds|
                                    + |reports.duplicateEdgeIds| + |reports.duplicateSockets|;
    assert |CatalogFaults(reports)| == |reports.unknownKinds| + |reports.missingSockets|;
  }

  method PushBaseFaults(reports: Reports) returns (errors: seq<Problem>)
    ensures errors == BaseFaults(reports)
  {
    errors := PushEach([], reports.danglingEdges, edge => DanglingEdge(edge));
    errors := PushEach(errors, reports.unknownSockets, edge => UnknownSocket(edge));
    errors := PushEach(errors, reports.duplicateNodeIds, node => DuplicateNode(node));
    errors := PushEach(errors, reports.duplicateEdgeIds, edge => DuplicateEdge(edge));
    errors := PushEach(errors, reports.duplicateSockets, (at: (NodeId, string)) => DuplicateSocket(at.0, at.1));
  }

  method PushCatalogFaults(earlier: seq<Problem>, reports: Reports) returns (errors: seq<Problem>)
    ensures errors == earlier + CatalogFaults(reports)
  {
    errors := PushEach(earlier, reports.unknownKinds, (at: (NodeId, string)) => UnknownKind(at.0, at.1));
    errors :=
      PushEach(errors, reports.missingSockets, (at: (NodeId, string, string)) => MissingSocket(at.0, at.1, at.2));
  }

  method PushShapeFaults(earlier: seq<Problem>, flow: Flow, reports: Reports) returns (errors: seq<Problem>)
    ensures errors == earlier + ShapeFaults(flow, reports)
  {
    errors := earlier;
    if reports.triggerCount.Some? {
      errors := errors + [TriggerCount(reports.triggerCount.value)];
    }
    if reports.outputMissing {
      errors := errors + [OutputMissing];
    }
    errors := PushUnreachable(errors, flow, reports.unreachableNodes);
  }

  method ValidateWorkflow(flow: Flow, reports: Reports) returns (v: Validation)
    ensures v.errors == Faults(flow, reports)
    ensures v.errors == [] <==> Clean(flow, reports)
    ensures v.warnings == Messages(reports.unexpectedSockets,
                                   (at: (NodeId, string, string)) => UnexpectedSocket(at.0, at.1, at.2))
  {
    var errors := PushBaseFaults(reports);
    errors := PushCatalogFaults(errors, reports);
    var warnings :=
      PushEach([], reports.unexpectedSockets, (at: (NodeId, string, string)) => UnexpectedSocket(at.0, at.1, at.2));
    errors := PushShapeFaults(errors, flow, reports);
    FaultsOfClean(flow, reports);
    return Validation(errors, warnings);
  }

  // ---------------------------------------------------------------------------------------------
  // Plans

  ghost predicate WalkedPlan(catalog: Catalog, flow: Flow, plan: Plan, trigger: Node, output: Node, w: seq<NodeId>) {
    && IsDispatchWalk(flow.edges, catalog, IndexOf(flow.nodes), trigger.id, w)
    && plan == Plan(NodeLabel(trigger), StepsOf(catalog, IndexOf(flow.nodes), w[1..]), NodeLabel(output))
  }

  /** The plan of a flow: the steps of its dispatch walk from its first trigger. */
  ghost predicate IsPlanOf(catalog: Catalog, flow: Flow, plan: Plan) {
    var trigger, output := FirstWithRole(catalog, flow.nodes, Trigger), FirstWithRole(catalog, flow.nodes, Output);
    && trigger.Some? && output.Some?
    && exists w :: WalkedPlan(catalog, flow, plan, trigger.value, output.value, w)
  }

  method CompileDispatchPlan(catalog: Catalog, flow: Flow, reports: Reports) returns (plan: Option<Plan>)
    ensures plan.Some? <==>
              && Clean(flow, reports)
              && FirstWithRole(catalog, flow.nodes, Trigger).Some? && FirstWithRole(catalog, flow.nodes, Output).Some?
    ensures plan.Some? ==> IsPlanOf(catalog, flow, plan.value)
  {
    var validation := ValidateWorkflow(flow, reports);
    if validation.errors != [] {
      return None;
    }
    var input := FirstWithRole(catalog, flow.nodes, Trigger);
    if input.None? {
      return None;
    }
    var output := FirstWithRole(catalog, flow.nodes, Output);
    if output.None? {
      return None;
    }
    var steps := WalkSteps(catalog, flow, input.value.id);
    ghost var w :| StepsOfWalk(catalog, flow, input.value.id, steps, w);
    var result := Plan(NodeLabel(input.value), steps, NodeLabel(output.value));
    assert WalkedPlan(catalog, flow, result, input.value, output.value, w);
    return Some(result);
  }

  /** Two flows with the same nodes and the same first outgoing target everywhere have the same plan. */
  lemma PlanDetermined(catalog: Catalog, flow: Flow, flow': Flow, plan: Plan, plan': Plan)
    requires flow.nodes == flow'.nodes
    requires forall id :: FirstTarget(flow.edges, id) == FirstTarget(flow'.edges, id)
    requires IsPlanOf(catalog, flow, plan) && IsPlanOf(catalog, flow', plan')
    ensures plan == plan'
  {
    var index := IndexOf(flow.nodes);
    var trigger := FirstWithRole(catalog, flow.nodes, Trigger).value;
    var output := FirstWithRole(catalog, flow.nodes, Output).value;
    var w :| WalkedPlan(catalog, flow, plan, trigger, output, w);
    var w' :| WalkedPlan(catalog, flow', plan', trigger, output, w');
    assert IsDispatchWalk(flow.edges, catalog, index, trigger.id, w');
    DispatchWalkUnique(flow.edges, catalog, index, trigger.id, w, w');
  }

  /** What every plan promises: distinct nodes, all executable or branch nodes and all reachable from the trigger. */
  lemma PlanSteps(catalog: Catalog, flow: Flow, plan: Plan)
    requires IsPlanOf(catalog, flow, plan)
    ensures var index, trigger := IndexOf(flow.nodes), FirstWithRole(catalog, flow.nodes, Trigger).value;
            && (forall i, j :: 0 <= i < j < |plan.steps| ==> plan.steps[i].nodeId != plan.steps[j].nodeId)
            && (forall i :: 0 <= i < |plan.steps| ==>
                  && plan.steps[i].nodeId in index
                  && IsStep(catalog.roleFor(index[plan.steps[i].nodeId]))
                  && plan.steps[i] == StepFor(catalog, index[plan.steps[i].nodeId])
                  && Reachable(flow.edges, [trigger.id], plan.steps[i].nodeId))
  {
    var index := IndexOf(flow.nodes);
    var trigger := FirstWithRole(catalog, flow.nodes, Trigger).value;
    var output := FirstWithRole(catalog, flow.nodes, Output).value;
    var w :| WalkedPlan(catalog, flow, plan, trigger, output, w);
    forall i, j | 0 <= i < j < |plan.steps|
      ensures plan.steps[i].nodeId != plan.steps[j].nodeId
    {
      StepsDistinct(catalog, index, w[1..], i, j);
    }
    forall i | 0 <= i < |plan.steps|
      ensures var id := plan.steps[i].nodeId;
              && id in index && IsStep(catalog.roleFor(index[id])) && plan.steps[i] == StepFor(catalog, index[id])
              && Reachable(flow.edges, [trigger.id], id)
    {
      StepsFromWalk(catalog, index, w[1..], i);
      AllWalkedReachable(flow.edges, catalog, index, trigger.id, w, plan.steps[i].nodeId);
    }
  }

  lemma AllWalkedReachable(edges: seq<Edge>, catalog: Catalog, index: Index, trigger: NodeId, w: seq<NodeId>,
                           id: NodeId)
    requires IsWalk(edges, catalog, index, trigger, w) && id in w[1..]
    ensures Reachable(edges, [trigger], id)
  {
    var k :| 0 <= k < |w| - 1 && w[1..][k] == id;
    var prefix := w[..k + 2];
    assert prefix[1..] == w[1..][..k + 1];
    assert forall i :: 0 <= i < |prefix| - 1 ==> FirstTarget(edges, w[i]) == Some(w[i + 1]);
    assert IsWalk(edges, catalog, index, trigger, prefix);
    WalkedIsReachable(edges, catalog, index, trigger, prefix);
  }

  /** A linear chain from the trigger over step nodes to an output. */
  predicate IsChain(catalog: Catalog, flow: Flow, trigger: NodeId, chain: seq<NodeId>, output: NodeId) {
    var index := IndexOf(flow.nodes);
    && chain != [] && chain[0] == trigger && Distinct(chain[1..])
    && FollowsFirstEdges(flow.edges, chain + [output])
    && output in index && catalog.roleFor(index[output]) == Some(Output)
    && forall i :: 1 <= i < |chain| ==> chain[i] in index && IsStep(catalog.roleFor(index[chain[i]]))
  }

  lemma ChainIsDispatchWalk(catalog: Catalog, flow: Flow, trigger: NodeId, chain: seq<NodeId>, output: NodeId)
    requires IsChain(catalog, flow, trigger, chain, output)
    ensures IsDispatchWalk(flow.edges, catalog, IndexOf(flow.nodes), trigger, chain)
  {
    var longer, n := chain + [output], |chain|;
    forall i | 0 <= i < n - 1
      ensures FirstTarget(flow.edges, chain[i]) == Some(chain[i + 1])
    {
      assert FirstTarget(flow.edges, longer[i]) == Some(longer[i + 1]);
    }
    assert FirstTarget(flow.edges, longer[n - 1]) == Some(longer[n - 1 + 1]);
  }

  lemma {:induction false} ChainSteps(catalog: Catalog, index: Index, ids: seq<NodeId>)
    requires forall i :: 0 <= i < |ids| ==> ids[i] in index && IsStep(catalog.roleFor(index[ids[i]]))
    ensures |StepsOf(catalog, index, ids)| == |ids|
    ensures forall i :: 0 <= i < |ids| ==> StepsOf(catalog, index, ids)[i] == StepFor(catalog, index[ids[i]])
  {
    if ids != [] {
      ChainSteps(catalog, index, ids[..|ids| - 1]);
    }
  }

  /** A linear chain compiles to exactly its nodes, in order. */
  lemma ChainPlan(catalog: Catalog, flow: Flow, plan: Plan, chain: seq<NodeId>, output: NodeId)
    requires IsPlanOf(catalog, flow, plan)
    requires IsChain(catalog, flow, FirstWithRole(catalog, flow.nodes, Trigger).value.id, chain, output)
    ensures |plan.steps| == |chain| - 1
    ensures forall i :: 0 <= i < |plan.steps| ==> plan.steps[i] == StepFor(catalog, IndexOf(flow.nodes)[chain[i + 1]])
  {
    ChainWalked(catalog, flow, plan, chain, output);
    ChainSteps(catalog, IndexOf(flow.nodes), chain[1..]);
    assert forall i :: 0 <= i < |chain| - 1 ==> chain[1..][i] == chain[i + 1];
  }

  lemma ChainWalked(catalog: Catalog, flow: Flow, plan: Plan, chain: seq<NodeId>, output: NodeId)
    requires IsPlanOf(catalog, flow, plan)
    requires IsChain(catalog, flow, FirstWithRole(catalog, flow.nodes, Trigger).value.id, chain, output)
    ensures plan.steps == StepsOf(catalog, IndexOf(flow.nodes), chain[1..])
  {
    var trigger := FirstWithRole(catalog, flow.nodes, Trigger).value;
    var w :| WalkedPlan(catalog, flow, plan, trigger, FirstWithRole(catalog, flow.nodes, Output).value, w);
    ChainIsDispatchWalk(catalog, flow, trigger.id, chain, output);
    DispatchWalkUnique(flow.edges, catalog, IndexOf(flow.nodes), trigger.id, w, chain);
  }

  // ---------------------------------------------------------------------------------------------
  // What the reports mean

  /** What the library's reports on roles mean: exactly one trigger, and an output. */
  ghost predicate RolesReported(catalog: Catalog, flow: Flow, reports: Reports) {
    && (reports.triggerCount.None? ==>
          exists i :: 0 <= i < |flow.nodes| && catalog.roleFor(flow.nodes[i]) == Some(Trigger)
                      && forall j :: 0 <= j < |flow.nodes| && catalog.roleFor(flow.nodes[j]) == Some(Trigger)
                                     ==> j == i)
    && (!reports.outputMissing ==> exists node :: node in flow.nodes && catalog.roleFor(node) == Some(Output))
  }

  /** What its report on edges means: none points at a missing node. */
  ghost predicate EdgesReported(flow: Flow, reports: Reports) {
    reports.danglingEdges == [] ==> forall e :: e in flow.edges ==> Names(flow, e.source) && Names(flow, e.target)
  }

  datatype State = State(validation: Validation, plan: Option<Plan>)

  method BuildState(catalog: Catalog, flow: Flow, reports: Reports) returns (state: State)
    ensures state.plan.Some? ==> state.validation.errors == [] && IsPlanOf(catalog, flow, state.plan.value)
    ensures RolesReported(catalog, flow, reports) ==> (state.plan.Some? <==> state.validation.errors == [])
  {
    var validation := ValidateWorkflow(flow, reports);
    var plan := CompileDispatchPlan(catalog, flow, reports);
    return State(validation, plan);
  }

  /**
    In a clean flow whose edges were reported on the walk ends for one of three reasons: its last node has no
    outgoing edge, its first edge leads to an output, or it closes a cycle.
   */
  lemma CleanWalkEnd(catalog: Catalog, flow: Flow, reports: Reports, trigger: NodeId, w: seq<NodeId>)
    requires EdgesReported(flow, reports) && Clean(flow, reports)
    requires IsDispatchWalk(flow.edges, catalog, IndexOf(flow.nodes), trigger, w)
    ensures var index, next := IndexOf(flow.nodes), FirstTarget(flow.edges, w[|w| - 1]);
            next.Some? ==>
              && next.value in index
              && (next.value in w[1..] || catalog.roleFor(index[next.value]) == Some(Output))
  {
    var next := FirstTarget(flow.edges, w[|w| - 1]);
    if next.Some? {
      assert Edge(w[|w| - 1], next.value) in flow.edges;
      assert Names(flow, Edge(w[|w| - 1], next.value).target);
    }
  }
}
