/** The messages of a validation by position: each reported item has its own, in the order of the reports. */
module WorkflowMessages {
  import opened Outcomes
  import opened Reachability
  import opened Workflow
  import opened WorkflowCompiler
  import opened WorkflowPositions

  /** From position `at` on, the messages are those of the reported items. */
  predicate ShownFrom<T>(errors: seq<Problem>, at: nat, items: seq<T>, shows: (Problem, T) -> bool) {
    at + |items| <= |errors| && forall i :: 0 <= i < |items| ==> shows(errors[at + i], items[i])
  }

  predicate IsDanglingEdge(p: Problem, edge: nat) { p == DanglingEdge(edge) }
  predicate IsUnknownSocket(p: Problem, edge: nat) { p == UnknownSocket(edge) }
  predicate IsDuplicateNode(p: Problem, node: NodeId) { p == DuplicateNode(node) }
  predicate IsDuplicateEdge(p: Problem, edge: nat) { p == DuplicateEdge(edge) }
  predicate IsDuplicateSocket(p: Problem, at: (NodeId, string)) { p == DuplicateSocket(at.0, at.1) }
  predicate IsUnknownKind(p: Problem, at: (NodeId, string)) { p == UnknownKind(at.0, at.1) }
  predicate IsMissingSocket(p: Problem, at: (NodeId, string, string)) { p == MissingSocket(at.0, at.1, at.2) }
  predicate IsUnexpectedSocket(p: Problem, at: (NodeId, string, string)) { p == UnexpectedSocket(at.0, at.1, at.2) }

  lemma MessagesShown<T>(head: seq<Problem>, items: seq<T>, problem: T -> Problem, tail: seq<Problem>,
                         shows: (Problem, T) -> bool, errors: seq<Problem>)
    requires errors == head + Messages(items, problem) + tail
    requires forall x :: shows(problem(x), x)
    ensures ShownFrom(errors, |head|, items, shows)
  {
    forall i | 0 <= i < |items|
      ensures shows(errors[|head| + i], items[i])
    {
      assert errors[|head| + i] == Messages(items, problem)[i] == problem(items[i]);
    }
  }

  // ---------------------------------------------------------------------------------------------
  // What the flow itself reports

  predicate BaseShown(reports: Reports, errors: seq<Problem>) {
    var a := |reports.danglingEdges|;
    var b := a + |reports.unknownSockets|;
    var c := b + |reports.duplicateNodeIds|;
    var d := c + |reports.duplicateEdgeIds|;
    && ShownFrom(errors, 0, reports.danglingEdges, IsDanglingEdge)
    && ShownFrom(errors, a, reports.unknownSockets, IsUnknownSocket)
    && ShownFrom(errors, b, reports.duplicateNodeIds, IsDuplicateNode)
    && ShownFrom(errors, c, reports.duplicateEdgeIds, IsDuplicateEdge)
    && ShownFrom(errors, d, reports.duplicateSockets, IsDuplicateSocket)
    && |errors| == d + |reports.duplicateSockets|
  }

  lemma Five<T>(a: seq<T>, b: seq<T>, c: seq<T>, d: seq<T>, e: seq<T>)
    ensures a + b + c + d + e == [] + a + (b + c + d + e)
    ensures a + b + c + d + e == a + b + (c + d + e)
    ensures a + b + c + d + e == (a + b) + c + (d + e)
    ensures a + b + c + d + e == (a + b + c) + d + e
    ensures a + b + c + d + e == (a + b + c + d) + e + []
  {
  }

  lemma BaseFaultsShown(reports: Reports)
    ensures BaseShown(reports, BaseFaults(reports))
  {
    var a := Messages(reports.danglingEdges, edge => DanglingEdge(edge));
    var b := Messages(reports.unknownSockets, edge => UnknownSocket(edge));
    var c := Messages(reports.duplicateNodeIds, node => DuplicateNode(node));
    var d := Messages(reports.duplicateEdgeIds, edge => DuplicateEdge(edge));
    var e := Messages(reports.duplicateSockets, (at: (NodeId, string)) => DuplicateSocket(at.0, at.1));
    var errors := BaseFaults(reports);
    Five(a, b, c, d, e);
    MessagesShown([], reports.danglingEdges, edge => DanglingEdge(edge), b + c + d + e, IsDanglingEdge, errors);
    MessagesShown(a, reports.unknownSockets, edge => UnknownSocket(edge), c + d + e, IsUnknownSocket, errors);
    MessagesShown(a + b, reports.duplicateNodeIds, node => DuplicateNode(node), d + e, IsDuplicateNode, errors);
    MessagesShown(a + b + c, reports.duplicateEdgeIds, edge => DuplicateEdge(edge), e, IsDuplicateEdge, errors);
    MessagesShown(a + b + c + d, reports.duplicateSockets, (at: (NodeId, string)) => DuplicateSocket(at.0, at.1), [],
                  IsDuplicateSocket, errors);
  }

  // ---------------------------------------------------------------------------------------------
  // What the catalog reports

  predicate CatalogShown(reports: Reports, errors: seq<Problem>) {
    && ShownFrom(errors, 0, reports.unknownKinds, IsUnknownKind)
    && ShownFrom(errors, |reports.unknownKinds|, reports.missingSockets, IsMissingSocket)
    && |errors| == |reports.unknownKinds| + |reports.missingSockets|
  }

  lemma CatalogFaultsShown(reports: Reports)
    ensures CatalogShown(reports, CatalogFaults(reports))
  {
    var a := Messages(reports.unknownKinds, (at: (NodeId, string)) => UnknownKind(at.0, at.1));
    var b := Messages(reports.missingSockets, (at: (NodeId, string, string)) => MissingSocket(at.0, at.1, at.2));
    var errors := CatalogFaults(reports);
    assert errors == [] + a + b == a + b + [];
    MessagesShown([], reports.unknownKinds, (at: (NodeId, string)) => UnknownKind(at.0, at.1), b, IsUnknownKind,
                  errors);
    MessagesShown(a, reports.missingSockets, (at: (NodeId, string, string)) => MissingSocket(at.0, at.1, at.2), [],
                  IsMissingSocket, errors);
  }

  // ---------------------------------------------------------------------------------------------
  // What is reported on the shape

  /** The message names the first node with the given id. */
  ghost predicate ShowsUnreachable(flow: Flow, id: NodeId, p: Problem) {
    exists i: nat ::
      && i < |flow.nodes| && flow.nodes[i].id == id && (forall j :: 0 <= j < i ==> flow.nodes[j].id != id)
      && p.Unreachable? && IsLabel(flow.nodes[i], p.title)
  }

  /** A message for each id that names a node, in order, and none for the others. */
  ghost predicate UnreachableShown(flow: Flow, ids: seq<NodeId>, errors: seq<Problem>)
    decreases |ids|
  {
    if ids == [] then errors == []
    else if Names(flow, ids[0]) then
      errors != [] && ShowsUnreachable(flow, ids[0], errors[0]) && UnreachableShown(flow, ids[1..], errors[1..])
    else UnreachableShown(flow, ids[1..], errors)
  }

  function UnreachableMessage(flow: Flow, id: NodeId): seq<Problem> {
    var node := NodeWithId(flow.nodes, id);
    if node.Some? then [Unreachable(NodeLabel(node.value))] else []
  }

  lemma {:induction false} UnreachableCons(flow: Flow, id: NodeId, ids: seq<NodeId>)
    ensures UnreachableMessages(flow, [id] + ids) == UnreachableMessage(flow, id) + UnreachableMessages(flow, ids)
  {
    var all := [id] + ids;
    var n := |all| - 1;
    if ids == [] {
      assert all[..n] == [] && all[n] == id;
    } else {
      var m := |ids| - 1;
      assert all[..n] == [id] + ids[..m] && all[n] == ids[m];
      UnreachableCons(flow, id, ids[..m]);
    }
  }

  lemma MessageShows(flow: Flow, id: NodeId)
    requires Names(flow, id)
    ensures |UnreachableMessage(flow, id)| == 1 && ShowsUnreachable(flow, id, UnreachableMessage(flow, id)[0])
  {
    var i := NodeWithIdAt(flow.nodes, id);
    LabelShown(flow.nodes[i]);
  }

  lemma {:induction false} UnreachableMessagesShown(flow: Flow, ids: seq<NodeId>)
    ensures UnreachableShown(flow, ids, UnreachableMessages(flow, ids))
    decreases |ids|
  {
    if ids != [] {
      var rest := ids[1..];
      assert ids == [ids[0]] + rest;
      UnreachableCons(flow, ids[0], rest);
      UnreachableMessagesShown(flow, rest);
      var all, first := UnreachableMessages(flow, ids), UnreachableMessage(flow, ids[0]);
      if Names(flow, ids[0]) {
        MessageShows(flow, ids[0]);
        assert all[0] == first[0] && all[1..] == UnreachableMessages(flow, rest);
      } else {
        assert first == [] && all == UnreachableMessages(flow, rest);
      }
    }
  }

  ghost predicate ShapeShown(flow: Flow, reports: Reports, errors: seq<Problem>) {
    var t := if reports.triggerCount.Some? then 1 else 0;
    var o := if reports.outputMissing then t + 1 else t;
    && o <= |errors|
    && (reports.triggerCount.Some? ==> errors[0] == TriggerCount(reports.triggerCount.value))
    && (reports.outputMissing ==> errors[t] == OutputMissing)
    && UnreachableShown(flow, reports.unreachableNodes, errors[o..])
  }

  lemma ShapeFaultsShown(flow: Flow, reports: Reports)
    ensures ShapeShown(flow, reports, ShapeFaults(flow, reports))
  {
    var head := (if reports.triggerCount.Some? then [TriggerCount(reports.triggerCount.value)] else [])
                + if reports.outputMissing then [OutputMissing] else [];
    var tail := UnreachableMessages(flow, reports.unreachableNodes);
    UnreachableMessagesShown(flow, reports.unreachableNodes);
    assert ShapeFaults(flow, reports) == head + tail;
    assert (head + tail)[|head|..] == tail;
  }

  // ---------------------------------------------------------------------------------------------
  // The whole validation

  /** The errors of a validation: of the flow, then of the catalog, then of the shape. */
  ghost predicate FaultsShown(flow: Flow, reports: Reports, errors: seq<Problem>) {
    exists base, kinds, shape ::
      && errors == base + kinds + shape
      && BaseShown(reports, base) && CatalogShown(reports, kinds) && ShapeShown(flow, reports, shape)
  }

  lemma FaultsByPosition(flow: Flow, reports: Reports)
    ensures FaultsShown(flow, reports, Faults(flow, reports))
  {
    var base, kinds, shape := BaseFaults(reports), CatalogFaults(reports), ShapeFaults(flow, reports);
    BaseFaultsShown(reports);
    CatalogFaultsShown(reports);
    ShapeFaultsShown(flow, reports);
    assert Faults(flow, reports) == base + kinds + shape;
  }

  lemma WarningsByPosition(reports: Reports, warnings: seq<Problem>)
    requires warnings == Messages(reports.unexpectedSockets,
                                  (at: (NodeId, string, string)) => UnexpectedSocket(at.0, at.1, at.2))
    ensures |warnings| == |reports.unexpectedSockets|
            && ShownFrom(warnings, 0, reports.unexpectedSockets, IsUnexpectedSocket)
  {
    assert warnings == [] + warnings + [];
    MessagesShown([], reports.unexpectedSockets,
                  (at: (NodeId, string, string)) => UnexpectedSocket(at.0, at.1, at.2), [], IsUnexpectedSocket,
                  warnings);
  }
}
