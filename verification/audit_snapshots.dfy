/** What a snapshot puts into the timeline, block by block, and where a query finds it again. */
module AuditSnapshots {
  import opened AuditIds
  import opened AuditQuery
  import opened AuditTimeline
  import opened Outcomes
  import opened Strings

  // ---------------------------------------------------------------------------------------------
  // What an entry shows

  /** The kind of the entry for a block. */
  predicate IsKind(block: Block, kind: EntryKind) {
    match block
    case ThinkingBlock(_) => kind == Thinking
    case TextBlock(_, _) => kind == Text
    case ToolBlock(_, _, _, _) => kind == Tool
    case SystemBlock(_, _) => kind == System
    case AbortedBlock(_) => kind == Aborted
  }

  predicate IsTitle(block: Block, title: string) {
    match block
    case ThinkingBlock(_) => title == "Thinking"
    case TextBlock(None, _) => title == "Message"
    case TextBlock(Some(origin), _) => title == origin
    case ToolBlock(name, _, _, _) => title == "Tool · " + name
    case SystemBlock(None, _) => title == "System"
    case SystemBlock(Some(origin), _) => title == origin
    case AbortedBlock(_) => title == "Aborted"
  }

  /** Arguments, partial output and result of a tool, as far as there are any; its name if there are none. */
  predicate IsToolText(name: string, args: string, partialOutput: string, result: Option<string>, text: string) {
    match (args != "", partialOutput != "", result)
    case (false, false, None) => text == name
    case (true, false, None) => text == "args:\n" + args
    case (false, true, None) => text == "partial_output:\n" + partialOutput
    case (true, true, None) => text == "args:\n" + args + "\n\n" + ("partial_output:\n" + partialOutput)
    case (false, false, Some(r)) => text == "result:\n" + r
    case (true, false, Some(r)) => text == "args:\n" + args + "\n\n" + ("result:\n" + r)
    case (false, true, Some(r)) => text == "partial_output:\n" + partialOutput + "\n\n" + ("result:\n" + r)
    case (true, true, Some(r)) =>
      text == "args:\n" + args + "\n\n" + ("partial_output:\n" + partialOutput + "\n\n" + ("result:\n" + r))
  }

  predicate IsContent(block: Block, text: string) {
    match block
    case ThinkingBlock(t) => text == t
    case TextBlock(_, t) => text == t
    case ToolBlock(name, args, partialOutput, result) => IsToolText(name, args, partialOutput, result, text)
    case SystemBlock(_, t) => text == t
    case AbortedBlock(t) => text == t
  }

  /** The entry of block `index` of a turn. */
  predicate ShowsBlock(e: Entry, session: string, turn: nat, index: nat, block: Block) {
    && e.sessionKey == session && e.turnNumber == turn && e.blockIndex == index
    && e.blockId == session + (":turn-" + Decimal(turn) + "-block-" + Decimal(index))
    && IsKind(block, e.kind) && IsTitle(block, e.title) && IsContent(block, e.content)
  }

  lemma JoinTwo(a: string, b: string, sep: string)
    ensures Join([a, b], sep) == a + sep + b
  {
    assert [a, b][1..] == [b];
  }

  lemma JoinThree(a: string, b: string, c: string, sep: string)
    ensures Join([a, b, c], sep) == a + sep + (b + sep + c)
  {
    assert [a, b, c][1..] == [b, c];
    JoinTwo(b, c, sep);
  }

  lemma ToolTextShown(tool: Block)
    requires tool.ToolBlock?
    ensures IsToolText(tool.name, tool.args, tool.partialOutput, tool.result, ToolContent(tool))
  {
    var a, p := "args:\n" + tool.args, "partial_output:\n" + tool.partialOutput;
    var r := "result:\n" + if tool.result.Some? then tool.result.value else "";
    JoinTwo(a, p, "\n\n");
    JoinTwo(a, r, "\n\n");
    JoinTwo(p, r, "\n\n");
    JoinThree(a, p, r, "\n\n");
    assert ToolParts(tool, a, p, r);
  }

  predicate ToolParts(tool: Block, a: string, p: string, r: string)
    requires tool.ToolBlock?
  {
    var parts :=
      (if tool.args == "" then [] else [a]) + (if tool.partialOutput == "" then [] else [p])
      + if tool.result.Some? then [r] else [];
    && (tool.args != "" && tool.partialOutput == "" && tool.result.None? ==> parts == [a])
    && (tool.args == "" && tool.partialOutput != "" && tool.result.None? ==> parts == [p])
    && (tool.args != "" && tool.partialOutput != "" && tool.result.None? ==> parts == [a, p])
    && (tool.args == "" && tool.partialOutput == "" && tool.result.Some? ==> parts == [r])
    && (tool.args != "" && tool.partialOutput == "" && tool.result.Some? ==> parts == [a, r])
    && (tool.args == "" && tool.partialOutput != "" && tool.result.Some? ==> parts == [p, r])
    && (tool.args != "" && tool.partialOutput != "" && tool.result.Some? ==> parts == [a, p, r])
  }

  lemma BlockShown(session: string, turn: nat, index: nat, block: Block)
    ensures ShowsBlock(FromBlock(session, turn, index, block), session, turn, index, block)
  {
    if block.ToolBlock? {
      ToolTextShown(block);
    }
  }

  // ---------------------------------------------------------------------------------------------
  // Where a query finds it

  lemma {:induction false} SelectAppend(p: Entry -> bool, a: seq<Entry>, b: seq<Entry>)
    ensures Select(p, a + b) == Select(p, a) + Select(p, b)
  {
    if b == [] {
      assert a + b == a;
    } else {
      var n := |b| - 1;
      assert (a + b)[..|a + b| - 1] == a + b[..n] && (a + b)[|a + b| - 1] == b[n];
      SelectAppend(p, a, b[..n]);
    }
  }

  /** What is found shows the items that `wanted` selects, at the positions `at`, all of them and in order. */
  predicate Answers<T>(found: seq<Entry>, items: seq<T>, wanted: T -> bool, shows: (Entry, nat, T) -> bool,
                       at: seq<nat>)
  {
    && |at| == |found|
    && (forall i, j :: 0 <= i < j < |at| ==> at[i] < at[j])
    && (forall i :: 0 <= i < |at| ==> at[i] < |items| && wanted(items[at[i]]) && shows(found[i], at[i], items[at[i]]))
    && forall j :: 0 <= j < |items| && wanted(items[j]) ==> j in at
  }

  lemma AnswerGrows<T>(found: seq<Entry>, items: seq<T>, wanted: T -> bool, shows: (Entry, nat, T) -> bool,
                       at: seq<nat>, n: nat, e: Entry)
    requires n < |items| && n == |items| - 1 && Answers(found, items[..n], wanted, shows, at)
    requires wanted(items[n]) && shows(e, n, items[n])
    ensures Answers(found + [e], items, wanted, shows, at + [n])
  {
    var found', at' := found + [e], at + [n];
    forall i | 0 <= i < |at'|
      ensures at'[i] < |items| && wanted(items[at'[i]]) && shows(found'[i], at'[i], items[at'[i]])
    {
      if i < |at| {
        assert at'[i] == at[i] && found'[i] == found[i] && items[..n][at[i]] == items[at[i]];
      }
    }
    forall j | 0 <= j < |items| && wanted(items[j])
      ensures j in at'
    {
      assert j < n ==> items[..n][j] == items[j] && j in at;
      assert at'[|at|] == n;
    }
  }

  lemma AnswerStays<T>(found: seq<Entry>, items: seq<T>, wanted: T -> bool, shows: (Entry, nat, T) -> bool,
                       at: seq<nat>, n: nat)
    requires n < |items| && n == |items| - 1 && Answers(found, items[..n], wanted, shows, at)
    requires !wanted(items[n])
    ensures Answers(found, items, wanted, shows, at)
  {
    forall j | 0 <= j < |items| && wanted(items[j])
      ensures j in at
    {
      assert items[..n][j] == items[j];
    }
  }

  function OfKind(kind: EntryKind): Block -> bool {
    (block: Block) => IsKind(block, kind)
  }

  function Showing(session: string, turn: nat): (Entry, nat, Block) -> bool {
    (e: Entry, index: nat, block: Block) => ShowsBlock(e, session, turn, index, block)
  }

  /** The entries found are those of the blocks of a kind, at the positions `at`, all of them and in order. */
  predicate IsAnswer(found: seq<Entry>, session: string, turn: nat, blocks: seq<Block>, kind: EntryKind, at: seq<nat>) {
    Answers(found, blocks, OfKind(kind), Showing(session, turn), at)
  }

  /** A test that picks a kind from the entries of a turn. */
  ghost predicate Picks(p: Entry -> bool, session: string, turn: nat, kind: EntryKind) {
    forall e: Entry :: e.sessionKey == session && e.turnNumber == turn ==> (p(e) <==> e.kind == kind)
  }

  lemma {:induction false} TurnAnswered(p: Entry -> bool, session: string, turn: nat, blocks: seq<Block>,
                                        kind: EntryKind)
    returns (at: seq<nat>)
    requires Picks(p, session, turn, kind)
    ensures IsAnswer(Select(p, TurnEntries(session, Turn(turn, blocks))), session, turn, blocks, kind, at)
    decreases |blocks|
  {
    at := [];
    if blocks != [] {
      var n := |blocks| - 1;
      var before := TurnAnswered(p, session, turn, blocks[..n], kind);
      var entries, e := TurnEntries(session, Turn(turn, blocks)), FromBlock(session, turn, n, blocks[n]);
      assert entries[..n] == TurnEntries(session, Turn(turn, blocks[..n])) && entries[n] == e;
      BlockShown(session, turn, n, blocks[n]);
      KindsAgree(blocks[n], e.kind, kind);
      if e.kind == kind {
        AnswerGrows(Select(p, entries[..n]), blocks, OfKind(kind), Showing(session, turn), before, n, e);
        at := before + [n];
      } else {
        AnswerStays(Select(p, entries[..n]), blocks, OfKind(kind), Showing(session, turn), before, n);
        at := before;
      }
    }
  }

  lemma KindsAgree(block: Block, kind: EntryKind, wanted: EntryKind)
    requires IsKind(block, kind)
    ensures IsKind(block, wanted) <==> kind == wanted
  {
  }

  /** A test that no entry of another turn passes. */
  ghost predicate SkipsOthers(p: Entry -> bool, turn: nat) {
    forall e: Entry :: e.turnNumber != turn ==> !p(e)
  }

  lemma {:induction false} OtherTurnSkipped(p: Entry -> bool, session: string, turn: Turn, n: nat)
    requires SkipsOthers(p, n) && (turn.blocks == [] || turn.number != n)
    ensures Select(p, TurnEntries(session, turn)) == []
    decreases |turn.blocks|
  {
    if turn.blocks != [] {
      var m := |turn.blocks| - 1;
      var shorter, entries := Turn(turn.number, turn.blocks[..m]), TurnEntries(session, turn);
      assert entries[..m] == TurnEntries(session, shorter);
      OtherTurnSkipped(p, session, shorter, n);
      BlockShown(session, turn.number, m, turn.blocks[m]);
    }
  }

  predicate Lacks(transcript: Transcript, n: nat) {
    forall i :: 0 <= i < |transcript| ==> transcript[i].blocks == [] || transcript[i].number != n
  }

  /** A list made of parts, one per turn. */
  ghost predicate Adds(whole: Transcript -> seq<Entry>, part: Turn -> seq<Entry>) {
    && whole([]) == []
    && forall transcript: Transcript | transcript != [] ::
         whole(transcript) == whole(transcript[..|transcript| - 1]) + part(transcript[|transcript| - 1])
  }

  ghost predicate NothingBut(part: Turn -> seq<Entry>, n: nat) {
    forall turn: Turn :: turn.blocks == [] || turn.number != n ==> part(turn) == []
  }

  lemma {:induction false} NothingFound(whole: Transcript -> seq<Entry>, part: Turn -> seq<Entry>,
                                        transcript: Transcript, n: nat)
    requires Adds(whole, part) && NothingBut(part, n) && Lacks(transcript, n)
    ensures whole(transcript) == []
  {
    if transcript != [] {
      NothingFound(whole, part, transcript[..|transcript| - 1], n);
    }
  }

  lemma {:induction false} OneTurnFound(whole: Transcript -> seq<Entry>, part: Turn -> seq<Entry>,
                                        transcript: Transcript, t: nat, n: nat)
    requires Adds(whole, part) && NothingBut(part, n) && DistinctTurns(transcript)
    requires t < |transcript| && transcript[t].blocks != [] && transcript[t].number == n
    ensures whole(transcript) == part(transcript[t])
  {
    var m := |transcript| - 1;
    var before := transcript[..m];
    OthersLack(transcript, before, m, t, n);
    AddsLast(whole, part, transcript, before, transcript[m]);
    if t < m {
      OneTurnFound(whole, part, before, t, n);
      assert part(transcript[m]) == [] && whole(before) + [] == whole(before);
    } else {
      NothingFound(whole, part, before, n);
      assert [] + part(transcript[t]) == part(transcript[t]);
    }
  }

  lemma AddsLast(whole: Transcript -> seq<Entry>, part: Turn -> seq<Entry>, transcript: Transcript, before: Transcript,
                 last: Turn)
    requires Adds(whole, part) && transcript != []
    requires before == transcript[..|transcript| - 1] && last == transcript[|transcript| - 1]
    ensures whole(transcript) == whole(before) + part(last)
  {
  }

  lemma OthersLack(transcript: Transcript, before: Transcript, m: nat, t: nat, n: nat)
    requires t <= m == |transcript| - 1 && before == transcript[..m] && DistinctTurns(transcript)
    requires transcript[t].blocks != [] && n == transcript[t].number
    ensures DistinctTurns(before)
    ensures t < m ==> before[t] == transcript[t] && (transcript[m].blocks == [] || transcript[m].number != n)
    ensures t == m ==> Lacks(before, n)
  {
  }

  function SelectedFrom(p: Entry -> bool, session: string): Transcript -> seq<Entry> {
    (transcript: Transcript) => Select(p, SnapshotEntries(session, transcript))
  }

  function SelectedOf(p: Entry -> bool, session: string): Turn -> seq<Entry> {
    (turn: Turn) => Select(p, TurnEntries(session, turn))
  }

  lemma SelectionAdds(p: Entry -> bool, session: string, n: nat)
    requires SkipsOthers(p, n)
    ensures Adds(SelectedFrom(p, session), SelectedOf(p, session)) && NothingBut(SelectedOf(p, session), n)
  {
    forall transcript: Transcript | transcript != []
      ensures SelectedFrom(p, session)(transcript)
              == SelectedFrom(p, session)(transcript[..|transcript| - 1])
                + SelectedOf(p, session)(transcript[|transcript| - 1])
    {
      var m := |transcript| - 1;
      SelectAppend(p, SnapshotEntries(session, transcript[..m]), TurnEntries(session, transcript[m]));
    }
    forall turn: Turn | turn.blocks == [] || turn.number != n
      ensures SelectedOf(p, session)(turn) == []
    {
      OtherTurnSkipped(p, session, turn, n);
    }
  }

  function Asking(session: string, turn: nat, kind: EntryKind, text: string): Query {
    Query(Some(session), Some(turn), Some(kind), text)
  }

  lemma AskingPicks(session: string, turn: nat, kind: EntryKind, text: string, p: Entry -> bool)
    requires AllWhitespace(text) && forall e :: p(e) == Matches(Asking(session, turn, kind, text), e)
    ensures Picks(p, session, turn, kind) && SkipsOthers(p, turn)
  {
    TrimBlank(text);
  }

  /**
    After a snapshot with distinct turns and unknown ids, a query for a turn and a kind with blank text finds
    what it found before and then exactly the blocks of that kind in that turn, in order.
   */
  lemma SnapshotFound(entries: seq<Entry>, session: string, transcript: Transcript, t: nat, kind: EntryKind,
                      text: string)
    returns (found: seq<Entry>, at: seq<nat>)
    requires DistinctTurns(transcript) && Ids(SnapshotEntries(session, transcript)) !! Ids(entries)
    requires t < |transcript| && transcript[t].blocks != [] && AllWhitespace(text)
    ensures var q := Asking(session, transcript[t].number, kind, text);
            QueryEntries(Append(entries, SnapshotEntries(session, transcript)), q) == QueryEntries(entries, q) + found
    ensures IsAnswer(found, session, transcript[t].number, transcript[t].blocks, kind, at)
  {
    var n := transcript[t].number;
    var q := Asking(session, n, kind, text);
    var p := e => Matches(q, e);
    SnapshotKeptInFull(entries, session, transcript);
    AskingPicks(session, n, kind, text, p);
    SelectAppend(p, entries, SnapshotEntries(session, transcript));
    SelectionAdds(p, session, n);
    OneTurnFound(SelectedFrom(p, session), SelectedOf(p, session), transcript, t, n);
    at := TurnAnswered(p, session, n, transcript[t].blocks, kind);
    found := Select(p, TurnEntries(session, transcript[t]));
    assert transcript[t] == Turn(n, transcript[t].blocks);
  }

  /** A query for a turn that the snapshot lacks finds what it found before. */
  lemma SnapshotNotFound(entries: seq<Entry>, session: string, transcript: Transcript, n: nat, kind: EntryKind,
                         text: string)
    requires DistinctTurns(transcript) && Ids(SnapshotEntries(session, transcript)) !! Ids(entries)
    requires Lacks(transcript, n) && AllWhitespace(text)
    ensures var q := Asking(session, n, kind, text);
            QueryEntries(Append(entries, SnapshotEntries(session, transcript)), q) == QueryEntries(entries, q)
  {
    var q := Asking(session, n, kind, text);
    var p := e => Matches(q, e);
    SnapshotKeptInFull(entries, session, transcript);
    AskingPicks(session, n, kind, text, p);
    SelectAppend(p, entries, SnapshotEntries(session, transcript));
    SelectionAdds(p, session, n);
    NothingFound(SelectedFrom(p, session), SelectedOf(p, session), transcript, n);
  }

  /** A new telemetry entry is found under turn 0 and the kind telemetry, and under no other. */
  lemma TelemetryFound(entries: seq<Entry>, session: string, key: string, title: string, content: string, q: Query)
    requires TelemetryId(session, key) !in Ids(entries) && AllWhitespace(q.text)
    ensures var e := Entry(session, 0, 0, session + ":telemetry:" + key, Telemetry, title, content);
            QueryEntries(Append(entries, [TelemetryEntry(session, key, title, content)]), q)
            == QueryEntries(entries, q)
               + if && (q.sessionKey.None? || q.sessionKey.value == session)
                    && (q.turnNumber.None? || q.turnNumber.value == 0)
                    && (q.kind.None? || q.kind.value == Telemetry) then [e] else []
  {
    var e := TelemetryEntry(session, key, title, content);
    var p := e => Matches(q, e);
    TrimBlank(q.text);
    AppendSingle(entries, e);
    SelectAppend(p, entries, [e]);
    assert [e][..0] == [];
    assert Select(p, [e]) == if p(e) then [e] else [];
  }
}
