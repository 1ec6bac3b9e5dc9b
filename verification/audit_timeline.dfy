/**
  The audit timeline: an append-only list of entries with an index of the ids it holds. `Append`
  says what offering entries does to the list; `AuditTimelineStore` is the store, and `Run` any
  sequence of operations on it.
 */
module AuditTimeline {
  import opened AuditIds
  import opened Outcomes
  import opened Strings

  const AUDIT_SCHEMA_VERSION: nat := 1

  datatype EntryKind = Thinking | Text | Tool | System | Telemetry | Aborted

  datatype Entry = Entry(
    sessionKey: string, turnNumber: nat, blockIndex: nat, blockId: string,
    kind: EntryKind, title: string, content: string)

  // ---------------------------------------------------------------------------------------------
  // Entries from transcripts

  datatype Block =
    | ThinkingBlock(text: string)
    | TextBlock(origin: Option<string>, text: string)
    | ToolBlock(name: string, args: string, partialOutput: string, result: Option<string>)
    | SystemBlock(origin: Option<string>, text: string)
    | AbortedBlock(text: string)

  datatype Turn = Turn(number: nat, blocks: seq<Block>)
  type Transcript = seq<Turn>

  function OriginLabel(origin: Option<string>, fallback: string): string {
    if origin.Some? then origin.value else fallback
  }

  function ToolContent(tool: Block): string
    requires tool.ToolBlock?
  {
    var parts :=
      (if tool.args == "" then [] else ["args:\n" + tool.args])
      + (if tool.partialOutput == "" then [] else ["partial_output:\n" + tool.partialOutput])
      + (if tool.result.Some? then ["result:\n" + tool.result.value] else []);
    if parts == [] then tool.name else Join(parts, "\n\n")
  }

  function FromBlock(session: string, turn: nat, index: nat, block: Block): Entry {
    var (kind, title, content) :=
      match block
      case ThinkingBlock(text) => (Thinking, "Thinking", text)
      case TextBlock(origin, text) => (Text, OriginLabel(origin, "Message"), text)
      case ToolBlock(name, _, _, _) => (Tool, "Tool · " + name, ToolContent(block))
      case SystemBlock(origin, text) => (System, OriginLabel(origin, "System"), text)
      case AbortedBlock(text) => (Aborted, "Aborted", text);
    Entry(session, turn, index, BlockId(session, turn, index), kind, title, content)
  }

  function TelemetryEntry(session: string, key: string, title: string, content: string): Entry {
    Entry(session, 0, 0, TelemetryId(session, key), Telemetry, title, content)
  }

  function TurnEntries(session: string, turn: Turn): (entries: seq<Entry>)
    ensures |entries| == |turn.blocks|
  {
    seq(|turn.blocks|, i requires 0 <= i < |turn.blocks| => FromBlock(session, turn.number, i, turn.blocks[i]))
  }

  /** The entries a snapshot offers, in order. */
  function SnapshotEntries(session: string, transcript: Transcript): seq<Entry> {
    if transcript == [] then []
    else
      var n := |transcript| - 1;
      SnapshotEntries(session, transcript[..n]) + TurnEntries(session, transcript[n])
  }

  // ---------------------------------------------------------------------------------------------
  // Appending

  function Ids(entries: seq<Entry>): set<string> {
    set e | e in entries :: e.blockId
  }

  function AppendOne(entries: seq<Entry>, e: Entry): seq<Entry> {
    if e.blockId in Ids(entries) then entries else entries + [e]
  }

  /** The list after offering entries in order: each is kept if its id is new. */
  function Append(entries: seq<Entry>, offered: seq<Entry>): seq<Entry> {
    if offered == [] then entries
    else AppendOne(Append(entries, offered[..|offered| - 1]), offered[|offered| - 1])
  }

  lemma {:induction false} AppendAppend(entries: seq<Entry>, a: seq<Entry>, b: seq<Entry>)
    ensures Append(entries, a + b) == Append(Append(entries, a), b)
  {
    if b == [] {
      assert a + b == a;
    } else {
      var n := |b| - 1;
      assert (a + b)[..|a + b| - 1] == a + b[..n];
      AppendAppend(entries, a, b[..n]);
    }
  }

  lemma IdsSnoc(entries: seq<Entry>, e: Entry)
    ensures Ids(entries + [e]) == Ids(entries) + {e.blockId}
  {
    forall id | id in Ids(entries) + {e.blockId}
      ensures id in Ids(entries + [e])
    {
      if id in Ids(entries) {
        var old' :| old' in entries && old'.blockId == id;
        assert old' in entries + [e];
      } else {
        assert e in entries + [e];
      }
    }
  }

  /** The old entries stay in front; the ids afterwards are the old and the offered ones. */
  lemma {:induction false} AppendKeeps(entries: seq<Entry>, offered: seq<Entry>)
    ensures entries <= Append(entries, offered)
    ensures Ids(Append(entries, offered)) == Ids(entries) + Ids(offered)
  {
    if offered == [] {
      assert Ids(offered) == {};
    } else {
      var n := |offered| - 1;
      AppendKeeps(entries, offered[..n]);
      assert offered == offered[..n] + [offered[n]];
      IdsSnoc(offered[..n], offered[n]);
      IdsSnoc(Append(entries, offered[..n]), offered[n]);
    }
  }

  lemma NewIdCount(offered: set<string>, known: set<string>, id: string)
    ensures |offered + {id} - known| == |offered - known| + if id in offered || id in known then 0 else 1
  {
    if id in offered || id in known {
      assert offered + {id} - known == offered - known;
    } else {
      assert offered + {id} - known == (offered - known) + {id};
    }
  }

  /** The list grows by the number of distinct new ids, however often they are offered. */
  lemma {:induction false} AppendGrowth(entries: seq<Entry>, offered: seq<Entry>)
    ensures |Append(entries, offered)| == |entries| + |Ids(offered) - Ids(entries)|
  {
    if offered == [] {
      assert Ids(offered) - Ids(entries) == {};
    } else {
      var n := |offered| - 1;
      var e := offered[n];
      AppendGrowth(entries, offered[..n]);
      AppendKeeps(entries, offered[..n]);
      IdsOfLast(offered);
      NewIdCount(Ids(offered[..n]), Ids(entries), e.blockId);
    }
  }

  lemma IdsOfLast(entries: seq<Entry>)
    requires entries != []
    ensures Ids(entries) == Ids(entries[..|entries| - 1]) + {entries[|entries| - 1].blockId}
  {
    var n := |entries| - 1;
    assert entries == entries[..n] + [entries[n]];
    IdsSnoc(entries[..n], entries[n]);
  }

  /** Offering known ids changes nothing. */
  lemma {:induction false} AppendKnown(entries: seq<Entry>, offered: seq<Entry>)
    requires Ids(offered) <= Ids(entries)
    ensures Append(entries, offered) == entries
  {
    if offered != [] {
      var n := |offered| - 1;
      assert offered == offered[..n] + [offered[n]];
      IdsSnoc(offered[..n], offered[n]);
      AppendKnown(entries, offered[..n]);
    }
  }

  lemma AppendTwice(entries: seq<Entry>, offered: seq<Entry>)
    ensures Append(Append(entries, offered), offered) == Append(entries, offered)
  {
    AppendKeeps(entries, offered);
    AppendKnown(Append(entries, offered), offered);
  }

  predicate NoDuplicates(entries: seq<Entry>) {
    forall i, j :: 0 <= i < j < |entries| ==> entries[i].blockId != entries[j].blockId
  }

  lemma {:induction false} AppendNoDuplicates(entries: seq<Entry>, offered: seq<Entry>)
    requires NoDuplicates(entries)
    ensures NoDuplicates(Append(entries, offered))
  {
    if offered != [] {
      var n := |offered| - 1;
      AppendNoDuplicates(entries, offered[..n]);
      SnocNoDuplicates(Append(entries, offered[..n]), offered[n]);
    }
  }

  lemma SnocNoDuplicates(entries: seq<Entry>, e: Entry)
    requires NoDuplicates(entries)
    ensures NoDuplicates(entries + [e]) <==> e.blockId !in Ids(entries)
  {
    var longer, n := entries + [e], |entries|;
    assert forall i :: 0 <= i < n ==> longer[i] == entries[i] && entries[i].blockId in Ids(entries);
    if e.blockId in Ids(entries) {
      var i :| 0 <= i < n && entries[i].blockId == e.blockId;
      assert longer[i].blockId == longer[n].blockId;
    }
  }

  /** The first entry with the given id. */
  function Lookup(entries: seq<Entry>, id: string): Option<Entry> {
    if entries == [] then None
    else
      var n := |entries| - 1;
      var earlier := Lookup(entries[..n], id);
      if earlier.Some? then earlier else if entries[n].blockId == id then Some(entries[n]) else None
  }

  lemma {:induction false} LookupFinds(entries: seq<Entry>, id: string)
    ensures Lookup(entries, id).Some? <==> id in Ids(entries)
  {
    if entries != [] {
      var n := |entries| - 1;
      LookupFinds(entries[..n], id);
      assert entries == entries[..n] + [entries[n]];
      IdsSnoc(entries[..n], entries[n]);
    }
  }

  lemma LookupSnoc(entries: seq<Entry>, e: Entry, id: string)
    ensures Lookup(entries + [e], id) ==
            if Lookup(entries, id).Some? then Lookup(entries, id) else if e.blockId == id then Some(e) else None
  {
    assert (entries + [e])[..|entries|] == entries;
  }

  lemma LookupAppendOne(entries: seq<Entry>, e: Entry, id: string)
    ensures Lookup(AppendOne(entries, e), id) ==
            if Lookup(entries, id).Some? then Lookup(entries, id) else if e.blockId == id then Some(e) else None
  {
    LookupFinds(entries, id);
    LookupSnoc(entries, e, id);
  }

  /** What is stored under an id is the first entry ever offered with it. */
  lemma {:induction false} AppendStoresFirst(entries: seq<Entry>, offered: seq<Entry>, id: string)
    ensures Lookup(Append(entries, offered), id) == Lookup(entries + offered, id)
  {
    if offered == [] {
      assert entries + offered == entries;
    } else {
      var earlier, last := offered[..|offered| - 1], offered[|offered| - 1];
      AppendStoresFirst(entries, earlier, id);
      var stored, all := Append(entries, earlier), entries + earlier;
      StoreStep(stored, all, last, id);
      SplitLast(entries, offered, all, last);
    }
  }

  lemma SplitLast(entries: seq<Entry>, offered: seq<Entry>, all: seq<Entry>, last: Entry)
    requires offered != [] && all == entries + offered[..|offered| - 1] && last == offered[|offered| - 1]
    ensures entries + offered == all + [last]
  {
  }

  lemma StoreStep(stored: seq<Entry>, all: seq<Entry>, e: Entry, id: string)
    requires Lookup(stored, id) == Lookup(all, id)
    ensures Lookup(AppendOne(stored, e), id) == Lookup(all + [e], id)
  {
    LookupSnoc(all, e, id);
    LookupAppendOne(stored, e, id);
  }

  // ---------------------------------------------------------------------------------------------
  // The store

  class AuditTimelineStore {
    var schemaVersion: nat
    var entries: seq<Entry>
    var seenIds: set<string>

    ghost predicate Valid()
      reads this
    {
      seenIds == Ids(entries)
    }

    constructor ()
      ensures Valid() && entries == [] && schemaVersion == AUDIT_SCHEMA_VERSION
    {
      schemaVersion, entries, seenIds := AUDIT_SCHEMA_VERSION, [], {};
    }

    /** A store read from its file: the index is not stored and has to be rebuilt. */
    constructor FromLoaded(version: nat, loaded: seq<Entry>)
      ensures Valid() && entries == loaded && schemaVersion == version
    {
      schemaVersion, entries, seenIds := version, loaded, {};
      new;
      RebuildSeenIds();
    }

    method RebuildSeenIds()
      modifies this`seenIds
      ensures Valid()
    {
      seenIds := {};
      for i := 0 to |entries|
        invariant seenIds == Ids(entries[..i])
      {
        assert entries[..i + 1] == entries[..i] + [entries[i]];
        IdsSnoc(entries[..i], entries[i]);
        seenIds := seenIds + {entries[i].blockId};
      }
      assert entries[..|entries|] == entries;
    }

    method AppendEntry(e: Entry) returns (added: bool)
      requires Valid()
      modifies this`entries, this`seenIds
      ensures Valid() && entries == AppendOne(old(entries), e)
      ensures added <==> |entries| == |old(entries)| + 1
      ensures added <==> e.blockId !in Ids(old(entries))
    {
      IdsSnoc(entries, e);
      if e.blockId !in seenIds {
        seenIds := seenIds + {e.blockId};
        entries := entries + [e];
        added := true;
      } else {
        added := false;
      }
    }

    /** The inner loop of a snapshot: the blocks of one turn. */
    method AppendTurn(session: string, turn: Turn) returns (appended: nat)
      requires Valid()
      modifies this`entries, this`seenIds
      ensures Valid() && entries == Append(old(entries), TurnEntries(session, turn))
      ensures |entries| == |old(entries)| + appended
    {
      appended := 0;
      ghost var offered := TurnEntries(session, turn);
      for blockIndex := 0 to |turn.blocks|
        invariant Valid() && entries == Append(old(entries), offered[..blockIndex])
        invariant |entries| == |old(entries)| + appended
      {
        var entry := FromBlock(session, turn.number, blockIndex, turn.blocks[blockIndex]);
        assert offered[..blockIndex + 1][..blockIndex] == offered[..blockIndex];
        var added := AppendEntry(entry);
        if added {
          appended := appended + 1;
        }
      }
      assert offered[..|turn.blocks|] == offered;
    }

    method AppendTranscriptSnapshot(session: string, transcript: Transcript) returns (appended: nat)
      requires Valid()
      modifies this`entries, this`seenIds
      ensures Valid() && entries == Append(old(entries), SnapshotEntries(session, transcript))
      ensures appended == |entries| - |old(entries)|
      ensures appended == |Ids(SnapshotEntries(session, transcript)) - Ids(old(entries))|
    {
      appended := 0;
      for t := 0 to |transcript|
        invariant Valid() && entries == Append(old(entries), SnapshotEntries(session, transcript[..t]))
        invariant |entries| == |old(entries)| + appended
      {
        assert transcript[..t + 1][..t] == transcript[..t];
        AppendAppend(old(entries), SnapshotEntries(session, transcript[..t]), TurnEntries(session, transcript[t]));
        var more := AppendTurn(session, transcript[t]);
        appended := appended + more;
      }
      assert transcript[..|transcript|] == transcript;
      AppendGrowth(old(entries), SnapshotEntries(session, transcript));
    }
  }

  // ---------------------------------------------------------------------------------------------
  // Runs

  datatype Operation =
    | Load(version: nat, loaded: seq<Entry>)
    | Offer(entry: Entry)
    | Snapshot(session: string, transcript: Transcript)

  function Offered(op: Operation): seq<Entry> {
    match op
    case Load(_, _) => []
    case Offer(e) => [e]
    case Snapshot(session, transcript) => SnapshotEntries(session, transcript)
  }

  function Perform(entries: seq<Entry>, op: Operation): seq<Entry> {
    if op.Load? then op.loaded else Append(entries, Offered(op))
  }

  function Run(entries: seq<Entry>, ops: seq<Operation>): seq<Entry> {
    if ops == [] then entries else Perform(Run(entries, ops[..|ops| - 1]), ops[|ops| - 1])
  }

  /** A store that performs the operations; a load puts another one in its place. */
  method PerformAll(start: AuditTimelineStore, ops: seq<Operation>) returns (store: AuditTimelineStore)
    requires start.Valid()
    modifies start
    ensures store.Valid() && store.entries == Run(old(start.entries), ops)
    ensures store == start || fresh(store)
  {
    store := start;
    for i := 0 to |ops|
      invariant store == start || fresh(store)
      invariant store.Valid() && store.entries == Run(old(start.entries), ops[..i])
    {
      assert ops[..i + 1][..i] == ops[..i];
      store := PerformOne(store, ops[i]);
    }
    assert ops[..|ops|] == ops;
  }

  method PerformOne(start: AuditTimelineStore, op: Operation) returns (store: AuditTimelineStore)
    requires start.Valid()
    modifies start
    ensures store.Valid() && store.entries == Perform(old(start.entries), op)
    ensures store == start || fresh(store)
  {
    store := start;
    if op.Load? {
      store := new AuditTimelineStore.FromLoaded(op.version, op.loaded);
    } else if op.Offer? {
      AppendSingle(start.entries, op.entry);
      var _ := start.AppendEntry(op.entry);
    } else {
      var _ := start.AppendTranscriptSnapshot(op.session, op.transcript);
    }
  }

  lemma AppendSingle(entries: seq<Entry>, e: Entry)
    ensures Append(entries, [e]) == AppendOne(entries, e)
  {
    assert [e][..0] == [];
  }

  /** What a run starts from: the entries of its last load, or those it began with. */
  function Base(entries: seq<Entry>, ops: seq<Operation>): seq<Entry> {
    if ops == [] then entries
    else if ops[|ops| - 1].Load? then ops[|ops| - 1].loaded
    else Base(entries, ops[..|ops| - 1])
  }

  /** All that was offered since then. */
  function OfferedSince(ops: seq<Operation>): seq<Entry> {
    if ops == [] || ops[|ops| - 1].Load? then [] else OfferedSince(ops[..|ops| - 1]) + Offered(ops[|ops| - 1])
  }

  /** Every run does what offering everything since the last load at once would do. */
  lemma {:induction false} RunIsAppend(entries: seq<Entry>, ops: seq<Operation>)
    ensures Run(entries, ops) == Append(Base(entries, ops), OfferedSince(ops))
  {
    if ops != [] && !ops[|ops| - 1].Load? {
      var n := |ops| - 1;
      RunIsAppend(entries, ops[..n]);
      AppendAppend(Base(entries, ops[..n]), OfferedSince(ops[..n]), Offered(ops[n]));
    }
  }

  /** A run starts from a load if it has one, the last one, and otherwise from where it began. */
  lemma {:induction false} BaseIsLastLoad(entries: seq<Entry>, ops: seq<Operation>, i: nat)
    requires i < |ops| ==> ops[i].Load?
    requires i <= |ops| && forall j :: i < j < |ops| ==> !ops[j].Load?
    requires i == |ops| ==> forall j :: 0 <= j < |ops| ==> !ops[j].Load?
    ensures Base(entries, ops) == if i < |ops| then ops[i].loaded else entries
    decreases |ops|
  {
    if ops != [] && i != |ops| - 1 {
      var n := |ops| - 1;
      BaseIsLastLoad(entries, ops[..n], if i == |ops| then n else i);
    }
  }

  /** Run again, a run starts from the same load, or from where it ended. */
  lemma {:induction false} BaseAgain(entries: seq<Entry>, again: seq<Entry>, ops: seq<Operation>)
    ensures Base(again, ops) == Base(entries, ops) || (Base(again, ops) == again && Base(entries, ops) == entries)
  {
    if ops != [] && !ops[|ops| - 1].Load? {
      BaseAgain(entries, again, ops[..|ops| - 1]);
    }
  }

  lemma RunTwice(entries: seq<Entry>, ops: seq<Operation>)
    ensures Run(Run(entries, ops), ops) == Run(entries, ops)
  {
    RunIsAppend(entries, ops);
    RunIsAppend(Run(entries, ops), ops);
    BaseAgain(entries, Run(entries, ops), ops);
    AppendTwice(Base(entries, ops), OfferedSince(ops));
  }

  /**
    Over every run: what it starts from stays a prefix, ids are the union, the first offer wins, and
    repeating it adds nothing.
   */
  lemma RunProperties(entries: seq<Entry>, ops: seq<Operation>)
    ensures var base, offered, end := Base(entries, ops), OfferedSince(ops), Run(entries, ops);
            && base <= end
            && Ids(end) == Ids(base) + Ids(offered)
            && |end| == |base| + |Ids(offered) - Ids(base)|
            && (forall id :: Lookup(end, id) == Lookup(base + offered, id))
            && Run(end, ops) == end
  {
    var base, offered := Base(entries, ops), OfferedSince(ops);
    RunIsAppend(entries, ops);
    RunTwice(entries, ops);
    AppendKeeps(base, offered);
    AppendGrowth(base, offered);
    forall id
      ensures Lookup(Run(entries, ops), id) == Lookup(base + offered, id)
    {
      AppendStoresFirst(base, offered, id);
    }
  }

  /** A run ends without duplicate ids exactly if what it started from, its last load or the store, has none. */
  lemma RunNoDuplicates(entries: seq<Entry>, ops: seq<Operation>)
    ensures NoDuplicates(Run(entries, ops)) <==> NoDuplicates(Base(entries, ops))
  {
    var base := Base(entries, ops);
    RunIsAppend(entries, ops);
    AppendKeeps(base, OfferedSince(ops));
    if NoDuplicates(base) {
      AppendNoDuplicates(base, OfferedSince(ops));
    }
    assert forall i :: 0 <= i < |base| ==> Run(entries, ops)[i] == base[i];
  }

  // ---------------------------------------------------------------------------------------------
  // Which blocks a snapshot keeps

  /** Turns that have blocks have different numbers. */
  predicate DistinctTurns(transcript: Transcript) {
    forall i, j :: 0 <= i < j < |transcript| && transcript[i].blocks != [] && transcript[j].blocks != []
                   ==> transcript[i].number != transcript[j].number
  }

  lemma TurnEntryIds(session: string, turn: Turn)
    ensures NoDuplicates(TurnEntries(session, turn))
  {
    var entries := TurnEntries(session, turn);
    forall i, j | 0 <= i < j < |entries|
      ensures entries[i].blockId != entries[j].blockId
    {
      if BlockId(session, turn.number, i) == BlockId(session, turn.number, j) {
        BlockIdInjective(session, turn.number, i, session, turn.number, j);
      }
    }
  }

  /** Where an entry of a snapshot comes from. */
  lemma {:induction false} SnapshotOrigin(session: string, transcript: Transcript, k: nat) returns (t: nat, i: nat)
    requires k < |SnapshotEntries(session, transcript)|
    ensures t < |transcript| && i < |transcript[t].blocks|
    ensures SnapshotEntries(session, transcript)[k]
            == FromBlock(session, transcript[t].number, i, transcript[t].blocks[i])
  {
    var n := |transcript| - 1;
    var earlier := SnapshotEntries(session, transcript[..n]);
    if k < |earlier| {
      t, i := SnapshotOrigin(session, transcript[..n], k);
    } else {
      t, i := n, k - |earlier|;
    }
  }

  lemma TurnIsNew(session: string, transcript: Transcript, n: nat, i: nat)
    requires n < |transcript| && DistinctTurns(transcript) && i < |transcript[n].blocks|
    ensures BlockId(session, transcript[n].number, i) !in Ids(SnapshotEntries(session, transcript[..n]))
  {
    var earlier, id := SnapshotEntries(session, transcript[..n]), BlockId(session, transcript[n].number, i);
    forall k | 0 <= k < |earlier|
      ensures earlier[k].blockId != id
    {
      var t, j := SnapshotOrigin(session, transcript[..n], k);
      if earlier[k].blockId == id {
        BlockIdInjective(session, transcript[t].number, j, session, transcript[n].number, i);
      }
    }
  }

  lemma ConcatNoDuplicates(a: seq<Entry>, b: seq<Entry>)
    requires NoDuplicates(a) && NoDuplicates(b) && forall j :: 0 <= j < |b| ==> b[j].blockId !in Ids(a)
    ensures NoDuplicates(a + b)
  {
    assert forall i :: 0 <= i < |a| ==> a[i].blockId in Ids(a);
  }

  lemma {:induction false} DistinctTurnsNoDuplicates(session: string, transcript: Transcript)
    requires DistinctTurns(transcript)
    ensures NoDuplicates(SnapshotEntries(session, transcript))
  {
    if transcript != [] {
      var n := |transcript| - 1;
      DistinctTurnsNoDuplicates(session, transcript[..n]);
      TurnEntryIds(session, transcript[n]);
      var last := TurnEntries(session, transcript[n]);
      forall j | 0 <= j < |last|
        ensures last[j].blockId !in Ids(SnapshotEntries(session, transcript[..n]))
      {
        TurnIsNew(session, transcript, n, j);
      }
      ConcatNoDuplicates(SnapshotEntries(session, transcript[..n]), last);
    }
  }

  lemma {:induction false} TurnIsOffered(session: string, transcript: Transcript, t: nat)
    requires t < |transcript| && transcript[t].blocks != []
    ensures BlockId(session, transcript[t].number, 0) in Ids(SnapshotEntries(session, transcript))
  {
    var n := |transcript| - 1;
    var earlier, last := SnapshotEntries(session, transcript[..n]), TurnEntries(session, transcript[n]);
    if t < n {
      TurnIsOffered(session, transcript[..n], t);
      var e :| e in earlier && e.blockId == BlockId(session, transcript[t].number, 0);
      assert e in earlier + last;
    } else {
      assert last[0] in earlier + last;
    }
  }

  lemma {:induction false} NoDuplicatesDistinctTurns(session: string, transcript: Transcript)
    requires NoDuplicates(SnapshotEntries(session, transcript))
    ensures DistinctTurns(transcript)
  {
    if transcript != [] {
      var n := |transcript| - 1;
      var earlier, last := SnapshotEntries(session, transcript[..n]), TurnEntries(session, transcript[n]);
      assert forall i :: 0 <= i < |earlier| ==> (earlier + last)[i] == earlier[i];
      NoDuplicatesDistinctTurns(session, transcript[..n]);
      forall t | 0 <= t < n && transcript[t].blocks != [] && last != []
        ensures transcript[t].number != transcript[n].number
      {
        TurnIsOffered(session, transcript[..n], t);
        var i :| 0 <= i < |earlier| && earlier[i].blockId == BlockId(session, transcript[t].number, 0);
        assert (earlier + last)[i].blockId != (earlier + last)[|earlier|].blockId;
      }
    }
  }

  /** Everything offered is kept exactly if all its ids are new and different. */
  lemma AppendFresh(entries: seq<Entry>, offered: seq<Entry>)
    ensures Append(entries, offered) == entries + offered <==> NoDuplicates(offered) && Ids(offered) !! Ids(entries)
  {
    if NoDuplicates(offered) && Ids(offered) !! Ids(entries) {
      NewIsKept(entries, offered);
    }
    if Append(entries, offered) == entries + offered {
      KeptIsNew(entries, offered);
    }
  }

  lemma {:induction false} NewIsKept(entries: seq<Entry>, offered: seq<Entry>)
    requires NoDuplicates(offered) && Ids(offered) !! Ids(entries)
    ensures Append(entries, offered) == entries + offered
  {
    if offered == [] {
      assert entries + offered == entries;
    } else {
      var n := |offered| - 1;
      IdsOfLast(offered);
      assert offered == offered[..n] + [offered[n]];
      SnocNoDuplicates(offered[..n], offered[n]);
      NewIsKept(entries, offered[..n]);
      IdsAppend(entries, offered[..n]);
      assert entries + offered == entries + offered[..n] + [offered[n]];
    }
  }

  lemma {:induction false} KeptIsNew(entries: seq<Entry>, offered: seq<Entry>)
    requires Append(entries, offered) == entries + offered
    ensures NoDuplicates(offered) && Ids(offered) !! Ids(entries)
  {
    if offered != [] {
      var n := |offered| - 1;
      LastIsKept(entries, offered[..n], offered[n]);
      assert offered == offered[..n] + [offered[n]];
      KeptIsNew(entries, offered[..n]);
      IdsAppend(entries, offered[..n]);
      SnocNoDuplicates(offered[..n], offered[n]);
      IdsOfLast(offered);
    }
  }

  lemma LastIsKept(entries: seq<Entry>, offered: seq<Entry>, last: Entry)
    requires AppendOne(Append(entries, offered), last) == entries + (offered + [last])
    ensures Append(entries, offered) == entries + offered && last.blockId !in Ids(entries + offered)
  {
    var before, all := Append(entries, offered), entries + (offered + [last]);
    AppendLength(entries, offered);
    assert all == entries + offered + [last];
    assert before == all[..|before|];
  }

  lemma {:induction false} AppendLength(entries: seq<Entry>, offered: seq<Entry>)
    ensures |Append(entries, offered)| <= |entries| + |offered|
  {
    if offered != [] {
      AppendLength(entries, offered[..|offered| - 1]);
    }
  }

  lemma IdsAppend(a: seq<Entry>, b: seq<Entry>)
    ensures Ids(a + b) == Ids(a) + Ids(b)
  {
    forall id | id in Ids(a) + Ids(b)
      ensures id in Ids(a + b)
    {
      var e :| (e in a || e in b) && e.blockId == id;
      assert e in a + b;
    }
  }

  /**
    A store keeps every block of a snapshot exactly when the turns that have blocks have different numbers
    and no block is known already.
   */
  lemma SnapshotKeptInFull(entries: seq<Entry>, session: string, transcript: Transcript)
    ensures var offered := SnapshotEntries(session, transcript);
            Append(entries, offered) == entries + offered <==> DistinctTurns(transcript) && Ids(offered) !! Ids(entries)
  {
    AppendFresh(entries, SnapshotEntries(session, transcript));
    if DistinctTurns(transcript) {
      DistinctTurnsNoDuplicates(session, transcript);
    } else if NoDuplicates(SnapshotEntries(session, transcript)) {
      NoDuplicatesDistinctTurns(session, transcript);
    }
  }

  /** A repeated turn number: of two turns with a block each, an empty store keeps only the first block. */
  lemma RepeatedTurnLosesBlock(session: string, turn: nat, first: Block, second: Block)
    ensures Append([], SnapshotEntries(session, [Turn(turn, [first]), Turn(turn, [second])]))
            == [FromBlock(session, turn, 0, first)]
  {
    var one, two := Turn(turn, [first]), Turn(turn, [second]);
    SnapshotOfOne(session, one);
    assert [one, two][..1] == [one];
    var a, b := FromBlock(session, turn, 0, first), FromBlock(session, turn, 0, second);
    assert TurnEntries(session, one) == [a] && TurnEntries(session, two) == [b];
    assert SnapshotEntries(session, [one, two]) == [a] + [b];
    OfferTwo([], a, b);
  }

  lemma SnapshotOfOne(session: string, turn: Turn)
    ensures SnapshotEntries(session, [turn]) == TurnEntries(session, turn)
  {
    assert [turn][..0] == [];
  }

  /** Of two entries with the same new id the first is kept and the second is lost. */
  lemma OfferTwo(entries: seq<Entry>, a: Entry, b: Entry)
    ensures Append(entries, [a] + [b]) == AppendOne(AppendOne(entries, a), b)
    ensures a.blockId == b.blockId && a.blockId !in Ids(entries) ==> Append(entries, [a] + [b]) == entries + [a]
  {
    AppendAppend(entries, [a], [b]);
    AppendSingle(entries, a);
    AppendSingle(AppendOne(entries, a), b);
    IdsSnoc(entries, a);
  }

  /**
    Two new telemetry entries: both are kept exactly if their sessions and keys do not meet; otherwise the
    second is lost.
   */
  lemma TelemetryKept(entries: seq<Entry>, s: string, k: string, s': string, k': string, a: Entry, b: Entry)
    requires a == TelemetryEntry(s, k, a.title, a.content) && b == TelemetryEntry(s', k', b.title, b.content)
    requires a.blockId !in Ids(entries) && b.blockId !in Ids(entries)
    ensures Append(entries, [a] + [b]) == if TelemetryMeets(s, k, s', k') then entries + [a] else entries + [a] + [b]
  {
    TelemetryMeetsTelemetry(s, k, s', k');
    OfferTwo(entries, a, b);
    IdsSnoc(entries, a);
  }

  /**
    A new telemetry entry and a new block, in either order: both are kept exactly if their ids do not meet;
    otherwise the second is lost.
   */
  lemma BlockKept(entries: seq<Entry>, session: string, key: string, s: string, t: nat, i: nat, telemetry: Entry,
                  block: Entry)
    requires telemetry == TelemetryEntry(session, key, telemetry.title, telemetry.content)
    requires block.blockId == BlockId(s, t, i)
    requires telemetry.blockId !in Ids(entries) && block.blockId !in Ids(entries)
    ensures var meet := exists p :: Splits(session, key, s, BlockTail(t, i), p);
            && Append(entries, [telemetry] + [block])
               == (if meet then entries + [telemetry] else entries + [telemetry] + [block])
            && Append(entries, [block] + [telemetry])
               == if meet then entries + [block] else entries + [block] + [telemetry]
  {
    BlockMeetsTelemetry(s, t, i, session, key);
    OfferTwo(entries, telemetry, block);
    OfferTwo(entries, block, telemetry);
    IdsSnoc(entries, telemetry);
    IdsSnoc(entries, block);
  }
}
