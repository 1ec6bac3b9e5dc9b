/** The two filters over the audit timeline: the store's query and the audit panel, and where they agree. */
module AuditQuery {
  import opened AuditTimeline
  import opened Outcomes
  import opened Sequences
  import opened Strings
  import opened Subsequences

  // ---------------------------------------------------------------------------------------------
  // The store's query

  datatype Query = Query(sessionKey: Option<string>, turnNumber: Option<nat>, kind: Option<EntryKind>, text: string)

  predicate MatchesText(text: string, e: Entry) {
    var needle := Trim(text);
    needle == "" || Contains(Lower(e.title + " " + e.content), Lower(needle))
  }

  predicate Matches(q: Query, e: Entry) {
    && (q.sessionKey.Some? ==> e.sessionKey == q.sessionKey.value)
    && (q.turnNumber.Some? ==> e.turnNumber == q.turnNumber.value)
    && (q.kind.Some? ==> e.kind == q.kind.value)
    && MatchesText(q.text, e)
  }

  function Select(p: Entry -> bool, entries: seq<Entry>): seq<Entry> {
    if entries == [] then []
    else
      var n := |entries| - 1;
      Select(p, entries[..n]) + if p(entries[n]) then [entries[n]] else []
  }

  /** A selection keeps the order of the entries, holds only what matches, and as many as there are. */
  lemma {:induction false} SelectExactly(p: Entry -> bool, entries: seq<Entry>)
    ensures IsSubsequence(Select(p, entries), entries)
    ensures forall i :: 0 <= i < |Select(p, entries)| ==> p(Select(p, entries)[i])
    ensures |Select(p, entries)| == Count(p, entries)
  {
    if entries != [] {
      var n := |entries| - 1;
      var last := if p(entries[n]) then [entries[n]] else [];
      SelectExactly(p, entries[..n]);
      SubsequenceOfSelf([entries[n]]);
      SubsequenceAppend(Select(p, entries[..n]), entries[..n], last, [entries[n]]);
      CountAppend(p, entries[..n], [entries[n]]);
      assert entries == entries[..n] + [entries[n]];
    }
  }

  /** The entries a query selects, in timeline order. */
  function QueryEntries(entries: seq<Entry>, q: Query): seq<Entry> {
    Select(e => Matches(q, e), entries)
  }

  // ---------------------------------------------------------------------------------------------
  // The audit panel

  datatype Filters = Filters(sessionKey: string, turnQuery: string, kindKey: string, textQuery: string)

  function KindKey(kind: EntryKind): string {
    match kind
    case Thinking => "thinking"
    case Text => "text"
    case Tool => "tool"
    case System => "system"
    case Telemetry => "telemetry"
    case Aborted => "aborted"
  }

  predicate PanelSession(filter: string, e: Entry) {
    var session := Trim(filter);
    session == "" || e.sessionKey == session
  }

  predicate PanelTurn(filter: string, e: Entry) {
    var turn := Trim(filter);
    turn == "" || ParseU32(turn) == Some(e.turnNumber)
  }

  predicate PanelKind(filter: string, e: Entry) {
    var kind := Trim(filter);
    kind == "" || kind == "all" || KindKey(e.kind) == kind
  }

  predicate PanelText(filter: string, e: Entry) {
    var text := Lower(Trim(filter));
    text == "" || Contains(Lower(e.sessionKey + "\n" + Decimal(e.turnNumber) + "\n" + e.title + "\n" + e.content), text)
  }

  predicate PanelMatches(f: Filters, e: Entry) {
    PanelSession(f.sessionKey, e) && PanelTurn(f.turnQuery, e) && PanelKind(f.kindKey, e) && PanelText(f.textQuery, e)
  }

  function PanelEntries(entries: seq<Entry>, f: Filters): seq<Entry> {
    Select(e => PanelMatches(f, e), entries)
  }

  // ---------------------------------------------------------------------------------------------
  // Agreement without text

  function KindOfKey(key: string): Option<EntryKind> {
    if key == "thinking" then Some(Thinking)
    else if key == "text" then Some(Text)
    else if key == "tool" then Some(Tool)
    else if key == "system" then Some(System)
    else if key == "telemetry" then Some(Telemetry)
    else if key == "aborted" then Some(Aborted)
    else None
  }

  lemma KindKeyInverse(kind: EntryKind, key: string)
    ensures KindKey(kind) == key <==> KindOfKey(key) == Some(kind)
  {
  }

  /** The query that panel filters stand for; none if their turn is no number or their kind no kind. */
  function QueryOf(f: Filters): Option<Query> {
    var session, turn, kind := Trim(f.sessionKey), Trim(f.turnQuery), Trim(f.kindKey);
    var anyKind := kind == "" || kind == "all";
    if (turn != "" && ParseU32(turn).None?) || (!anyKind && KindOfKey(kind).None?) then None
    else
      Some(Query(if session == "" then None else Some(session),
                 if turn == "" then None else ParseU32(turn),
                 if anyKind then None else KindOfKey(kind),
                 f.textQuery))
  }

  lemma {:induction false} SelectSame(p: Entry -> bool, q: Entry -> bool, entries: seq<Entry>)
    requires forall e :: p(e) == q(e)
    ensures Select(p, entries) == Select(q, entries)
  {
    if entries != [] {
      SelectSame(p, q, entries[..|entries| - 1]);
    }
  }

  lemma {:induction false} SelectNone(p: Entry -> bool, entries: seq<Entry>)
    requires forall e :: !p(e)
    ensures Select(p, entries) == []
  {
    if entries != [] {
      SelectNone(p, entries[..|entries| - 1]);
    }
  }

  lemma BlankTextMatches(f: Filters, e: Entry)
    requires Trim(f.textQuery) == ""
    ensures PanelMatches(f, e) <==> QueryOf(f).Some? && Matches(QueryOf(f).value, e)
  {
    KindKeyInverse(e.kind, Trim(f.kindKey));
  }

  /** With blank text, panel and query select the same entries in the same order. */
  lemma BlankTextAgrees(f: Filters, entries: seq<Entry>)
    requires Trim(f.textQuery) == ""
    ensures PanelEntries(entries, f) == if QueryOf(f).Some? then QueryEntries(entries, QueryOf(f).value) else []
  {
    forall e
      ensures PanelMatches(f, e) <==> QueryOf(f).Some? && Matches(QueryOf(f).value, e)
    {
      BlankTextMatches(f, e);
    }
    if QueryOf(f).Some? {
      SelectSame(e => PanelMatches(f, e), e => Matches(QueryOf(f).value, e), entries);
    } else {
      SelectNone(e => PanelMatches(f, e), entries);
    }
  }

  function TurnText(turn: Option<nat>): string {
    if turn.Some? then Decimal(turn.value) else ""
  }

  function KindText(kind: Option<EntryKind>): string {
    if kind.Some? then KindKey(kind.value) else "all"
  }

  /** How a query is entered into the panel. */
  function FiltersFor(q: Query): Filters {
    Filters(if q.sessionKey.Some? then q.sessionKey.value else "",
            TurnText(q.turnNumber), KindText(q.kind), q.text)
  }

  /** Every query with a session that is not blank and has no outer whitespace can be entered. */
  lemma QueryEntered(q: Query)
    requires q.sessionKey.Some? ==> q.sessionKey.value != "" && Trim(q.sessionKey.value) == q.sessionKey.value
    requires q.turnNumber.Some? ==> q.turnNumber.value < 0x1_0000_0000
    ensures QueryOf(FiltersFor(q)) == Some(q)
  {
    var f := FiltersFor(q);
    assert Trim("") == "";
    TurnEntered(q.turnNumber);
    KindEntered(q.kind);
  }

  lemma TurnEntered(turn: Option<nat>)
    requires turn.Some? ==> turn.value < 0x1_0000_0000
    ensures var text := Trim(TurnText(turn));
            && (text == "" <==> turn.None?) && (turn.Some? ==> ParseU32(text) == turn)
  {
    if turn.Some? {
      var text := TurnText(turn);
      assert IsDigit(text[0]) && IsDigit(text[|text| - 1]);
      TrimFixed(text);
      ParseDecimal(turn.value);
    } else {
      assert Trim("") == "";
    }
  }

  lemma KindEntered(kind: Option<EntryKind>)
    ensures var text := Trim(KindText(kind));
            && (text == "" || text == "all" <==> kind.None?) && (kind.Some? ==> KindOfKey(text) == kind)
  {
    var text := KindText(kind);
    KindTextTrimmed(kind);
    if kind.Some? {
      KindKeyInverse(kind.value, text);
    }
  }

  lemma KindTextTrimmed(kind: Option<EntryKind>)
    ensures Trim(KindText(kind)) == KindText(kind) != "" && (KindText(kind) == "all" <==> kind.None?)
  {
    var text := KindText(kind);
    assert text != "" && 'a' <= text[0] <= 'z' && 'a' <= text[|text| - 1] <= 'z';
    TrimFixed(text);
  }

  function EntryIn(session: string): Entry {
    Entry(session, 0, 0, "", Text, "", "")
  }

  /** The session filters agree on a session exactly when it is not empty and has no outer whitespace. */
  lemma SessionFiltersAgree(session: string)
    ensures (forall e: Entry :: PanelSession(session, e) <==> e.sessionKey == session)
       <==> session != "" && !IsWhitespace(session[0]) && !IsWhitespace(session[|session| - 1])
  {
    TrimFixed(session);
    assert PanelSession(session, EntryIn(Trim(session)));
    assert PanelSession(session, EntryIn(session + "x")) <==> Trim(session) == "" || Trim(session) == session + "x";
    assert EntryIn(Trim(session)).sessionKey == Trim(session) && EntryIn(session + "x").sessionKey == session + "x";
    assert |session + "x"| != |session|;
  }

  // ---------------------------------------------------------------------------------------------
  // Text

  lemma LowerSpace(s: string)
    ensures ' ' in Lower(s) <==> ' ' in s
  {
    assert forall c: char :: LowerChar(c) == ' ' <==> c == ' ';
    assert forall i :: 0 <= i < |s| ==> Lower(s)[i] == LowerChar(s[i]);
  }

  lemma QueryHaystack(e: Entry)
    ensures Lower(e.title + " " + e.content) == Lower(e.title) + [' '] + Lower(e.content)
  {
    assert Lower(" ") == [' '];
  }

  lemma PanelHaystack(e: Entry)
    ensures Lower(e.sessionKey + "\n" + Decimal(e.turnNumber) + "\n" + e.title + "\n" + e.content)
         == Lower(e.sessionKey + "\n" + Decimal(e.turnNumber) + "\n") + Lower(e.title) + ("\n" + Lower(e.content))
  {
    assert Lower("\n") == "\n";
    LowerAppend(e.sessionKey + "\n" + Decimal(e.turnNumber) + "\n" + e.title + "\n", e.content);
    LowerAppend(e.sessionKey + "\n" + Decimal(e.turnNumber) + "\n" + e.title, "\n");
    LowerAppend(e.sessionKey + "\n" + Decimal(e.turnNumber) + "\n", e.title);
  }

  /** A needle without a space that the query finds is also found by the panel. */
  lemma NeedleWithoutSpace(text: string, e: Entry)
    requires ' ' !in Trim(text) && MatchesText(text, e)
    ensures PanelText(text, e)
  {
    var needle := Lower(Trim(text));
    LowerSpace(Trim(text));
    if needle != "" {
      var head, title, content :=
        Lower(e.sessionKey + "\n" + Decimal(e.turnNumber) + "\n"), Lower(e.title), Lower(e.content);
      QueryHaystack(e);
      PanelHaystack(e);
      ContainsOneSide(title, ' ', content, needle);
      if Contains(title, needle) {
        ContainsWithin(head, title, "\n" + content, needle);
      } else {
        ContainsWithin(head + title + "\n", content, "", needle);
        assert head + title + "\n" + content + "" == head + title + ("\n" + content);
      }
    }
  }

  function SplitEntry(title: string, content: string): Entry {
    Entry("", 0, 0, "", Text, title, content)
  }

  lemma SubstringCount(p: char -> bool, s: string, t: string)
    requires Contains(s, t)
    ensures Count(p, t) <= Count(p, s)
  {
    var i :| 0 <= i <= |s| && OccursAt(s, t, i);
    assert s == s[..i] + t + s[i + |t|..];
    CountAppend(p, s[..i] + t, s[i + |t|..]);
    CountAppend(p, s[..i], t);
  }

  /** A text holds more spaces than the same text with one of them broken into a line. */
  lemma SpacesLost(isSpace: char -> bool, head: string, x: string, y: string)
    requires isSpace(' ') && !isSpace('\n') && Count(isSpace, head) == 0
    ensures Count(isSpace, head + x + ("\n" + y)) < Count(isSpace, x + [' '] + y)
  {
    CountAppend(isSpace, head + x, "\n" + y);
    CountAppend(isSpace, head, x);
    CountAppend(isSpace, "\n", y);
    CountAppend(isSpace, x + [' '], y);
    CountAppend(isSpace, x, [' ']);
    assert Count(isSpace, [' ']) == 1 && Count(isSpace, "\n") == 0;
  }

  /** A needle with a space is found by the query across title and content, where the panel breaks the line. */
  lemma NeedleWithSpace(text: string, x: string, y: string)
    requires Trim(text) == x + [' '] + y
    ensures MatchesText(text, SplitEntry(x, y)) && !PanelText(text, SplitEntry(x, y))
  {
    var e, isSpace := SplitEntry(x, y), (c: char) => c == ' ';
    var needle := Lower(Trim(text));
    QueryHaystack(e);
    assert OccursAt(needle, needle, 0);
    PanelHaystack(e);
    var head := Lower("" + "\n" + Decimal(0) + "\n");
    assert head == "\n0\n";
    CountAll(isSpace, head, false);
    assert needle == Lower(x) + [' '] + Lower(y);
    SpacesLost(isSpace, head, Lower(x), Lower(y));
    var haystack := head + Lower(x) + ("\n" + Lower(y));
    if Contains(haystack, needle) {
      SubstringCount(isSpace, haystack, needle);
    }
  }

  /** For a search text: whatever the query finds the panel finds too, exactly when the trimmed text has no space. */
  lemma TextFiltersNest(text: string)
    ensures (forall e :: MatchesText(text, e) ==> PanelText(text, e)) <==> ' ' !in Trim(text)
  {
    if ' ' in Trim(text) {
      var needle := Trim(text);
      var i :| 0 <= i < |needle| && needle[i] == ' ';
      assert needle == needle[..i] + [' '] + needle[i + 1..];
      NeedleWithSpace(text, needle[..i], needle[i + 1..]);
    } else {
      forall e | MatchesText(text, e)
        ensures PanelText(text, e)
      {
        NeedleWithoutSpace(text, e);
      }
    }
  }

  /** A needle that names a session is found by the panel only. */
  lemma NeedleInSession(text: string)
    requires Trim(text) != ""
    ensures PanelText(text, EntryIn(Trim(text))) && !MatchesText(text, EntryIn(Trim(text)))
  {
    var trimmed := Trim(text);
    var e, needle := EntryIn(trimmed), Lower(trimmed);
    var before, after := TrimCuts(text);
    LowerAppend(trimmed, "\n" + Decimal(0) + "\n" + "" + "\n" + "");
    var haystack := Lower(trimmed + "\n" + Decimal(0) + "\n" + "" + "\n" + "");
    assert trimmed + "\n" + Decimal(0) + "\n" + "" + "\n" + "" == trimmed + ("\n" + Decimal(0) + "\n" + "" + "\n" + "");
    assert haystack[..|needle|] == needle;
    assert OccursAt(haystack, needle, 0);
    NotInSpace(needle);
    assert Lower("" + " " + "") == " ";
  }

  lemma NotInSpace(needle: string)
    requires needle != "" && needle[0] != ' '
    ensures !Contains(" ", needle)
  {
    forall i | 0 <= i <= 1
      ensures !OccursAt(" ", needle, i)
    {
      assert i + |needle| <= 1 ==> |needle| == 1 && i == 0;
    }
  }

  /** The text filters agree on every entry exactly when there is nothing to search for. */
  lemma TextFiltersAgree(text: string)
    ensures (forall e :: MatchesText(text, e) <==> PanelText(text, e)) <==> Trim(text) == ""
  {
    if Trim(text) != "" {
      NeedleInSession(text);
    }
  }

  /** With a needle that has no space, whatever the query returns is accepted by the panel. */
  lemma QueryWithinPanel(f: Filters, e: Entry)
    requires ' ' !in Trim(f.textQuery)
    requires QueryOf(f).Some? && Matches(QueryOf(f).value, e)
    ensures PanelMatches(f, e)
  {
    NeedleWithoutSpace(f.textQuery, e);
    KindKeyInverse(e.kind, Trim(f.kindKey));
  }
}
