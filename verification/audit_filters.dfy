/** What the panel and the query look at, part by part. */
module AuditFilters {
  import opened AuditQuery
  import opened AuditTimeline
  import opened Strings

  /** The needle occurs in the part, up to the case of letters. */
  predicate Finds(part: string, needle: string) {
    Contains(Lower(part), Lower(needle))
  }

  lemma ContainsSides(a: string, c: char, b: string, t: string)
    requires c !in t
    ensures Contains(a + [c] + b, t) <==> Contains(a, t) || Contains(b, t)
  {
    if Contains(a, t) {
      ContainsWithin("", a, [c] + b, t);
      assert "" + a + ([c] + b) == a + [c] + b;
    }
    if Contains(b, t) {
      ContainsWithin(a + [c], b, "", t);
      assert a + [c] + b + "" == a + [c] + b;
    }
    if Contains(a + [c] + b, t) {
      ContainsOneSide(a, c, b, t);
    }
  }

  lemma FindsSides(a: string, c: char, b: string, needle: string)
    requires (c == ' ' || c == '\n') && c !in needle
    ensures Finds(a + [c] + b, needle) <==> Finds(a, needle) || Finds(b, needle)
  {
    LowerAppend(a + [c], b);
    LowerAppend(a, [c]);
    assert Lower([c]) == [c];
    forall i | 0 <= i < |needle|
      ensures Lower(needle)[i] != c
    {
      assert needle[i] in needle;
    }
    ContainsSides(Lower(a), c, Lower(b), Lower(needle));
  }

  /** The query searches title and content. */
  lemma QuerySearches(text: string, e: Entry)
    requires ' ' !in Trim(text)
    ensures MatchesText(text, e) <==> Trim(text) == "" || Finds(e.title, Trim(text)) || Finds(e.content, Trim(text))
  {
    assert e.title + " " + e.content == e.title + [' '] + e.content;
    FindsSides(e.title, ' ', e.content, Trim(text));
  }

  /** The panel searches session, turn number, title and content. */
  lemma PanelSearches(text: string, e: Entry)
    requires '\n' !in Trim(text)
    ensures PanelText(text, e) <==>
              || Trim(text) == ""
              || Finds(e.sessionKey, Trim(text)) || Finds(Decimal(e.turnNumber), Trim(text))
              || Finds(e.title, Trim(text)) || Finds(e.content, Trim(text))
  {
    var s, n, t, c, needle := e.sessionKey, Decimal(e.turnNumber), e.title, e.content, Trim(text);
    FindsSides(s, '\n', n, needle);
    FindsSides(s + ['\n'] + n, '\n', t, needle);
    FindsSides(s + ['\n'] + n + ['\n'] + t, '\n', c, needle);
    assert s + "\n" + n + "\n" + t + "\n" + c == s + ['\n'] + n + ['\n'] + t + ['\n'] + c;
  }

  /** How a kind is written in the panel. */
  predicate IsKindName(kind: EntryKind, name: string) {
    match kind
    case Thinking => name == "thinking"
    case Text => name == "text"
    case Tool => name == "tool"
    case System => name == "system"
    case Telemetry => name == "telemetry"
    case Aborted => name == "aborted"
  }

  ghost predicate TurnAsked(filter: string, turn: nat) {
    turn < 0x1_0000_0000 && exists zeros :: IsNumeral(Trim(filter), zeros, turn)
  }

  /** What the panel lets through besides the text: each filter is blank or names what the entry has. */
  lemma PanelLetsThrough(f: Filters, e: Entry)
    ensures PanelMatches(f, e) <==>
              && (AllWhitespace(f.sessionKey) || e.sessionKey == Trim(f.sessionKey))
              && (AllWhitespace(f.turnQuery) || TurnAsked(f.turnQuery, e.turnNumber))
              && (AllWhitespace(f.kindKey) || Trim(f.kindKey) == "all" || IsKindName(e.kind, Trim(f.kindKey)))
              && PanelText(f.textQuery, e)
  {
    TrimBlank(f.sessionKey);
    TrimBlank(f.turnQuery);
    TrimBlank(f.kindKey);
    ParseExactly(Trim(f.turnQuery), e.turnNumber);
    KindNamed(e.kind, Trim(f.kindKey));
  }

  lemma KindNamed(kind: EntryKind, name: string)
    ensures KindKey(kind) == name <==> IsKindName(kind, name)
  {
  }
}
