/** The ids of audit entries, and when two of them can coincide. */
module AuditIds {
  import opened Strings

  /** `:turn-{n}-block-{i}`. */
  function BlockTail(turn: nat, index: nat): string {
    ":turn-" + Decimal(turn) + "-block-" + Decimal(index)
  }

  function BlockId(session: string, turn: nat, index: nat): string {
    session + BlockTail(turn, index)
  }

  const MARKER := ":telemetry:"

  function TelemetryId(session: string, key: string): string {
    session + MARKER + key
  }

  /** Block ids determine session, turn and index, for arbitrary session strings. */
  lemma BlockIdInjective(s: string, t: nat, i: nat, s': string, t': nat, i': nat)
    requires BlockId(s, t, i) == BlockId(s', t', i')
    ensures s == s' && t == t' && i == i'
  {
    var a, a' := s + ":turn-" + Decimal(t), s' + ":turn-" + Decimal(t');
    assert BlockId(s, t, i) == (a + "-block-") + Decimal(i);
    assert BlockId(s', t', i') == (a' + "-block-") + Decimal(i');
    DigitTailUnique(a + "-block-", Decimal(i), a' + "-block-", Decimal(i'));
    DecimalInjective(i, i');
    SuffixUnique(a, a', "-block-");
    DigitTailUnique(s + ":turn-", Decimal(t), s' + ":turn-", Decimal(t'));
    DecimalInjective(t, t');
    SuffixUnique(s, s', ":turn-");
  }

  lemma OneColon(t: nat, i: nat, j: nat)
    requires 1 <= j < |BlockTail(t, i)|
    ensures BlockTail(t, i)[j] != ':'
  {
    var a, b, c, d := ":turn-", Decimal(t), "-block-", Decimal(i);
    var tail := BlockTail(t, i);
    if j < |a| {
      assert tail[j] == a[j];
    } else if j < |a| + |b| {
      assert tail[j] == b[j - |a|] && IsDigit(b[j - |a|]);
    } else if j < |a| + |b| + |c| {
      assert tail[j] == c[j - |a| - |b|];
    } else {
      assert tail[j] == d[j - |a| - |b| - |c|] && IsDigit(d[j - |a| - |b| - |c|]);
    }
  }

  lemma ColonInside(s: string, tail: string, l: string, k: string)
    requires s + tail == l + ":" + k && |k| + 1 < |tail|
    ensures tail[|tail| - |k| - 1] == ':'
  {
    var id := s + tail;
    var at := |id| - |k| - 1;
    assert id[at] == (l + ":" + k)[|l|] == ':';
    assert id[at] == tail[at - |s|];
  }

  /** What of the telemetry key, read with its colon, stands before a block-shaped tail. */
  predicate Splits(session: string, key: string, s: string, tail: string, p: string) {
    ":" + key == p + tail && s == session + ":telemetry" + p
  }

  lemma SplitTelemetry(session: string, key: string, s: string, tail: string)
    requires s + tail == session + ":telemetry:" + key && |tail| <= |key| + 1
    ensures exists p :: Splits(session, key, s, tail, p)
  {
    var l, k := session + ":telemetry", ":" + key;
    assert session + ":telemetry:" + key == l + k;
    CutTail(s, tail, l, k);
    assert Splits(session, key, s, tail, k[..|k| - |tail|]);
  }

  lemma CutTail(s: string, tail: string, l: string, k: string)
    requires |tail| <= |k| && s + tail == l + k
    ensures var p := k[..|k| - |tail|]; k == p + tail && s == l + p
  {
    var id, p := s + tail, k[..|k| - |tail|];
    assert k[|k| - |tail|..] == id[|s|..] == tail;
    assert s == id[..|s|] == l + p;
  }

  lemma JoinTelemetry(session: string, key: string, s: string, tail: string, p: string)
    requires Splits(session, key, s, tail, p)
    ensures s + tail == session + ":telemetry:" + key
  {
    assert s + tail == session + ":telemetry" + (p + tail);
    assert session + ":telemetry:" + key == session + ":telemetry" + (":" + key);
  }

  /** A block id equals a telemetry id exactly when the telemetry key, read with its colon, ends in the block's tail. */
  lemma BlockMeetsTelemetry(s: string, t: nat, i: nat, session: string, key: string)
    ensures BlockId(s, t, i) == TelemetryId(session, key) <==> exists p :: Splits(session, key, s, BlockTail(t, i), p)
  {
    var tail := BlockTail(t, i);
    if s + tail == session + ":telemetry:" + key {
      if |key| + 1 < |tail| {
        OneColon(t, i, |tail| - |key| - 1);
        assert session + ":telemetry:" + key == session + ":telemetry" + ":" + key;
        ColonInside(s, tail, session + ":telemetry", key);
      } else {
        SplitTelemetry(session, key, s, tail);
      }
    }
    forall p | Splits(session, key, s, tail, p)
      ensures s + tail == session + ":telemetry:" + key
    {
      JoinTelemetry(session, key, s, tail, p);
    }
  }

  /** Such a collision exists: telemetry named like a block, against a session named like telemetry. */
  lemma CollisionExample()
    ensures BlockId("remote:telemetry", 1, 0) == TelemetryId("remote", "turn-1-block-0")
  {
    assert Decimal(1) == "1" && Decimal(0) == "0";
    assert Splits("remote", "turn-1-block-0", "remote:telemetry", BlockTail(1, 0), "");
    JoinTelemetry("remote", "turn-1-block-0", "remote:telemetry", BlockTail(1, 0), "");
  }

  // ---------------------------------------------------------------------------------------------
  // Telemetry ids among themselves

  /**
    The longer session, read with a colon, starts with all that precedes the other's key; `r` is what is left
    of it.
   */
  predicate Absorbs(s: string, k: string, s': string, k': string, r: string) {
    s' + ":" == s + MARKER + r && k == r + "telemetry:" + k'
  }

  /** The marker meets itself in its outer colons only. */
  lemma MarkerColons(i: nat)
    requires 0 < i < |MARKER| && MARKER[i] == ':'
    ensures i == |MARKER| - 1
  {
  }

  lemma AbsorbedSession(s: string, k: string, s': string, k': string)
    requires TelemetryId(s, k) == TelemetryId(s', k') && |s| < |s'|
    ensures |s| + |MARKER| <= |s'| + 1 && s + MARKER <= s' + ":"
  {
    var id := TelemetryId(s, k);
    assert id == s + MARKER + k && id == s' + MARKER + k';
    assert id[|s'|] == MARKER[0];
    var i := |s'| - |s|;
    if i < |MARKER| {
      assert id[|s'|] == MARKER[i];
      MarkerColons(i);
    }
    assert s' + ":" == id[..|s'| + 1] && s + MARKER == id[..|s| + |MARKER|];
  }

  lemma AbsorbedId(s: string, s': string, k': string, r: string)
    requires s' + ":" == s + MARKER + r
    ensures TelemetryId(s', k') == TelemetryId(s, r + "telemetry:" + k')
  {
    assert TelemetryId(s', k') == (s' + ":") + ("telemetry:" + k');
    assert TelemetryId(s, r + "telemetry:" + k') == (s + MARKER + r) + ("telemetry:" + k');
  }

  lemma TelemetryKeyInjective(s: string, k: string, k': string)
    requires TelemetryId(s, k) == TelemetryId(s, k')
    ensures k == k'
  {
    var n := |s| + |MARKER|;
    assert k == TelemetryId(s, k)[n..] && k' == TelemetryId(s, k')[n..];
  }

  lemma AbsorbsExactly(s: string, k: string, s': string, k': string)
    requires |s| < |s'|
    ensures TelemetryId(s, k) == TelemetryId(s', k') <==> exists r :: Absorbs(s, k, s', k', r)
  {
    if TelemetryId(s, k) == TelemetryId(s', k') {
      AbsorbedSession(s, k, s', k');
      var r := (s' + ":")[|s| + |MARKER|..];
      assert s' + ":" == s + MARKER + r;
      AbsorbedId(s, s', k', r);
      TelemetryKeyInjective(s, k, r + "telemetry:" + k');
      assert Absorbs(s, k, s', k', r);
    }
    forall r | Absorbs(s, k, s', k', r)
      ensures TelemetryId(s, k) == TelemetryId(s', k')
    {
      AbsorbedId(s, s', k', r);
    }
  }

  /**
    When two telemetry entries have the same id: the same session and key, or one session absorbed by the
    other's key.
   */
  ghost predicate TelemetryMeets(s: string, k: string, s': string, k': string) {
    || (s == s' && k == k')
    || (exists r :: Absorbs(s, k, s', k', r))
    || (exists r :: Absorbs(s', k', s, k, r))
  }

  lemma AbsorbsLonger(s: string, k: string, s': string, k': string, r: string)
    requires Absorbs(s, k, s', k', r)
    ensures |s| < |s'|
  {
    assert |s' + ":"| == |s + MARKER + r|;
  }

  /** Telemetry ids coincide exactly then. */
  lemma TelemetryMeetsTelemetry(s: string, k: string, s': string, k': string)
    ensures TelemetryId(s, k) == TelemetryId(s', k') <==> TelemetryMeets(s, k, s', k')
  {
    forall r ensures Absorbs(s, k, s', k', r) ==> |s| < |s'| {
      if Absorbs(s, k, s', k', r) {
        AbsorbsLonger(s, k, s', k', r);
      }
    }
    forall r ensures Absorbs(s', k', s, k, r) ==> |s'| < |s| {
      if Absorbs(s', k', s, k, r) {
        AbsorbsLonger(s', k', s, k, r);
      }
    }
    if |s| < |s'| {
      AbsorbsExactly(s, k, s', k');
    } else if |s'| < |s| {
      AbsorbsExactly(s', k', s, k);
    } else if s != s' {
      SameLengthApart(s, k, s', k');
    } else if TelemetryId(s, k) == TelemetryId(s', k') {
      TelemetryKeyInjective(s, k, k');
    }
  }

  lemma SameLengthApart(s: string, k: string, s': string, k': string)
    requires s != s' && |s| == |s'|
    ensures TelemetryId(s, k) != TelemetryId(s', k')
  {
    assert s == TelemetryId(s, k)[..|s|] && s' == TelemetryId(s', k')[..|s|];
  }

  lemma SessionAbsorbed(s: string, s': string)
    requires s + MARKER <= s' + ":"
    ensures exists k, k' :: TelemetryId(s, k) == TelemetryId(s', k')
  {
    var r := (s' + ":")[|s| + |MARKER|..];
    assert s' + ":" == s + MARKER + r;
    AbsorbedId(s, s', "", r);
    assert TelemetryId(s, r + "telemetry:" + "") == TelemetryId(s', "");
  }

  /**
    Two sessions can produce the same telemetry id exactly if one, with the marker, starts the other, with a
    colon: it is the other's beginning, and `:telemetry` or `:telemetry:` and more follows.
   */
  lemma SessionsMeetExactly(s: string, s': string)
    requires s != s'
    ensures (exists k, k' :: TelemetryId(s, k) == TelemetryId(s', k'))
            <==> s + MARKER <= s' + ":" || s' + MARKER <= s + ":"
  {
    forall k, k'
      ensures TelemetryId(s, k) == TelemetryId(s', k') ==> s + MARKER <= s' + ":" || s' + MARKER <= s + ":"
    {
      if |s| == |s'| {
        SameLengthApart(s, k, s', k');
      } else if TelemetryId(s, k) == TelemetryId(s', k') {
        if |s| < |s'| {
          AbsorbedSession(s, k, s', k');
        } else {
          AbsorbedSession(s', k', s, k);
        }
      }
    }
    if s + MARKER <= s' + ":" {
      SessionAbsorbed(s, s');
    }
    if s' + MARKER <= s + ":" {
      SessionAbsorbed(s', s);
      var k', k :| TelemetryId(s', k') == TelemetryId(s, k);
      assert TelemetryId(s, k) == TelemetryId(s', k');
    }
  }

  /** Neither session contains the marker, and yet the ids coincide. */
  lemma TelemetryCollisionExample()
    ensures TelemetryId("a", "telemetry:b") == TelemetryId("a:telemetry", "b")
    ensures !Contains("a", MARKER) && !Contains("a:telemetry", MARKER)
  {
    AbsorbedId("a", "a:telemetry", "b", "");
    assert "" + "telemetry:" + "b" == "telemetry:b";
    assert |"a:telemetry"| == |MARKER| && "a:telemetry"[0] != MARKER[0];
  }
}
