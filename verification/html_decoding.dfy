/** What decoding does to the entities written in any text. */
module HtmlDecoding {
  import opened HtmlEntities
  import opened Strings

  // ---------------------------------------------------------------------------------------------
  // Texts with entities

  datatype Entity = Lt | Gt | Quot | Apos | Numeric

  /** A character other than the ampersand, or an entity. */
  datatype Token = Plain(c: char) | Named(e: Entity)

  predicate Valid(token: Token) {
    token.Plain? ==> token.c != '&'
  }

  function Spelling(e: Entity): string {
    match e
    case Lt => "&lt;"
    case Gt => "&gt;"
    case Quot => "&quot;"
    case Apos => "&apos;"
    case Numeric => "&#39;"
  }

  function Meaning(e: Entity): char {
    match e
    case Lt => '<'
    case Gt => '>'
    case Quot => '"'
    case Apos => '\''
    case Numeric => '\''
  }

  /** A text token by token. */
  function Write(f: Token -> string, tokens: seq<Token>): string {
    if tokens == [] then "" else f(tokens[0]) + Write(f, tokens[1..])
  }

  function Spell(token: Token): string {
    if token.Plain? then [token.c] else Spelling(token.e)
  }

  function Mean(token: Token): string {
    if token.Plain? then [token.c] else [Meaning(token.e)]
  }

  // ---------------------------------------------------------------------------------------------
  // One pass

  predicate IsEntityText(s: string) {
    |s| > 2 && s[0] == '&' && '&' !in s[1..]
  }

  predicate Apart(u: string, v: string) {
    |u| > 2 && |v| > 2 && (u[1] != v[1] || u[2] != v[2])
  }

  /** A pass that replaces one entity and lets everything else be. */
  ghost predicate PassesOne(f: Token -> string, f': Token -> string, from: string, to: string) {
    forall x | Valid(x) ::
      || (f(x) == from && f'(x) == to)
      || (f'(x) == f(x) && ('&' !in f(x) || (IsEntityText(f(x)) && Apart(from, f(x)))))
  }

  lemma OtherEntityPassed(e: string, rest: string, from: string, to: string)
    requires IsEntityText(e) && from != "" && from[0] == '&' && Apart(from, e)
    ensures Replace(e + rest, from, to) == e + Replace(rest, from, to)
  {
    var all := e + rest;
    assert all[1] == e[1] && all[2] == e[2];
    assert all[0] == '&' && all[1..] == e[1..] + rest;
    ReplacePasses(e[1..], rest, from, to);
    assert e == [e[0]] + e[1..];
  }

  lemma TokenPassed(f: Token -> string, f': Token -> string, from: string, to: string, x: Token, rest: string)
    requires PassesOne(f, f', from, to) && IsEntityText(from) && Valid(x)
    ensures Replace(f(x) + rest, from, to) == f'(x) + Replace(rest, from, to)
  {
    if f(x) == from && f'(x) == to {
      ReplaceHit(rest, from, to);
    } else if '&' !in f(x) {
      ReplacePasses(f(x), rest, from, to);
    } else {
      OtherEntityPassed(f(x), rest, from, to);
    }
  }

  lemma {:induction false} TokensPassed(f: Token -> string, f': Token -> string, from: string, to: string,
                                        tokens: seq<Token>)
    requires PassesOne(f, f', from, to) && IsEntityText(from) && forall i :: 0 <= i < |tokens| ==> Valid(tokens[i])
    ensures Replace(Write(f, tokens), from, to) == Write(f', tokens)
  {
    if tokens != [] {
      TokensPassed(f, f', from, to, tokens[1..]);
      TokenPassed(f, f', from, to, tokens[0], Write(f, tokens[1..]));
    }
  }

  // ---------------------------------------------------------------------------------------------
  // All passes

  function Place(e: Entity): nat {
    match e
    case Lt => 1
    case Gt => 2
    case Quot => 3
    case Apos => 4
    case Numeric => 5
  }

  /** The text after the first `k` passes behind that for the ampersand. */
  function StageText(k: nat, token: Token): string {
    if token.Named? && Place(token.e) <= k then Mean(token) else Spell(token)
  }

  function Stage(k: nat): Token -> string {
    (token: Token) => StageText(k, token)
  }

  lemma SpellingsApart(a: Entity, b: Entity)
    ensures IsEntityText(Spelling(a)) && (a != b ==> Apart(Spelling(a), Spelling(b)))
    ensures IsEntityText("&amp;") && Apart("&amp;", Spelling(a))
  {
  }

  lemma StagePasses(k: nat, e: Entity)
    requires Place(e) == k + 1
    ensures PassesOne(Stage(k), Stage(k + 1), Spelling(e), [Meaning(e)]) && IsEntityText(Spelling(e))
  {
    forall x | Valid(x)
      ensures || (Stage(k)(x) == Spelling(e) && Stage(k + 1)(x) == [Meaning(e)])
              || (Stage(k + 1)(x) == Stage(k)(x)
                  && ('&' !in Stage(k)(x) || (IsEntityText(Stage(k)(x)) && Apart(Spelling(e), Stage(k)(x)))))
    {
      if x.Named? {
        SpellingsApart(e, x.e);
        SpellingsApart(x.e, e);
      }
    }
    SpellingsApart(e, e);
  }

  lemma AmpersandStage()
    ensures PassesOne(Stage(0), Stage(0), "&amp;", "&") && IsEntityText("&amp;")
  {
    forall x | Valid(x)
      ensures '&' !in Stage(0)(x) || (IsEntityText(Stage(0)(x)) && Apart("&amp;", Stage(0)(x)))
    {
      if x.Named? {
        SpellingsApart(x.e, x.e);
      }
    }
    SpellingsApart(Lt, Lt);
  }

  lemma {:induction false} WriteSame(f: Token -> string, g: Token -> string, tokens: seq<Token>)
    requires forall i :: 0 <= i < |tokens| ==> f(tokens[i]) == g(tokens[i])
    ensures Write(f, tokens) == Write(g, tokens)
  {
    if tokens != [] {
      WriteSame(f, g, tokens[1..]);
    }
  }

  /** Every text in which each ampersand starts one of the five entities is decoded entity by entity. */
  lemma EntitiesDecoded(tokens: seq<Token>)
    requires forall i :: 0 <= i < |tokens| ==> Valid(tokens[i])
    ensures DecodeHtmlEntities(Write(Spell, tokens)) == Write(Mean, tokens)
  {
    StageEnds(tokens);
    AmpersandStage();
    TokensPassed(Stage(0), Stage(0), "&amp;", "&", tokens);
    StageLess(tokens);
    StageGreater(tokens);
    StageQuote(tokens);
    StageApostrophe(tokens);
    StageNumeric(tokens);
    DecodeChain(Write(Stage(0), tokens), Write(Stage(0), tokens), Write(Stage(1), tokens), Write(Stage(2), tokens),
                Write(Stage(3), tokens), Write(Stage(4), tokens), Write(Stage(5), tokens));
  }

  lemma StageEnds(tokens: seq<Token>)
    ensures Write(Spell, tokens) == Write(Stage(0), tokens) && Write(Stage(5), tokens) == Write(Mean, tokens)
  {
    WriteSame(Spell, Stage(0), tokens);
    WriteSame(Stage(5), Mean, tokens);
  }

  lemma DecodeChain(s0: string, s1: string, s2: string, s3: string, s4: string, s5: string, s6: string)
    requires Replace(s0, "&amp;", "&") == s1 && Replace(s1, "&lt;", "<") == s2 && Replace(s2, "&gt;", ">") == s3
    requires Replace(s3, "&quot;", "\"") == s4 && Replace(s4, "&apos;", "'") == s5 && Replace(s5, "&#39;", "'") == s6
    ensures DecodeHtmlEntities(s0) == s6
  {
  }

  lemma StageLess(tokens: seq<Token>)
    requires forall i :: 0 <= i < |tokens| ==> Valid(tokens[i])
    ensures Replace(Write(Stage(0), tokens), "&lt;", "<") == Write(Stage(1), tokens)
  {
    StageDone(0, 1, Lt, "&lt;", "<", tokens);
  }

  lemma StageGreater(tokens: seq<Token>)
    requires forall i :: 0 <= i < |tokens| ==> Valid(tokens[i])
    ensures Replace(Write(Stage(1), tokens), "&gt;", ">") == Write(Stage(2), tokens)
  {
    StageDone(1, 2, Gt, "&gt;", ">", tokens);
  }

  lemma StageQuote(tokens: seq<Token>)
    requires forall i :: 0 <= i < |tokens| ==> Valid(tokens[i])
    ensures Replace(Write(Stage(2), tokens), "&quot;", "\"") == Write(Stage(3), tokens)
  {
    StageDone(2, 3, Quot, "&quot;", "\"", tokens);
  }

  lemma StageApostrophe(tokens: seq<Token>)
    requires forall i :: 0 <= i < |tokens| ==> Valid(tokens[i])
    ensures Replace(Write(Stage(3), tokens), "&apos;", "'") == Write(Stage(4), tokens)
  {
    StageDone(3, 4, Apos, "&apos;", "'", tokens);
  }

  lemma StageNumeric(tokens: seq<Token>)
    requires forall i :: 0 <= i < |tokens| ==> Valid(tokens[i])
    ensures Replace(Write(Stage(4), tokens), "&#39;", "'") == Write(Stage(5), tokens)
  {
    StageDone(4, 5, Numeric, "&#39;", "'", tokens);
  }

  lemma StageDone(k: nat, next: nat, e: Entity, from: string, to: string, tokens: seq<Token>)
    requires Place(e) == next == k + 1 && from == Spelling(e) && to == [Meaning(e)]
    requires forall i :: 0 <= i < |tokens| ==> Valid(tokens[i])
    ensures from != "" && Replace(Write(Stage(k), tokens), from, to) == Write(Stage(next), tokens)
  {
    StagePasses(k, e);
    TokensPassed(Stage(k), Stage(next), from, to, tokens);
  }

  // ---------------------------------------------------------------------------------------------
  // The ampersand

  /** Decoding leaves a text alone exactly if it spells none of the six entities. */
  lemma DecodedUnchangedExactly(s: string)
    ensures DecodeHtmlEntities(s) == s <==> !Contains(s, "&amp;") && !WritesEntity(s)
  {
    var s0 := Replace(s, "&amp;", "&");
    ReplaceShortens(s, "&amp;", "&");
    DecodedRest(s0);
  }

  lemma DecodedRest(s: string)
    ensures |DecodeButAmpersand(s)| <= |s| && (DecodeButAmpersand(s) == s <==> !WritesEntity(s))
  {
    var s1 := Replace(s, "&lt;", "<");
    ReplaceShortens(s, "&lt;", "<");
    var s2 := Replace(s1, "&gt;", ">");
    ReplaceShortens(s1, "&gt;", ">");
    var s3 := Replace(s2, "&quot;", "\"");
    ReplaceShortens(s2, "&quot;", "\"");
    var s4 := Replace(s3, "&apos;", "'");
    ReplaceShortens(s3, "&apos;", "'");
    ReplaceShortens(s4, "&#39;", "'");
  }

  lemma AmpersandPassed(a: string, b: string)
    requires '&' !in a && '&' !in b
    ensures DecodeHtmlEntities(a + ("&amp;" + b)) == DecodeButAmpersand(a + ("&" + b))
  {
    ReplacePasses(a, "&amp;" + b, "&amp;", "&");
    ReplaceHit(b, "&amp;", "&");
    ReplacePasses(b, "", "&amp;", "&");
    assert b + "" == b;
  }

  predicate StartsEntity(b: string) {
    "lt;" <= b || "gt;" <= b || "quot;" <= b || "apos;" <= b || "#39;" <= b
  }

  lemma NoOtherAmpersand(a: string, b: string, entity: string, i: nat)
    requires '&' !in a && '&' !in b && |entity| > 0 && entity[0] == '&' && i != |a|
    ensures !OccursAt(a + ("&" + b), entity, i)
  {
    var s := a + ("&" + b);
    if i < |s| {
      assert s[i] != '&' by {
        if i < |a| {
          assert s[i] == a[i];
        } else {
          assert s[i] == b[i - |a| - 1];
        }
      }
      assert i + |entity| <= |s| ==> s[i..i + |entity|][0] == s[i];
    }
  }

  lemma EntityBehindAmpersand(a: string, b: string, entity: string)
    requires '&' !in a && '&' !in b && |entity| > 0 && entity[0] == '&'
    ensures Contains(a + ("&" + b), entity) <==> entity[1..] <= b
  {
    var s := a + ("&" + b);
    forall i | 0 <= i <= |s| && i != |a|
      ensures !OccursAt(s, entity, i)
    {
      NoOtherAmpersand(a, b, entity, i);
    }
    assert s[|a|..] == "&" + b;
    if Contains(s, entity) {
      var i :| 0 <= i <= |s| && OccursAt(s, entity, i);
      assert s[i..i + |entity|] == ("&" + b)[..|entity|];
      assert entity[1..] == b[..|entity| - 1];
    }
    if entity[1..] <= b {
      assert entity == [entity[0]] + entity[1..];
      assert s[|a|..|a| + |entity|] == entity;
      assert OccursAt(s, entity, |a|);
    }
  }

  /**
    A written ampersand is decoded to an ampersand and no more, exactly if what follows does not complete an
    entity.
   */
  lemma AmpersandDecodedExactly(a: string, b: string)
    requires '&' !in a && '&' !in b
    ensures DecodeHtmlEntities(a + ("&amp;" + b)) == a + ("&" + b) <==> !StartsEntity(b)
  {
    AmpersandPassed(a, b);
    DecodedRest(a + ("&" + b));
    AmpersandTails(a, b);
  }

  lemma AmpersandTails(a: string, b: string)
    requires '&' !in a && '&' !in b
    ensures WritesEntity(a + ("&" + b)) <==> StartsEntity(b)
  {
    EntityBehindAmpersand(a, b, "&lt;");
    EntityBehindAmpersand(a, b, "&gt;");
    EntityBehindAmpersand(a, b, "&quot;");
    EntityBehindAmpersand(a, b, "&apos;");
    EntityBehindAmpersand(a, b, "&#39;");
    assert "&lt;"[1..] == "lt;" && "&gt;"[1..] == "gt;" && "&quot;"[1..] == "quot;";
    assert "&apos;"[1..] == "apos;" && "&#39;"[1..] == "#39;";
  }

  /** A text that spells an escaped entity is decoded twice. */
  lemma DecodedTwice()
    ensures DecodeHtmlEntities("&amp;lt;") == "<"
  {
    AmpersandPassed("", "lt;");
    assert "" + ("&amp;" + "lt;") == "&amp;lt;" && "" + ("&" + "lt;") == "&lt;";
    DecodeWithoutAmpersand("&lt;");
    OneEntity(Lt);
  }

  lemma OneEntity(e: Entity)
    ensures DecodeHtmlEntities(Spelling(e)) == [Meaning(e)]
  {
    var token := Named(e);
    EntitiesDecoded([token]);
    WriteOne(Spell, token);
    WriteOne(Mean, token);
  }

  lemma WriteOne(f: Token -> string, token: Token)
    ensures Write(f, [token]) == f(token)
  {
    assert [token][1..] == [];
    assert Write(f, [token]) == f(token) + "";
  }

  lemma DecodeWithoutAmpersand(s: string)
    requires !Contains(s, "&amp;")
    ensures DecodeHtmlEntities(s) == DecodeButAmpersand(s)
  {
    ReplaceShortens(s, "&amp;", "&");
  }

  // ---------------------------------------------------------------------------------------------
  // Escaping

  function EscapeOf(c: char): string {
    match c
    case '&' => "&amp;"
    case '<' => "&lt;"
    case '>' => "&gt;"
    case '"' => "&quot;"
    case '\'' => "&#39;"
    case _ => [c]
  }

  /** Escaping goes character by character. */
  lemma EscapedCharacter(a: string, c: char, b: string)
    ensures EscapeHtmlText(a + [c] + b) == EscapeHtmlText(a) + EscapeOf(c) + EscapeHtmlText(b)
    ensures EscapeHtmlText("") == ""
  {
    EscapeIsPerCharacter(a + [c] + b);
    EscapeIsPerCharacter(a);
    EscapeIsPerCharacter(b);
    EscapeIsPerCharacter("");
    EscaperAround(Escaper(1, 5), a, c, b);
    EscapedAs(c);
  }

  lemma EscaperAround(f: char -> string, a: string, c: char, b: string)
    ensures FlatMap(f, a + [c] + b) == FlatMap(f, a) + f(c) + FlatMap(f, b)
  {
    FlatMapAppend(f, a + [c], b);
    FlatMapAppend(f, a, [c]);
    assert [c][1..] == "";
    assert FlatMap(f, [c]) == f(c) + "" == f(c);
  }

  lemma EscapedAs(c: char)
    ensures Escaper(1, 5)(c) == EscapeOf(c)
  {
  }
}
