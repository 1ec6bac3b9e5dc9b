/** Escaping and decoding of HTML entities by whole-string replacement passes, and when they undo each other. */
module HtmlEntities {
  import opened Strings

  /** `s.replace(from, to)`: non-overlapping matches from left to right. */
  function Replace(s: string, from: string, to: string): string
    requires from != ""
  {
    if s == "" then ""
    else if from <= s then to + Replace(s[|from|..], from, to)
    else [s[0]] + Replace(s[1..], from, to)
  }

  function DecodeHtmlEntities(s: string): string {
    var s1 := Replace(s, "&amp;", "&");
    var s2 := Replace(s1, "&lt;", "<");
    var s3 := Replace(s2, "&gt;", ">");
    var s4 := Replace(s3, "&quot;", "\"");
    var s5 := Replace(s4, "&apos;", "'");
    Replace(s5, "&#39;", "'")
  }

  function EscapeHtmlText(s: string): string {
    var s1 := Replace(s, "&", "&amp;");
    var s2 := Replace(s1, "<", "&lt;");
    var s3 := Replace(s2, ">", "&gt;");
    var s4 := Replace(s3, "\"", "&quot;");
    Replace(s4, "'", "&#39;")
  }

  // ---------------------------------------------------------------------------------------------
  // Replacement passes

  /** Text without the first character of the pattern is passed over. */
  lemma {:induction false} ReplacePasses(a: string, b: string, from: string, to: string)
    requires from != "" && from[0] !in a
    ensures Replace(a + b, from, to) == a + Replace(b, from, to)
  {
    if a == "" {
      assert a + b == b;
    } else {
      assert (a + b)[0] == a[0] && (a + b)[1..] == a[1..] + b;
      ReplacePasses(a[1..], b, from, to);
      assert a + Replace(b, from, to) == [a[0]] + (a[1..] + Replace(b, from, to));
    }
  }

  lemma ReplaceHit(rest: string, from: string, to: string)
    requires from != ""
    ensures Replace(from + rest, from, to) == to + Replace(rest, from, to)
  {
    assert (from + rest)[|from|..] == rest;
  }

  lemma ContainsHere(s: string, t: string)
    ensures Contains(s, t) <==> t <= s || (s != "" && Contains(s[1..], t))
  {
    if t <= s {
      assert OccursAt(s, t, 0);
    } else if s != "" && Contains(s[1..], t) {
      var i :| 0 <= i <= |s[1..]| && OccursAt(s[1..], t, i);
      assert s[i + 1..i + 1 + |t|] == s[1..][i..i + |t|];
      assert OccursAt(s, t, i + 1);
    }
    if Contains(s, t) && !(t <= s) {
      var i :| 0 <= i <= |s| && OccursAt(s, t, i);
      assert i > 0;
      assert s[1..][i - 1..i - 1 + |t|] == s[i..i + |t|];
      assert OccursAt(s[1..], t, i - 1);
    }
  }

  /** A pass that shortens what it replaces leaves a text alone exactly when the pattern does not occur in it. */
  lemma {:induction false} ReplaceShortens(s: string, from: string, to: string)
    requires |to| < |from|
    ensures |Replace(s, from, to)| <= |s|
    ensures Contains(s, from) ==> |Replace(s, from, to)| < |s|
    ensures !Contains(s, from) ==> Replace(s, from, to) == s
  {
    ContainsHere(s, from);
    if s != "" {
      if from <= s {
        ReplaceShortens(s[|from|..], from, to);
      } else {
        ReplaceShortens(s[1..], from, to);
      }
    }
  }

  // ---------------------------------------------------------------------------------------------
  // Character by character

  function FlatMap(f: char -> string, s: string): string {
    if s == "" then "" else f(s[0]) + FlatMap(f, s[1..])
  }

  lemma {:induction false} FlatMapAppend(f: char -> string, a: string, b: string)
    ensures FlatMap(f, a + b) == FlatMap(f, a) + FlatMap(f, b)
  {
    if a == "" {
      assert a + b == b;
    } else {
      assert (a + b)[0] == a[0] && (a + b)[1..] == a[1..] + b;
      FlatMapAppend(f, a[1..], b);
      assert f(a[0]) + (FlatMap(f, a[1..]) + FlatMap(f, b)) == f(a[0]) + FlatMap(f, a[1..]) + FlatMap(f, b);
    }
  }

  lemma {:induction false} FlatMapIdentity(f: char -> string, s: string)
    requires forall i :: 0 <= i < |s| ==> f(s[i]) == [s[i]]
    ensures FlatMap(f, s) == s
  {
    if s != "" {
      FlatMapIdentity(f, s[1..]);
    }
  }

  /** The image of `x` when, of the characters `&`, `<`, `>`, `"`, `'`, the ones numbered `from` to `to` are escaped. */
  function EscapeChar(from: nat, to: nat, x: char): string {
    if x == '&' && from <= 1 <= to then "&amp;"
    else if x == '<' && from <= 2 <= to then "&lt;"
    else if x == '>' && from <= 3 <= to then "&gt;"
    else if x == '"' && from <= 4 <= to then "&quot;"
    else if x == '\'' && from <= 5 <= to then "&#39;"
    else [x]
  }

  function Escaper(from: nat, to: nat): char -> string {
    (x: char) => EscapeChar(from, to, x)
  }

  /** One escaping pass: the new character stands alone, and no image so far holds it. */
  lemma {:induction false} EscapePass(f: char -> string, f': char -> string, c: char, to: string, s: string)
    requires f(c) == [c] && f'(c) == to
    requires forall x :: x != c ==> f'(x) == f(x) && c !in f(x)
    ensures Replace(FlatMap(f, s), [c], to) == FlatMap(f', s)
  {
    if s != "" {
      var image, rest := f(s[0]), FlatMap(f, s[1..]);
      EscapePass(f, f', c, to, s[1..]);
      if s[0] == c {
        ReplaceHit(rest, [c], to);
      } else {
        ReplacePasses(image, rest, [c], to);
      }
    }
  }

  lemma EscapeAmpersand(s: string)
    ensures Replace(s, "&", "&amp;") == FlatMap(Escaper(1, 1), s)
  {
    FlatMapIdentity(Escaper(1, 0), s);
    EscapePass(Escaper(1, 0), Escaper(1, 1), '&', "&amp;", s);
  }

  lemma EscapeLess(s: string)
    ensures Replace(FlatMap(Escaper(1, 1), s), "<", "&lt;") == FlatMap(Escaper(1, 2), s)
  {
    EscapePass(Escaper(1, 1), Escaper(1, 2), '<', "&lt;", s);
  }

  lemma EscapeGreater(s: string)
    ensures Replace(FlatMap(Escaper(1, 2), s), ">", "&gt;") == FlatMap(Escaper(1, 3), s)
  {
    EscapePass(Escaper(1, 2), Escaper(1, 3), '>', "&gt;", s);
  }

  lemma EscapeQuote(s: string)
    ensures Replace(FlatMap(Escaper(1, 3), s), "\"", "&quot;") == FlatMap(Escaper(1, 4), s)
  {
    EscapePass(Escaper(1, 3), Escaper(1, 4), '"', "&quot;", s);
  }

  lemma EscapeApostrophe(s: string)
    ensures Replace(FlatMap(Escaper(1, 4), s), "'", "&#39;") == FlatMap(Escaper(1, 5), s)
  {
    EscapePass(Escaper(1, 4), Escaper(1, 5), '\'', "&#39;", s);
  }

  /** The five passes amount to escaping each character once. */
  lemma EscapeIsPerCharacter(s: string)
    ensures EscapeHtmlText(s) == FlatMap(Escaper(1, 5), s)
  {
    EscapeAmpersand(s);
    EscapeLess(s);
    EscapeGreater(s);
    EscapeQuote(s);
    EscapeApostrophe(s);
  }

  /** Escaped text holds no raw markup character. */
  lemma {:induction false} FlatMapExcludes(f: char -> string, c: char, s: string)
    requires forall x :: c !in f(x)
    ensures c !in FlatMap(f, s)
  {
    if s != "" {
      FlatMapExcludes(f, c, s[1..]);
    }
  }

  predicate IsMarkup(c: char) {
    c == '<' || c == '>' || c == '"' || c == '\''
  }

  lemma EscapeExcludesMarkup(s: string, c: char)
    requires IsMarkup(c)
    ensures c !in EscapeHtmlText(s)
  {
    EscapeIsPerCharacter(s);
    assert forall x :: c !in Escaper(1, 5)(x);
    FlatMapExcludes(Escaper(1, 5), c, s);
  }

  // ---------------------------------------------------------------------------------------------
  // Decoding passes on escaped text

  /** Every image is the character itself or an entity: an ampersand and then none. */
  ghost predicate Images(f: char -> string) {
    forall x :: f(x) == [x] || (|f(x)| >= 2 && f(x)[0] == '&' && '&' !in f(x)[1..])
  }

  /** The ampersand pass: every ampersand of the text starts an image, and only that of `&` is the entity. */
  lemma {:induction false} AmpersandPass(f: char -> string, f': char -> string, s: string)
    requires Images(f) && f('&') == "&amp;" && f'('&') == "&"
    requires forall x :: x != '&' ==> f'(x) == f(x) && (f(x) == [x] || f(x)[1] != 'a')
    ensures Replace(FlatMap(f, s), "&amp;", "&") == FlatMap(f', s)
  {
    if s != "" {
      var image, rest := f(s[0]), FlatMap(f, s[1..]);
      AmpersandPass(f, f', s[1..]);
      if s[0] == '&' {
        ReplaceHit(rest, "&amp;", "&");
      } else {
        PassImage(f, s[0], rest, "&amp;", "&");
      }
    }
  }

  /** An image that is no ampersand and differs from the pattern in its second character is passed over. */
  lemma PassImage(f: char -> string, x: char, rest: string, from: string, to: string)
    requires Images(f) && |from| >= 2 && from[0] == '&'
    requires x != '&' && (f(x) == [x] || f(x)[1] != from[1])
    ensures Replace(f(x) + rest, from, to) == f(x) + Replace(rest, from, to)
  {
    var image := f(x);
    if image == [x] {
      ReplacePasses(image, rest, from, to);
    } else {
      var text, tail := image + rest, image[1..];
      assert text[1] == image[1] && !(from <= text);
      assert text[1..] == tail + rest;
      ReplacePasses(tail, rest, from, to);
      assert [image[0]] + (tail + Replace(rest, from, to)) == image + Replace(rest, from, to);
    }
  }

  /** Plain text is a prefix of the images exactly when it is a prefix of the source. */
  lemma {:induction false} PlainPrefix(f: char -> string, t: string, s: string)
    requires Images(f) && '&' !in t && forall i :: 0 <= i < |t| ==> f(t[i]) == [t[i]]
    ensures t <= FlatMap(f, s) <==> t <= s
  {
    if t != "" && s != "" {
      if f(s[0]) == [s[0]] {
        PlainPrefix(f, t[1..], s[1..]);
        PrefixStep(t, s);
        PrefixStep(t, FlatMap(f, s));
        assert FlatMap(f, s)[1..] == FlatMap(f, s[1..]);
      } else {
        assert t[0] in t;
        assert FlatMap(f, s)[0] == '&';
      }
    }
  }

  lemma PlainCarries(f: char -> string, t: string, s: string)
    requires t <= s && forall i :: 0 <= i < |t| ==> f(t[i]) == [t[i]]
    ensures FlatMap(f, s) == t + FlatMap(f, s[|t|..])
  {
    assert s == t + s[|t|..];
    FlatMapAppend(f, t, s[|t|..]);
    FlatMapIdentity(f, t);
  }

  lemma PrefixStep(t: string, s: string)
    requires t != "" && s != ""
    ensures t <= s <==> t[0] == s[0] && t[1..] <= s[1..]
  {
    if t[0] == s[0] && t[1..] <= s[1..] {
      assert t == [t[0]] + t[1..] && s == [s[0]] + s[1..];
      assert forall i :: 1 <= i < |t| ==> t[i] == t[1..][i - 1] && s[i] == s[1..][i - 1];
    }
    if t <= s {
      assert forall i :: 0 <= i < |t| - 1 ==> t[1..][i] == t[i + 1] && s[1..][i] == s[i + 1];
    }
  }

  /** What a decoding pass for the entity of `c` needs of the images before (`f`) and after it (`f'`). */
  ghost predicate DecodesOne(f: char -> string, f': char -> string, entity: string, c: char) {
    && Images(f) && |entity| >= 2 && entity[0] == '&' && c != '&'
    && f(c) == entity && f'(c) == [c]
    && f('&') == "&" && f'('&') == "&"
    && (forall x :: x != c ==> f'(x) == f(x) && (f(x) == [x] || f(x)[1] != entity[1]))
    && '&' !in entity[1..] && forall i :: 1 <= i < |entity| ==> f(entity[i]) == [entity[i]]
  }

  /** One decoding pass undoes the escape of one character, and decodes the entities written out in the source. */
  lemma {:induction false} DecodePass(f: char -> string, f': char -> string, entity: string, c: char, s: string)
    requires DecodesOne(f, f', entity, c)
    ensures Replace(FlatMap(f, s), entity, [c]) == FlatMap(f', Replace(s, entity, [c]))
    decreases |s|
  {
    if s != "" {
      var rest := s[1..];
      if entity <= s {
        DecodePass(f, f', entity, c, s[|entity|..]);
        PlainCarries(f, entity, s);
        ReplaceHit(FlatMap(f, s[|entity|..]), entity, [c]);
        assert ([c] + Replace(s[|entity|..], entity, [c]))[1..] == Replace(s[|entity|..], entity, [c]);
      } else {
        DecodePass(f, f', entity, c, rest);
        assert ([s[0]] + Replace(rest, entity, [c]))[1..] == Replace(rest, entity, [c]);
        if s[0] == c {
          ReplaceHit(FlatMap(f, rest), entity, [c]);
        } else if s[0] == '&' {
          LoneAmpersand(f, entity, s, [c]);
        } else {
          PassImage(f, s[0], FlatMap(f, rest), entity, [c]);
        }
      }
    }
  }

  lemma LoneAmpersand(f: char -> string, entity: string, s: string, to: string)
    requires Images(f) && |entity| >= 2 && entity[0] == '&' && f('&') == "&"
    requires '&' !in entity[1..] && forall i :: 1 <= i < |entity| ==> f(entity[i]) == [entity[i]]
    requires s != "" && s[0] == '&' && !(entity <= s)
    ensures Replace(FlatMap(f, s), entity, to) == "&" + Replace(FlatMap(f, s[1..]), entity, to)
  {
    PrefixStep(entity, s);
    PlainPrefix(f, entity[1..], s[1..]);
    var mapped := FlatMap(f, s);
    assert mapped == "&" + FlatMap(f, s[1..]);
    assert mapped[1..] == FlatMap(f, s[1..]);
    PrefixStep(entity, mapped);
  }

  // ---------------------------------------------------------------------------------------------
  // The two passes for the apostrophe

  /** Text with neither ampersand nor the replacement is a prefix after a pass exactly when it was before. */
  lemma {:induction false} PlainPrefixReplaced(t: string, s: string, from: string, c: char)
    requires from != "" && from[0] == '&' && '&' !in t && c !in t
    ensures t <= Replace(s, from, [c]) <==> t <= s
  {
    if t != "" && s != "" {
      assert t[0] in t;
      var replaced := Replace(s, from, [c]);
      if from <= s {
        assert s[0] == '&' && replaced[0] == c;
      } else {
        assert replaced[1..] == Replace(s[1..], from, [c]);
        PrefixStep(t, s);
        PrefixStep(t, replaced);
        PlainPrefixReplaced(t[1..], s[1..], from, c);
      }
    }
  }

  lemma PlainCarriesReplaced(t: string, s: string, from: string, to: string)
    requires from != "" && from[0] == '&' && '&' !in t && t <= s
    ensures Replace(s, from, to) == t + Replace(s[|t|..], from, to)
  {
    assert s == t + s[|t|..];
    ReplacePasses(t, s[|t|..], from, to);
  }

  function DecodeApostrophes(s: string): string {
    Replace(Replace(s, "&apos;", "'"), "&#39;", "'")
  }

  ghost predicate EscapesApostropheOnly(f: char -> string) {
    Images(f) && f('\'') == "&#39;" && forall x :: x != '\'' ==> f(x) == [x]
  }

  lemma {:induction false} ApostrophePasses(f: char -> string, s: string)
    requires EscapesApostropheOnly(f)
    ensures DecodeApostrophes(FlatMap(f, s)) == DecodeApostrophes(s)
    decreases |s|
  {
    if s != "" {
      var rest := s[1..];
      if "&apos;" <= s {
        ApostrophePasses(f, s[6..]);
        NamedApostrophe(f, s);
      } else if s[0] == '\'' {
        ApostrophePasses(f, rest);
        RawApostrophe(f, s);
      } else if s[0] == '&' {
        AmpersandBeforeApostrophe(f, s);
      } else {
        ApostrophePasses(f, rest);
        PassImage(f, s[0], FlatMap(f, rest), "&apos;", "'");
        ReplacePasses([s[0]], Replace(FlatMap(f, rest), "&apos;", "'"), "&#39;", "'");
        ReplacePasses([s[0]], Replace(rest, "&apos;", "'"), "&#39;", "'");
      }
    }
  }

  lemma NamedApostrophe(f: char -> string, s: string)
    requires EscapesApostropheOnly(f) && "&apos;" <= s
    requires DecodeApostrophes(FlatMap(f, s[6..])) == DecodeApostrophes(s[6..])
    ensures DecodeApostrophes(FlatMap(f, s)) == DecodeApostrophes(s)
  {
    var mapped := FlatMap(f, s[6..]);
    NamedCarries(f, s);
    ReplaceHit(mapped, "&apos;", "'");
    ReplacePasses("'", Replace(mapped, "&apos;", "'"), "&#39;", "'");
    ReplacePasses("'", Replace(s[6..], "&apos;", "'"), "&#39;", "'");
  }

  lemma NamedCarries(f: char -> string, s: string)
    requires EscapesApostropheOnly(f) && "&apos;" <= s
    ensures FlatMap(f, s) == "&apos;" + FlatMap(f, s[6..])
  {
    var t := "&apos;";
    forall i | 0 <= i < |t|
      ensures f(t[i]) == [t[i]]
    {
      assert t[i] != '\'';
    }
    PlainCarries(f, t, s);
  }

  lemma RawApostrophe(f: char -> string, s: string)
    requires EscapesApostropheOnly(f) && s != "" && s[0] == '\''
    requires DecodeApostrophes(FlatMap(f, s[1..])) == DecodeApostrophes(s[1..])
    ensures DecodeApostrophes(FlatMap(f, s)) == DecodeApostrophes(s)
  {
    var rest := s[1..];
    PassEscapedApostrophe(FlatMap(f, rest));
    ReplaceHit(Replace(FlatMap(f, rest), "&apos;", "'"), "&#39;", "'");
    ReplacePasses("'", Replace(rest, "&apos;", "'"), "&#39;", "'");
  }

  lemma PassEscapedApostrophe(rest: string)
    ensures Replace("&#39;" + rest, "&apos;", "'") == "&#39;" + Replace(rest, "&apos;", "'")
  {
    var all := "&#39;" + rest;
    assert all[1] != "&apos;"[1];
    assert all[0] == '&' && all[1..] == "#39;" + rest;
    ReplacePasses("#39;", rest, "&apos;", "'");
  }

  lemma {:induction false} AmpersandBeforeApostrophe(f: char -> string, s: string)
    requires EscapesApostropheOnly(f) && s != "" && s[0] == '&' && !("&apos;" <= s)
    ensures DecodeApostrophes(FlatMap(f, s)) == DecodeApostrophes(s)
    decreases |s|, 0
  {
    var rest := s[1..];
    var p, q := Replace(FlatMap(f, rest), "&apos;", "'"), Replace(rest, "&apos;", "'");
    LoneAmpersand(f, "&apos;", s, "'");
    PlainPrefix(f, "#39;", rest);
    PlainPrefixReplaced("#39;", FlatMap(f, rest), "&apos;", '\'');
    PlainPrefixReplaced("#39;", rest, "&apos;", '\'');
    if "#39;" <= rest {
      ApostrophePasses(f, rest[4..]);
      NumericTail(f, rest);
      AfterAmpersand(p, Replace(FlatMap(f, rest[4..]), "&apos;", "'"));
      AfterAmpersand(q, Replace(rest[4..], "&apos;", "'"));
    } else {
      ApostrophePasses(f, rest);
      NotAfterAmpersand(p);
      NotAfterAmpersand(q);
    }
  }

  lemma NumericTail(f: char -> string, s: string)
    requires EscapesApostropheOnly(f) && "#39;" <= s
    ensures Replace(FlatMap(f, s), "&apos;", "'") == "#39;" + Replace(FlatMap(f, s[4..]), "&apos;", "'")
    ensures Replace(s, "&apos;", "'") == "#39;" + Replace(s[4..], "&apos;", "'")
  {
    PlainCarries(f, "#39;", s);
    ReplacePasses("#39;", FlatMap(f, s[4..]), "&apos;", "'");
    PlainCarriesReplaced("#39;", s, "&apos;", "'");
  }

  lemma AfterAmpersand(p: string, tail: string)
    requires p == "#39;" + tail
    ensures Replace("&" + p, "&#39;", "'") == "'" + Replace(tail, "&#39;", "'")
  {
    assert "&" + p == "&#39;" + tail;
    ReplaceHit(tail, "&#39;", "'");
  }

  lemma NotAfterAmpersand(p: string)
    requires !("#39;" <= p)
    ensures Replace("&" + p, "&#39;", "'") == "&" + Replace(p, "&#39;", "'")
  {
    assert ("&" + p)[1..] == p && "&#39;"[1..] == "#39;";
    PrefixStep("&#39;", "&" + p);
  }

  // ---------------------------------------------------------------------------------------------
  // Round trip

  /** What decoding makes of escaped text: the entities of the source, all but that of the ampersand, are decoded. */
  function DecodeButAmpersand(s: string): string {
    DecodeApostrophes(Replace(Replace(Replace(s, "&lt;", "<"), "&gt;", ">"), "&quot;", "\""))
  }

  lemma EscapeImage(from: nat, to: nat, x: char)
    ensures var image := EscapeChar(from, to, x);
            image == [x] || (|image| >= 2 && image[0] == '&' && '&' !in image[1..])
  {
  }

  lemma EscaperImages(from: nat, to: nat)
    ensures Images(Escaper(from, to))
  {
    forall x: char
      ensures var image := Escaper(from, to)(x);
              image == [x] || (|image| >= 2 && image[0] == '&' && '&' !in image[1..])
    {
      EscapeImage(from, to, x);
    }
  }

  /** The images before and after the pass for the `k`-th character differ in that character only. */
  lemma EscaperStage(k: nat, entity: string, c: char)
    requires 2 <= k <= 4 && EscapeChar(k, 5, c) == entity && EscapeChar(k + 1, 5, c) == [c] != entity
    requires '&' !in entity[1..] && forall i :: 1 <= i < |entity| ==> EscapeChar(k, 5, entity[i]) == [entity[i]]
    ensures DecodesOne(Escaper(k, 5), Escaper(k + 1, 5), entity, c)
  {
    EscaperImages(k, 5);
    forall x: char | x != c
      ensures var before := Escaper(k, 5)(x);
              Escaper(k + 1, 5)(x) == before && (before == [x] || before[1] != entity[1])
    {
    }
  }

  lemma DecodeAmpersand(s: string)
    ensures Replace(FlatMap(Escaper(1, 5), s), "&amp;", "&") == FlatMap(Escaper(2, 5), s)
  {
    EscaperImages(1, 5);
    AmpersandPass(Escaper(1, 5), Escaper(2, 5), s);
  }

  lemma DecodeLess(s: string)
    ensures Replace(FlatMap(Escaper(2, 5), s), "&lt;", "<") == FlatMap(Escaper(3, 5), Replace(s, "&lt;", "<"))
  {
    EscaperStage(2, "&lt;", '<');
    DecodePass(Escaper(2, 5), Escaper(3, 5), "&lt;", '<', s);
  }

  lemma DecodeGreater(s: string)
    ensures Replace(FlatMap(Escaper(3, 5), s), "&gt;", ">") == FlatMap(Escaper(4, 5), Replace(s, "&gt;", ">"))
  {
    EscaperStage(3, "&gt;", '>');
    DecodePass(Escaper(3, 5), Escaper(4, 5), "&gt;", '>', s);
  }

  lemma DecodeQuote(s: string)
    ensures Replace(FlatMap(Escaper(4, 5), s), "&quot;", "\"") == FlatMap(Escaper(5, 5), Replace(s, "&quot;", "\""))
  {
    EscaperStage(4, "&quot;", '"');
    DecodePass(Escaper(4, 5), Escaper(5, 5), "&quot;", '"', s);
  }

  lemma DecodeApostrophe(s: string)
    ensures DecodeApostrophes(FlatMap(Escaper(5, 5), s)) == DecodeApostrophes(s)
  {
    EscaperImages(5, 5);
    ApostrophePasses(Escaper(5, 5), s);
  }

  lemma DecodeOfEscape(s: string)
    ensures DecodeHtmlEntities(EscapeHtmlText(s)) == DecodeButAmpersand(s)
  {
    EscapeIsPerCharacter(s);
    DecodeAmpersand(s);
    DecodeLess(s);
    var s2 := Replace(s, "&lt;", "<");
    DecodeGreater(s2);
    var s3 := Replace(s2, "&gt;", ">");
    DecodeQuote(s3);
    DecodeApostrophe(Replace(s3, "&quot;", "\""));
  }

  predicate WritesEntity(s: string) {
    || Contains(s, "&lt;") || Contains(s, "&gt;") || Contains(s, "&quot;")
    || Contains(s, "&apos;") || Contains(s, "&#39;")
  }

  /**
    Decoding undoes escaping exactly for texts that write out none of the five entities; a written `&amp;`
    survives.
   */
  lemma RoundTripExactly(s: string)
    ensures DecodeHtmlEntities(EscapeHtmlText(s)) == s <==> !WritesEntity(s)
  {
    DecodeOfEscape(s);
    var s1 := Replace(s, "&lt;", "<");
    ReplaceShortens(s, "&lt;", "<");
    var s2 := Replace(s1, "&gt;", ">");
    ReplaceShortens(s1, "&gt;", ">");
    var s3 := Replace(s2, "&quot;", "\"");
    ReplaceShortens(s2, "&quot;", "\"");
    var s4 := Replace(s3, "&apos;", "'");
    ReplaceShortens(s3, "&apos;", "'");
    ReplaceShortens(s4, "&#39;", "'");
  }

  /** A written entity is lost: it comes back as the character it names. */
  lemma WrittenEntityIsLost()
    ensures DecodeHtmlEntities(EscapeHtmlText("&lt;")) != "&lt;"
  {
    assert OccursAt("&lt;", "&lt;", 0);
    RoundTripExactly("&lt;");
  }
}
