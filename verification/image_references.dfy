/** OCI image references: reading `name[:tag][@digest]`, and writing it back. */
module ImageReferences {
  import opened Outcomes
  import opened Strings

  datatype ReferenceKind = Digest | TagAndDigest | Tag | Untagged | Invalid
  datatype ImageError = ImageMissing | HasWhitespace | UnsupportedDigest
  datatype ImageWarning = LatestTag | MutableTag | ResolvesImplicitly

  datatype Assessment = Assessment(
    image: string, kind: ReferenceKind, digestPinned: bool, mutableTag: bool,
    tag: Option<string>, digest: Option<string>,
    warnings: seq<ImageWarning>, errors: seq<ImageError>)

  // ---------------------------------------------------------------------------------------------
  // Splitting

  predicate Free(s: string, c: char) {
    forall i :: 0 <= i < |s| ==> s[i] != c
  }

  /** Where `c` first occurs, or the length of `s`. */
  function IndexOf(s: string, c: char): (i: nat)
    ensures i <= |s| && (i < |s| ==> s[i] == c) && forall j :: 0 <= j < i ==> s[j] != c
  {
    if s == [] || s[0] == c then 0 else IndexOf(s[1..], c) + 1
  }

  lemma IndexOfUnique(s: string, c: char, i: nat)
    requires i <= |s| && (i < |s| ==> s[i] == c) && forall j :: 0 <= j < i ==> s[j] != c
    ensures IndexOf(s, c) == i
  {
  }

  /** Where the part after the last `c` starts: at the beginning, if there is none. */
  function AfterLast(s: string, c: char): (i: nat)
    ensures i <= |s| && (i > 0 ==> s[i - 1] == c) && forall j :: i <= j < |s| ==> s[j] != c
  {
    if s == [] then 0
    else if s[|s| - 1] == c then |s|
    else AfterLast(s[..|s| - 1], c)
  }

  lemma AfterLastUnique(s: string, c: char, i: nat)
    requires i <= |s| && (i > 0 ==> s[i - 1] == c) && forall j :: i <= j < |s| ==> s[j] != c
    ensures AfterLast(s, c) == i
  {
    var k := AfterLast(s, c);
    assert k > 0 ==> s[k - 1] == c;
  }

  // ---------------------------------------------------------------------------------------------
  // Tags and digests

  /** The part of the last path segment after its last colon, unless that is empty. */
  function ImageTag(image: string): Option<string> {
    var segment := image[AfterLast(image, '/')..];
    var k := AfterLast(segment, ':');
    if k == 0 || k == |segment| then None else Some(segment[k..])
  }

  predicate IsLowerHex(c: char) {
    '0' <= c <= '9' || 'a' <= c <= 'f'
  }

  const ALGORITHM := "sha256:"

  predicate IsSupportedDigest(digest: string) {
    && |digest| >= |ALGORITHM| && digest[..|ALGORITHM|] == ALGORITHM
    && |digest| - |ALGORITHM| == 64
    && forall i :: |ALGORITHM| <= i < |digest| ==> IsLowerHex(digest[i])
  }

  // ---------------------------------------------------------------------------------------------
  // Assessing

  predicate AnyWhitespace(s: string) {
    exists i :: 0 <= i < |s| && IsWhitespace(s[i])
  }

  function NameAndTag(image: string): string {
    image[..IndexOf(image, '@')]
  }

  function DigestPart(image: string): Option<string> {
    var at := IndexOf(image, '@');
    if at < |image| then Some(image[at + 1..]) else None
  }

  function Errors(image: string): seq<ImageError> {
    (if AnyWhitespace(image) then [HasWhitespace] else [])
    + if DigestPart(image).Some? && !IsSupportedDigest(DigestPart(image).value) then [UnsupportedDigest] else []
  }

  function Warnings(tag: Option<string>, digest: Option<string>): seq<ImageWarning> {
    if digest.Some? then []
    else if tag == Some("latest") then [LatestTag]
    else if tag.Some? then [MutableTag]
    else [ResolvesImplicitly]
  }

  function KindOf(tag: Option<string>, digest: Option<string>): ReferenceKind {
    if digest.Some? then if tag.Some? then TagAndDigest else Digest
    else if tag.Some? then Tag
    else Untagged
  }

  /** The assessment of a trimmed image. */
  function AssessTrimmed(image: string): Assessment {
    if image == "" then Assessment(image, Invalid, false, false, None, None, [], [ImageMissing])
    else
      var tag, digest := ImageTag(NameAndTag(image)), DigestPart(image);
      var errors := Errors(image);
      Assessment(image, if errors == [] then KindOf(tag, digest) else Invalid, digest.Some? && errors == [],
                 tag.Some? && digest.None?, tag, digest, Warnings(tag, digest), errors)
  }

  method AssessOciImageRef(raw: string) returns (a: Assessment)
    ensures a == AssessTrimmed(Trim(raw))
  {
    a := AssessReference(Trim(raw));
  }

  method AssessReference(image: string) returns (a: Assessment)
    ensures a == AssessTrimmed(image)
  {
    if image == "" {
      return Assessment(image, Invalid, false, false, None, None, [], [ImageMissing]);
    }
    var errors: seq<ImageError> := [];
    if AnyWhitespace(image) {
      errors := errors + [HasWhitespace];
    }
    var nameAndTag, digest, digestErrors := SplitDigest(image);
    errors := errors + digestErrors;
    assert errors == Errors(image);
    var tag := ImageTag(nameAndTag);
    var warnings := WarnOfTag(tag, digest);
    var kind := if errors != [] then Invalid else KindOf(tag, digest);
    a := Assessment(image, kind, digest.Some? && errors == [], tag.Some? && digest.None?, tag, digest,
                    warnings, errors);
  }

  method WarnOfTag(tag: Option<string>, digest: Option<string>) returns (warnings: seq<ImageWarning>)
    ensures warnings == Warnings(tag, digest)
  {
    warnings := [];
    if digest.None? {
      if tag == Some("latest") {
        warnings := warnings + [LatestTag];
      } else if tag.Some? {
        warnings := warnings + [MutableTag];
      } else {
        warnings := warnings + [ResolvesImplicitly];
      }
    }
  }

  method SplitDigest(image: string) returns (nameAndTag: string, digest: Option<string>, errors: seq<ImageError>)
    ensures nameAndTag == NameAndTag(image) && digest == DigestPart(image)
    ensures errors == if digest.Some? && !IsSupportedDigest(digest.value) then [UnsupportedDigest] else []
  {
    errors := [];
    var at := IndexOf(image, '@');
    if at < |image| {
      var text := image[at + 1..];
      if !IsSupportedDigest(text) {
        errors := errors + [UnsupportedDigest];
      }
      nameAndTag, digest := image[..at], Some(text);
    } else {
      assert image[..at] == image;
      nameAndTag, digest := image, None;
    }
  }

  // ---------------------------------------------------------------------------------------------
  // References and how they are written

  datatype Reference = Reference(name: string, tag: Option<string>, digest: Option<string>)

  function TagText(tag: Option<string>): string {
    if tag.Some? then ":" + tag.value else ""
  }

  function DigestText(digest: Option<string>): string {
    if digest.Some? then "@" + digest.value else ""
  }

  function Print(r: Reference): string {
    r.name + TagText(r.tag) + DigestText(r.digest)
  }


  predicate IsTag(tag: string) {
    tag != "" && Free(tag, ':') && Free(tag, '/')
  }

  /** Nothing at the end of `name` reads as a tag: it ends in a colon, or every colon has a slash after it. */
  predicate Tagless(name: string) {
    || (name != "" && name[|name| - 1] == ':')
    || forall i :: 0 <= i < |name| && name[i] == ':' ==> exists j :: i < j < |name| && name[j] == '/'
  }

  predicate WellFormedTag(name: string, tag: Option<string>) {
    if tag.Some? then IsTag(tag.value) else Tagless(name)
  }

  predicate WellFormed(r: Reference) {
    && Free(r.name + TagText(r.tag), '@') && !AnyWhitespace(r.name + TagText(r.tag))
    && WellFormedTag(r.name, r.tag)
    && (r.digest.Some? ==> IsSupportedDigest(r.digest.value))
    && Print(r) != ""
  }

  // ---------------------------------------------------------------------------------------------
  // Reading tags

  /** A tag starts at `m`. */
  predicate TagAt(s: string, m: nat) {
    && 0 < m < |s| && s[m - 1] == ':'
    && forall j :: m <= j < |s| ==> s[j] != ':' && s[j] != '/'
  }

  lemma TagStartsAt(s: string, m: nat)
    requires TagAt(s, m)
    ensures ImageTag(s) == Some(s[m..])
  {
    var start := AfterLast(s, '/');
    assert start > 0 ==> s[start - 1] == '/';
    var segment := s[start..];
    AfterLastUnique(segment, ':', m - start);
    assert segment[m - start..] == s[m..];
  }

  lemma TagHasStart(s: string) returns (m: nat)
    requires ImageTag(s).Some?
    ensures TagAt(s, m)
  {
    var start := AfterLast(s, '/');
    var segment := s[start..];
    var k := AfterLast(segment, ':');
    m := start + k;
    assert segment[k - 1] == s[m - 1];
    forall j | m <= j < |s|
      ensures s[j] != ':' && s[j] != '/'
    {
      assert segment[j - start] == s[j];
    }
  }

  /** No tag is read exactly from a tagless name. */
  lemma TaglessExactly(name: string)
    ensures ImageTag(name).None? <==> Tagless(name)
  {
    if ImageTag(name).Some? {
      var m := TagHasStart(name);
      assert name[m - 1] == ':' && name[|name| - 1] != ':';
    } else if name != "" && name[|name| - 1] != ':' {
      forall i | 0 <= i < |name| && name[i] == ':'
        ensures exists j :: i < j < |name| && name[j] == '/'
      {
        ColonBeforeSlash(name, i);
      }
    }
  }

  lemma ColonBeforeSlash(name: string, i: nat)
    requires ImageTag(name).None? && i < |name| && name[i] == ':' && name[|name| - 1] != ':'
    ensures exists j :: i < j < |name| && name[j] == '/'
  {
    var m := AfterLast(name, ':');
    if forall j :: m <= j < |name| ==> name[j] != '/' {
      TagStartsAt(name, m);
    }
  }

  /** A tag that was written is read. */
  lemma TagRead(name: string, tag: Option<string>)
    requires WellFormedTag(name, tag)
    ensures ImageTag(name + TagText(tag)) == tag
  {
    var s := name + TagText(tag);
    if tag.None? {
      TaglessExactly(name);
      assert s == name;
    } else {
      assert s[|name| + 1..] == tag.value;
      TagStartsAt(s, |name| + 1);
    }
  }

  /** A tag that is read can be written back. */
  lemma TagWritten(s: string) returns (name: string)
    ensures s == name + TagText(ImageTag(s)) && WellFormedTag(name, ImageTag(s))
  {
    if ImageTag(s).None? {
      TaglessExactly(s);
      name := s;
    } else {
      var m := TagHasStart(s);
      TagStartsAt(s, m);
      name := s[..m - 1];
      TagCut(s, m);
    }
  }

  lemma TagCut(s: string, m: nat)
    requires TagAt(s, m)
    ensures s == s[..m - 1] + (":" + s[m..]) && IsTag(s[m..])
  {
    assert [s[m - 1]] == ":";
  }

  // ---------------------------------------------------------------------------------------------
  // Reading references

  lemma DigestPlain(digest: string)
    requires IsSupportedDigest(digest)
    ensures Free(digest, '@') && !AnyWhitespace(digest)
  {
    forall i | 0 <= i < |digest|
      ensures digest[i] != '@' && !IsWhitespace(digest[i])
    {
      if i < |ALGORITHM| {
        assert digest[i] == ALGORITHM[i];
      }
    }
  }

  lemma WhitespaceAppend(a: string, b: string)
    ensures AnyWhitespace(a + b) <==> AnyWhitespace(a) || AnyWhitespace(b)
  {
    if i :| 0 <= i < |a| && IsWhitespace(a[i]) {
      assert (a + b)[i] == a[i];
    }
    if i :| 0 <= i < |b| && IsWhitespace(b[i]) {
      assert (a + b)[|a| + i] == b[i];
    }
  }

  lemma AtSignRead(head: string, digest: Option<string>)
    requires Free(head, '@')
    ensures IndexOf(head + DigestText(digest), '@') == |head|
  {
    var image := head + DigestText(digest);
    assert forall j :: 0 <= j < |head| ==> image[j] == head[j];
    IndexOfUnique(image, '@', |head|);
  }

  lemma PartsRead(head: string, digest: Option<string>)
    requires Free(head, '@')
    ensures NameAndTag(head + DigestText(digest)) == head && DigestPart(head + DigestText(digest)) == digest
  {
    AtSignRead(head, digest);
    CutAt(head, DigestText(digest));
    if digest.Some? {
      CutAt(head + "@", digest.value);
      Regrouped(head, "@", digest.value);
    }
  }

  lemma CutAt(a: string, b: string)
    ensures (a + b)[..|a|] == a && (a + b)[|a|..] == b
  {
  }

  lemma PrintedClean(head: string, digest: Option<string>)
    requires Free(head, '@') && !AnyWhitespace(head) && (digest.Some? ==> IsSupportedDigest(digest.value))
    ensures Errors(head + DigestText(digest)) == [] && !AnyWhitespace(head + DigestText(digest))
  {
    PartsRead(head, digest);
    WhitespaceAppend(head, DigestText(digest));
    if digest.Some? {
      DigestPlain(digest.value);
      WhitespaceAppend("@", digest.value);
    }
  }

  /** The assessment of a written reference gives back its tag and its digest, and no error. */
  lemma PrintedIsRead(r: Reference)
    requires WellFormed(r)
    ensures var a := AssessTrimmed(Print(r));
            a.tag == r.tag && a.digest == r.digest && a.errors == [] && a.kind == KindOf(r.tag, r.digest)
  {
    var head := r.name + TagText(r.tag);
    PartsRead(head, r.digest);
    TagRead(r.name, r.tag);
    PrintedClean(head, r.digest);
  }

  lemma {:induction false} TrimStartPadding(before: string, s: string)
    requires AllWhitespace(before)
    requires s != "" && !IsWhitespace(s[0])
    ensures TrimStart(before + s) == s
  {
    if before == "" {
      assert before + s == s;
    } else {
      assert (before + s)[1..] == before[1..] + s;
      TrimStartPadding(before[1..], s);
    }
  }

  lemma {:induction false} TrimEndPadding(s: string, after: string)
    requires AllWhitespace(after)
    requires s != "" && !IsWhitespace(s[|s| - 1])
    ensures TrimEnd(s + after) == s
  {
    if after == "" {
      assert s + after == s;
    } else {
      var n := |after| - 1;
      assert (s + after)[..|s + after| - 1] == s + after[..n];
      TrimEndPadding(s, after[..n]);
    }
  }

  lemma TrimPadding(before: string, s: string, after: string)
    requires AllWhitespace(before)
    requires AllWhitespace(after)
    requires s != "" && !AnyWhitespace(s)
    ensures Trim(before + (s + after)) == s
  {
    TrimStartPadding(before, s + after);
    TrimEndPadding(s, after);
  }

  /** Whitespace around a written reference makes no difference. */
  lemma PaddedIsRead(before: string, r: Reference, after: string)
    requires WellFormed(r)
    requires AllWhitespace(before)
    requires AllWhitespace(after)
    ensures var a := AssessTrimmed(Trim(before + (Print(r) + after)));
            a.image == Print(r) && a.tag == r.tag && a.digest == r.digest && a.errors == []
  {
    PrintedClean(r.name + TagText(r.tag), r.digest);
    TrimPadding(before, Print(r), after);
    PrintedIsRead(r);
  }

  lemma SplitAtDigest(image: string)
    ensures image == NameAndTag(image) + DigestText(DigestPart(image)) && Free(NameAndTag(image), '@')
  {
    var at := IndexOf(image, '@');
    if at < |image| {
      assert image == image[..at] + ("@" + image[at + 1..]);
    } else {
      assert image[..at] == image;
    }
  }

  /** An image without errors is the writing of the reference that was read from it. */
  lemma ReadIsPrinted(image: string) returns (r: Reference)
    requires AssessTrimmed(image).errors == []
    ensures WellFormed(r) && Print(r) == image
    ensures r.tag == AssessTrimmed(image).tag && r.digest == AssessTrimmed(image).digest
  {
    var head := NameAndTag(image);
    SplitAtDigest(image);
    WhitespaceAppend(head, DigestText(DigestPart(image)));
    var name := TagWritten(head);
    r := Reference(name, ImageTag(head), DigestPart(image));
    assert Errors(image) == [];
  }

  /** An image is accepted exactly if it is the writing of a well-formed reference. */
  lemma AcceptedExactly(image: string)
    ensures AssessTrimmed(image).kind != Invalid <==> exists r :: WellFormed(r) && Print(r) == image
    ensures AssessTrimmed(image).kind != Invalid <==> AssessTrimmed(image).errors == []
  {
    if AssessTrimmed(image).errors == [] {
      var r := ReadIsPrinted(image);
      assert WellFormed(r) && Print(r) == image;
    }
    if r :| WellFormed(r) && Print(r) == image {
      PrintedIsRead(r);
    }
  }

  /** No two references are written alike. */
  lemma PrintInjective(r: Reference, q: Reference)
    requires WellFormed(r) && WellFormed(q) && Print(r) == Print(q)
    ensures r == q
  {
    PrintedIsRead(r);
    PrintedIsRead(q);
    SuffixUnique(r.name + TagText(r.tag), q.name + TagText(q.tag), DigestText(r.digest));
    SuffixUnique(r.name, q.name, TagText(r.tag));
  }

  /** Before trimming: accepted exactly if only whitespace stands around the writing of a well-formed reference. */
  lemma RawAcceptedExactly(raw: string)
    ensures AssessTrimmed(Trim(raw)).kind != Invalid
            <==> exists before, r, after :: PaddedWriting(raw, before, r, after)
  {
    if AssessTrimmed(Trim(raw)).kind != Invalid {
      var before, r, after := AcceptedIsPadded(raw);
    }
    forall before, r, after | PaddedWriting(raw, before, r, after)
      ensures AssessTrimmed(Trim(raw)).kind != Invalid
    {
      PaddedIsAccepted(raw, before, r, after);
    }
  }

  lemma AcceptedIsPadded(raw: string) returns (before: string, r: Reference, after: string)
    requires AssessTrimmed(Trim(raw)).kind != Invalid
    ensures PaddedWriting(raw, before, r, after)
  {
    r := AcceptedIsPrinted(Trim(raw));
    before, after := TrimCuts(raw);
    Regrouped(before, Trim(raw), after);
  }

  lemma Regrouped(a: string, b: string, c: string)
    ensures a + b + c == a + (b + c)
  {
  }

  lemma AcceptedIsPrinted(image: string) returns (r: Reference)
    requires AssessTrimmed(image).kind != Invalid
    ensures WellFormed(r) && Print(r) == image
  {
    AcceptedExactly(image);
    r := ReadIsPrinted(image);
  }

  lemma PaddedIsAccepted(raw: string, before: string, r: Reference, after: string)
    requires PaddedWriting(raw, before, r, after)
    ensures AssessTrimmed(Trim(raw)).kind != Invalid
  {
    PaddedIsRead(before, r, after);
    AcceptedExactly(Trim(raw));
  }

  predicate PaddedWriting(raw: string, before: string, r: Reference, after: string) {
    AllWhitespace(before) && AllWhitespace(after) && WellFormed(r) && raw == before + (Print(r) + after)
  }

  /** A pinned image names its content; what is not pinned and not refused carries a warning. */
  lemma PinnedExactly(image: string)
    ensures var a := AssessTrimmed(image);
            && (a.digestPinned <==> exists head, d ::
                  Free(head, '@') && !AnyWhitespace(head) && IsSupportedDigest(d) && image == head + ("@" + d))
            && (a.kind != Invalid ==> (a.digestPinned <==> a.warnings == []))
            && !(a.digestPinned && a.mutableTag)
  {
    var a := AssessTrimmed(image);
    if a.digestPinned {
      var head, d := NameAndTag(image), DigestPart(image).value;
      SplitAtDigest(image);
      WhitespaceAppend(head, "@" + d);
      assert Errors(image) == [];
      assert Free(head, '@') && !AnyWhitespace(head) && IsSupportedDigest(d) && image == head + ("@" + d);
    }
    if head, d :| Free(head, '@') && !AnyWhitespace(head) && IsSupportedDigest(d) && image == head + ("@" + d) {
      PartsRead(head, Some(d));
      PrintedClean(head, Some(d));
    }
  }

  // ---------------------------------------------------------------------------------------------
  // What is accepted although it hardly names an image

  lemma HeadRead(r: Reference)
    requires WellFormed(r)
    ensures NameAndTag(Print(r)) == r.name + TagText(r.tag)
  {
    PartsRead(r.name + TagText(r.tag), r.digest);
  }

  /** A tag starts in one place only: behind the name and its colon. */
  lemma TagBehindName(name: string, tag: Option<string>, m: nat)
    requires WellFormedTag(name, tag)
    ensures TagAt(name + TagText(tag), m) <==> tag.Some? && m == |name| + 1
  {
    var head := name + TagText(tag);
    TagRead(name, tag);
    if TagAt(head, m) {
      TagStartsAt(head, m);
      assert |head[m..]| == |tag.value|;
    }
    if tag.Some? && m == |name| + 1 {
      forall j | m <= j < |head|
        ensures head[j] != ':' && head[j] != '/'
      {
        assert head[j] == tag.value[j - m];
      }
    }
  }

  /** The name of an accepted image is empty exactly if the image starts with `@` or its tag starts at 1. */
  lemma NamelessExactly(r: Reference)
    requires WellFormed(r)
    ensures r.name == "" <==> Print(r)[0] == '@' || TagAt(NameAndTag(Print(r)), 1)
  {
    HeadRead(r);
    TagBehindName(r.name, r.tag, 1);
    var head := r.name + TagText(r.tag);
    if head == "" {
      assert Print(r)[0] == '@';
    } else {
      assert Print(r)[0] == head[0];
    }
  }

  ghost predicate Names(image: string, r: Reference) {
    WellFormed(r) && Print(r) == image && r.name != ""
  }

  /** An image is the writing of a reference with a name exactly if it is accepted and neither of the two holds. */
  lemma NamedExactly(image: string)
    ensures (exists r :: Names(image, r))
            <==> AssessTrimmed(image).kind != Invalid && image[0] != '@' && !TagAt(NameAndTag(image), 1)
  {
    if AssessTrimmed(image).kind != Invalid {
      var r := AcceptedIsPrinted(image);
      NamelessExactly(r);
      assert r.name != "" ==> Names(image, r);
    }
    forall r | Names(image, r)
      ensures AssessTrimmed(image).kind != Invalid && image[0] != '@' && !TagAt(NameAndTag(image), 1)
    {
      NamelessExactly(r);
      PrintedIsRead(r);
    }
  }

  /** The name ends in a colon exactly if the image does, up to its digest, or a second colon stands before the tag. */
  lemma ColonNameExactly(r: Reference)
    requires WellFormed(r)
    ensures var head := NameAndTag(Print(r));
            r.name != "" && r.name[|r.name| - 1] == ':'
            <==> (head != "" && head[|head| - 1] == ':') || exists m :: m >= 2 && TagAt(head, m) && head[m - 2] == ':'
  {
    var head := r.name + TagText(r.tag);
    HeadRead(r);
    if r.tag.Some? {
      var m := |r.name| + 1;
      TagBehindName(r.name, r.tag, m);
      assert head[|head| - 1] == r.tag.value[|r.tag.value| - 1];
      assert m >= 2 ==> head[m - 2] == r.name[|r.name| - 1];
      forall m' | TagAt(head, m')
        ensures m' == m
      {
        TagBehindName(r.name, r.tag, m');
      }
    } else {
      assert head == r.name;
      forall m: nat
        ensures !TagAt(head, m)
      {
        TagBehindName(r.name, r.tag, m);
      }
    }
  }

  const SOME_DIGEST := ALGORITHM + seq(64, _ => '0')

  /** A tag alone, a digest alone, and a name that ends in a colon are accepted. */
  lemma AcceptedExamples()
    ensures AssessTrimmed(":tag").kind == Tag
    ensures AssessTrimmed("@" + SOME_DIGEST).kind == Digest
    ensures AssessTrimmed("name:").kind == Untagged
  {
    TagAlone();
    DigestAlone();
    ColonAtEnd();
  }

  lemma TagAlone()
    ensures AssessTrimmed(":tag").kind == Tag
  {
    var r := Reference("", Some("tag"), None);
    assert Print(r) == ":tag" && "" + TagText(r.tag) == ":tag";
    PrintedIsRead(r);
  }

  lemma DigestAlone()
    ensures AssessTrimmed("@" + SOME_DIGEST).kind == Digest
  {
    var r := Reference("", None, Some(SOME_DIGEST));
    assert SOME_DIGEST[..|ALGORITHM|] == ALGORITHM;
    assert IsSupportedDigest(SOME_DIGEST);
    assert Print(r) == "@" + SOME_DIGEST && "" + TagText(r.tag) == "";
    PrintedIsRead(r);
  }

  lemma ColonAtEnd()
    ensures AssessTrimmed("name:").kind == Untagged
  {
    var r := Reference("name:", None, None);
    assert Print(r) == "name:" && "name:" + TagText(r.tag) == "name:";
    PrintedIsRead(r);
  }

  // ---------------------------------------------------------------------------------------------
  // The whole assessment

  /** A supported digest: the algorithm, and 64 digits of which none is a capital. */
  lemma SupportedDigestExactly(digest: string)
    ensures IsSupportedDigest(digest) <==>
              && |digest| == 71 && digest[..7] == "sha256:"
              && forall i :: 7 <= i < 71 ==> digest[i] in "0123456789abcdef"
  {
    forall c: char
      ensures IsLowerHex(c) <==> c in "0123456789abcdef"
    {
      HexDigits(c);
    }
    assert |ALGORITHM| == 7;
  }

  lemma HexDigits(c: char)
    ensures IsLowerHex(c) <==> c in "0123456789abcdef"
  {
    var digits := "0123456789abcdef";
    if '0' <= c <= '9' {
      assert digits[c as int - 48] == c;
    } else if 'a' <= c <= 'f' {
      assert digits[c as int - 87] == c;
    }
  }

  /** What is said about a written reference: nothing but what follows from its tag and its digest. */
  lemma PrintedAssessed(r: Reference)
    requires WellFormed(r)
    ensures var a := AssessTrimmed(Print(r));
            && a.image == Print(r) && a.tag == r.tag && a.digest == r.digest && a.errors == []
            && (a.kind == Digest <==> r.digest.Some? && r.tag.None?)
            && (a.kind == TagAndDigest <==> r.digest.Some? && r.tag.Some?)
            && (a.kind == Tag <==> r.digest.None? && r.tag.Some?)
            && (a.kind == Untagged <==> r.digest.None? && r.tag.None?)
            && (a.digestPinned <==> r.digest.Some?)
            && (a.mutableTag <==> r.tag.Some? && r.digest.None?)
            && (r.digest.Some? ==> a.warnings == [])
            && (r.digest.None? && r.tag == Some("latest") ==> a.warnings == [LatestTag])
            && (r.digest.None? && r.tag.Some? && r.tag != Some("latest") ==> a.warnings == [MutableTag])
            && (r.digest.None? && r.tag.None? ==> a.warnings == [ResolvesImplicitly])
  {
    PrintedIsRead(r);
  }

  /** A digest that is not supported follows the first at sign. */
  ghost predicate HasBadDigest(image: string) {
    exists head, d :: EndsInBadDigest(image, head, d)
  }

  predicate EndsInBadDigest(image: string, head: string, d: string) {
    Free(head, '@') && image == head + ("@" + d) && !IsSupportedDigest(d)
  }

  /** What is wrong with an image: that there is none, or whitespace in it, or the digest, in this order. */
  lemma ErrorsExactly(image: string)
    ensures var errors := AssessTrimmed(image).errors;
            if image == "" then errors == [ImageMissing]
            else
              errors == (if exists i :: 0 <= i < |image| && IsWhitespace(image[i]) then [HasWhitespace] else [])
                        + if HasBadDigest(image) then [UnsupportedDigest] else []
  {
    BadDigestExactly(image);
  }

  lemma BadDigestExactly(image: string)
    ensures HasBadDigest(image) <==> DigestPart(image).Some? && !IsSupportedDigest(DigestPart(image).value)
  {
    SplitAtDigest(image);
    if DigestPart(image).Some? && !IsSupportedDigest(DigestPart(image).value) {
      assert EndsInBadDigest(image, NameAndTag(image), DigestPart(image).value);
    }
    forall head, d | EndsInBadDigest(image, head, d)
      ensures DigestPart(image) == Some(d)
    {
      BadDigestRead(image, head, d);
    }
  }

  lemma BadDigestRead(image: string, head: string, d: string)
    requires EndsInBadDigest(image, head, d)
    ensures DigestPart(image) == Some(d)
  {
    PartsRead(head, Some(d));
    assert DigestText(Some(d)) == "@" + d;
  }
}
