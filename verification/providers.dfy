/** The provider inventory: what the runtime reports, joined by key with what the settings list. */
module Providers {
  import opened Outcomes
  import opened Strings
  import opened Subsequences

  datatype Provider = Provider(name: string, authenticated: bool, authMethod: Option<string>, model: Option<string>)

  // ---------------------------------------------------------------------------------------------
  // Keys

  predicate IsAsciiAlphanumeric(c: char) {
    '0' <= c <= '9' || 'a' <= c <= 'z' || 'A' <= c <= 'Z'
  }

  function Normalize(name: string): (s: string)
    ensures |s| == |name|
  {
    seq(|name|, i requires 0 <= i < |name| => if IsAsciiAlphanumeric(name[i]) then LowerChar(name[i]) else ' ')
  }

  /** The leading word of `s`, which does not start with whitespace. */
  function TakeWord(s: string): string {
    if s == "" || IsWhitespace(s[0]) then "" else [s[0]] + TakeWord(s[1..])
  }

  /** The first word of the name, in lower case, if it has one. */
  function CommandName(name: string): Option<string> {
    var word := TakeWord(TrimStart(Normalize(name)));
    if word == "" then None else Some(word)
  }

  function KeyOf(name: string): string {
    var command := CommandName(name);
    if command.Some? then command.value else Lower(Trim(name))
  }

  lemma AlphanumericExactly(c: char)
    ensures IsAsciiAlphanumeric(c) <==> c in CAPITALS || c in SMALLS || c in "0123456789"
  {
    CapitalExactly(c);
    SmallExactly(c);
    DigitExactly(c);
  }

  lemma CapitalExactly(c: char)
    ensures 'A' <= c <= 'Z' <==> c in CAPITALS
  {
    AlphabetAt(0);
    if 'A' <= c <= 'Z' {
      AlphabetAt(c as int - 65);
    }
    if c in CAPITALS {
      var k :| 0 <= k < |CAPITALS| && CAPITALS[k] == c;
      AlphabetAt(k);
    }
  }

  lemma SmallExactly(c: char)
    ensures 'a' <= c <= 'z' <==> c in SMALLS
  {
    AlphabetAt(0);
    if 'a' <= c <= 'z' {
      AlphabetAt(c as int - 97);
    }
    if c in SMALLS {
      var k :| 0 <= k < |SMALLS| && SMALLS[k] == c;
      AlphabetAt(k);
    }
  }

  lemma DigitExactly(c: char)
    ensures '0' <= c <= '9' <==> c in "0123456789"
  {
    if '0' <= c <= '9' {
      assert "0123456789"[c as int - 48] == c;
    }
  }

  predicate NoneAlphanumeric(s: string) {
    forall i :: 0 <= i < |s| ==> !IsAsciiAlphanumeric(s[i])
  }

  predicate AllAlphanumeric(s: string) {
    forall i :: 0 <= i < |s| ==> IsAsciiAlphanumeric(s[i])
  }

  lemma {:induction false} SkipSeparators(before: string, s: string)
    requires NoneAlphanumeric(before)
    ensures TrimStart(Normalize(before + s)) == TrimStart(Normalize(s))
  {
    if before == "" {
      assert before + s == s;
    } else {
      var all := before + s;
      assert all[1..] == before[1..] + s;
      assert Normalize(all)[1..] == Normalize(all[1..]);
      assert Normalize(all)[0] == ' ';
      SkipSeparators(before[1..], s);
    }
  }

  lemma {:induction false} TakeWordOf(word: string, after: string)
    requires AllAlphanumeric(word) && (after != "" ==> !IsAsciiAlphanumeric(after[0]))
    ensures TakeWord(Normalize(word + after)) == Lower(word)
  {
    var all := word + after;
    if word != "" {
      assert all[1..] == word[1..] + after;
      assert Normalize(all)[1..] == Normalize(all[1..]);
      TakeWordOf(word[1..], after);
      assert Lower(word) == [LowerChar(word[0])] + Lower(word[1..]);
      assert all[0] == word[0] && !IsWhitespace(LowerChar(word[0]));
    } else {
      assert all == after;
    }
  }

  /** The command name is the first run of letters and digits, in lower case. */
  lemma CommandNameIsFirstWord(before: string, word: string, after: string)
    requires NoneAlphanumeric(before) && AllAlphanumeric(word) && (after != "" ==> !IsAsciiAlphanumeric(after[0]))
    requires word != ""
    ensures CommandName(before + (word + after)) == Some(Lower(word))
  {
    var rest := word + after;
    SkipSeparators(before, rest);
    assert rest[0] == word[0] && !IsWhitespace(LowerChar(word[0]));
    assert TrimStart(Normalize(rest)) == Normalize(rest);
    TakeWordOf(word, after);
  }

  /** A name without letters and digits has none, and its key is the trimmed name. */
  lemma NoCommandName(name: string)
    requires NoneAlphanumeric(name)
    ensures CommandName(name) == None && KeyOf(name) == Lower(Trim(name))
  {
    SkipSeparators(name, "");
    assert name + "" == name;
  }

  /** Names with the same letters up to case have the same key. */
  lemma KeyIgnoresCase(a: string, b: string)
    requires |a| == |b| && forall i :: 0 <= i < |a| ==> SameLetter(a[i], b[i])
    ensures KeyOf(a) == KeyOf(b)
  {
    forall i | 0 <= i < |a|
      ensures Normalize(a)[i] == Normalize(b)[i] && LowerChar(a[i]) == LowerChar(b[i])
    {
      SameLetterLower(a[i], b[i]);
    }
    assert Normalize(a) == Normalize(b);
    if CommandName(a).None? {
      NoWord(a);
      NoWord(b);
      assert a == b;
    }
  }

  lemma {:induction false} WordFound(s: string, i: nat)
    requires i < |s| && !IsWhitespace(s[i])
    ensures TakeWord(TrimStart(s)) != ""
    decreases |s|
  {
    if IsWhitespace(s[0]) {
      WordFound(s[1..], i - 1);
    }
  }

  lemma NoWord(name: string)
    requires CommandName(name).None?
    ensures NoneAlphanumeric(name)
  {
    forall i | 0 <= i < |name|
      ensures !IsAsciiAlphanumeric(name[i])
    {
      if IsAsciiAlphanumeric(name[i]) {
        WordFound(Normalize(name), i);
      }
    }
  }

  /** How a name is turned into the key that joins the two lists. */
  type Key = string -> string

  // ---------------------------------------------------------------------------------------------
  // The merge

  function OrElse<T>(a: Option<T>, b: Option<T>): Option<T> {
    if a.Some? then a else b
  }

  /** A runtime provider, with the settings' authentication method and a model if it has none. */
  function Combine(runtime: Provider, settings: Option<Provider>): Provider {
    if settings.None? then runtime
    else
      runtime.(authMethod := OrElse(settings.value.authMethod, runtime.authMethod),
               model := OrElse(runtime.model, settings.value.model))
  }

  /** The first provider with the given key. */
  function Find(key: Key, providers: seq<Provider>, k: string): Option<Provider> {
    if providers == [] then None
    else if key(providers[0].name) == k then Some(providers[0])
    else Find(key, providers[1..], k)
  }

  function Keys(key: Key, providers: seq<Provider>): set<string> {
    set p | p in providers :: key(p.name)
  }

  function Heads(key: Key, runtime: seq<Provider>, settings: seq<Provider>): (heads: seq<Provider>)
    ensures |heads| == |runtime|
  {
    seq(|runtime|, i requires 0 <= i < |runtime| => Combine(runtime[i], Find(key, settings, key(runtime[i].name))))
  }

  /** The settings providers whose key is not in `seen`, the first for each key. */
  function Rest(key: Key, settings: seq<Provider>, seen: set<string>): seq<Provider> {
    if settings == [] then []
    else
      var k := key(settings[0].name);
      if k in seen then Rest(key, settings[1..], seen)
      else [settings[0]] + Rest(key, settings[1..], seen + {k})
  }

  function Merge(key: Key, runtime: seq<Provider>, settings: seq<Provider>): seq<Provider> {
    if settings == [] then runtime
    else Heads(key, runtime, settings) + Rest(key, settings, Keys(key, runtime))
  }

  method FindSettings(key: Key, settings: seq<Provider>, k: string) returns (found: Option<Provider>)
    ensures found == Find(key, settings, k)
  {
    for i := 0 to |settings|
      invariant Find(key, settings, k) == Find(key, settings[i..], k)
    {
      assert settings[i..][1..] == settings[i + 1..];
      if key(settings[i].name) == k {
        return Some(settings[i]);
      }
    }
    return None;
  }

  lemma KeysSnoc(key: Key, providers: seq<Provider>, i: nat)
    requires i < |providers|
    ensures Keys(key, providers[..i + 1]) == Keys(key, providers[..i]) + {key(providers[i].name)}
  {
    assert providers[..i + 1] == providers[..i] + [providers[i]];
    forall k | k in Keys(key, providers[..i]) + {key(providers[i].name)}
      ensures k in Keys(key, providers[..i + 1])
    {
      if k in Keys(key, providers[..i]) {
        var p :| p in providers[..i] && key(p.name) == k;
        assert p in providers[..i + 1];
      } else {
        assert providers[i] in providers[..i + 1];
      }
    }
  }

  method MergedProviderInventory(runtime: seq<Provider>, listed: Option<seq<Provider>>) returns (merged: seq<Provider>)
    ensures merged == Merge(KeyOf, runtime, if listed.Some? then listed.value else [])
  {
    if listed.None? || listed.value == [] {
      return runtime;
    }
    var settings := listed.value;
    var seen: set<string>;
    merged, seen := MergeRuntime(KeyOf, runtime, settings);
    ghost var heads := merged;
    for i := 0 to |settings|
      invariant merged + Rest(KeyOf, settings[i..], seen) == heads + Rest(KeyOf, settings, Keys(KeyOf, runtime))
    {
      assert settings[i..][1..] == settings[i + 1..];
      var k := KeyOf(settings[i].name);
      if k !in seen {
        assert merged + ([settings[i]] + Rest(KeyOf, settings[i + 1..], seen + {k}))
            == merged + [settings[i]] + Rest(KeyOf, settings[i + 1..], seen + {k});
        seen := seen + {k};
        merged := merged + [settings[i]];
      }
    }
  }

  /** The first loop: every runtime provider, in place. */
  method MergeRuntime(key: Key, runtime: seq<Provider>, settings: seq<Provider>)
    returns (merged: seq<Provider>, seen: set<string>)
    ensures merged == Heads(key, runtime, settings) && seen == Keys(key, runtime)
  {
    merged, seen := [], {};
    ghost var heads := Heads(key, runtime, settings);
    for i := 0 to |runtime|
      invariant merged == heads[..i] && seen == Keys(key, runtime[..i])
    {
      var entry, k := MergeOne(key, runtime[i], settings);
      HeadsAt(key, runtime, settings, i);
      KeysSnoc(key, runtime, i);
      merged, seen := merged + [entry], seen + {k};
    }
    assert runtime[..|runtime|] == runtime;
  }

  lemma HeadsAt(key: Key, runtime: seq<Provider>, settings: seq<Provider>, i: nat)
    requires i < |runtime|
    ensures Heads(key, runtime, settings)[i] == Combine(runtime[i], Find(key, settings, key(runtime[i].name)))
  {
  }

  method MergeOne(key: Key, provider: Provider, settings: seq<Provider>) returns (entry: Provider, k: string)
    ensures k == key(provider.name) && entry == Combine(provider, Find(key, settings, k))
  {
    k := key(provider.name);
    var found := FindSettings(key, settings, k);
    entry := MergeEntry(provider, found);
  }

  method MergeEntry(provider: Provider, found: Option<Provider>) returns (entry: Provider)
    ensures entry == Combine(provider, found)
  {
    var authMethod :=
      if found.Some? && found.value.authMethod.Some? then found.value.authMethod else provider.authMethod;
    var model := if provider.model.Some? then provider.model else if found.Some? then found.value.model else None;
    entry := Provider(provider.name, provider.authenticated, authMethod, model);
  }

  // ---------------------------------------------------------------------------------------------
  // What the merge promises

  /** Runtime providers keep position, name, authentication and model; the settings' method of authentication wins. */
  lemma RuntimeKept(key: Key, runtime: seq<Provider>, settings: seq<Provider>, i: nat)
    requires i < |runtime|
    ensures |runtime| <= |Merge(key, runtime, settings)|
    ensures var p := Merge(key, runtime, settings)[i];
            var found := Find(key, settings, key(runtime[i].name));
            && p.name == runtime[i].name && p.authenticated == runtime[i].authenticated
            && (runtime[i].model.Some? ==> p.model == runtime[i].model)
            && (runtime[i].model.None? && found.Some? ==> p.model == found.value.model)
            && (found.Some? && found.value.authMethod.Some? ==> p.authMethod == found.value.authMethod)
            && (found.None? || found.value.authMethod.None? ==> p.authMethod == runtime[i].authMethod)
            && (found.None? ==> p == runtime[i])
  {
  }

  /** What is found is the first provider with the key. */
  lemma {:induction false} FindIsFirst(key: Key, providers: seq<Provider>, k: string, i: nat)
    requires i < |providers| && key(providers[i].name) == k
    requires forall j :: 0 <= j < i ==> key(providers[j].name) != k
    ensures Find(key, providers, k) == Some(providers[i])
  {
    if i > 0 {
      FindIsFirst(key, providers[1..], k, i - 1);
    }
  }

  lemma {:induction false} FindIsIn(key: Key, providers: seq<Provider>, k: string)
    ensures Find(key, providers, k).Some? <==> k in Keys(key, providers)
    ensures Find(key, providers, k).Some? ==>
              Find(key, providers, k).value in providers && key(Find(key, providers, k).value.name) == k
  {
    if providers != [] {
      FindIsIn(key, providers[1..], k);
      assert providers == [providers[0]] + providers[1..];
      if Find(key, providers[1..], k).Some? {
        assert Find(key, providers[1..], k).value in providers;
      }
    }
  }

  /** Every provider of the tail is the first of the settings with its key, and that key was not seen. */
  lemma {:induction false} RestIsFirst(key: Key, settings: seq<Provider>, seen: set<string>, i: nat)
    requires i < |Rest(key, settings, seen)|
    ensures var p := Rest(key, settings, seen)[i];
            Find(key, settings, key(p.name)) == Some(p) && key(p.name) !in seen
    decreases |settings|
  {
    var k := key(settings[0].name);
    if k in seen {
      RestIsFirst(key, settings[1..], seen, i);
    } else if i > 0 {
      RestIsFirst(key, settings[1..], seen + {k}, i - 1);
    }
  }

  /** Every settings key that was not seen has its first provider in the tail. */
  lemma {:induction false} RestIsComplete(key: Key, settings: seq<Provider>, seen: set<string>, k: string)
    returns (i: nat)
    requires k !in seen && Find(key, settings, k).Some?
    ensures i < |Rest(key, settings, seen)| && Find(key, settings, k) == Some(Rest(key, settings, seen)[i])
    decreases |settings|
  {
    var k0 := key(settings[0].name);
    if k0 == k {
      i := 0;
    } else if k0 in seen {
      i := RestIsComplete(key, settings[1..], seen, k);
    } else {
      var j := RestIsComplete(key, settings[1..], seen + {k0}, k);
      i := j + 1;
    }
  }

  /** One provider per key in the tail. */
  lemma {:induction false} RestKeysDistinct(key: Key, settings: seq<Provider>, seen: set<string>, i: nat, j: nat)
    requires i < j < |Rest(key, settings, seen)|
    ensures key(Rest(key, settings, seen)[i].name) != key(Rest(key, settings, seen)[j].name)
    decreases |settings|
  {
    var k := key(settings[0].name);
    if k in seen {
      RestKeysDistinct(key, settings[1..], seen, i, j);
    } else if i > 0 {
      RestKeysDistinct(key, settings[1..], seen + {k}, i - 1, j - 1);
    } else {
      RestIsFirst(key, settings[1..], seen + {k}, j - 1);
    }
  }

  /** The tail keeps settings order. */
  lemma {:induction false} RestInOrder(key: Key, settings: seq<Provider>, seen: set<string>)
    ensures IsSubsequence(Rest(key, settings, seen), settings)
  {
    if settings != [] {
      var k := key(settings[0].name);
      if k in seen {
        RestInOrder(key, settings[1..], seen);
        SubsequenceCons(Rest(key, settings, seen), settings);
      } else {
        RestInOrder(key, settings[1..], seen + {k});
        assert Rest(key, settings, seen)[1..] == Rest(key, settings[1..], seen + {k});
      }
    }
  }

  lemma {:induction false} RestOfSeen(key: Key, settings: seq<Provider>, seen: set<string>)
    requires forall p :: p in settings ==> key(p.name) in seen
    ensures Rest(key, settings, seen) == []
  {
    if settings != [] {
      RestOfSeen(key, settings[1..], seen);
    }
  }

  lemma HeadIsMerged(key: Key, runtime: seq<Provider>, settings: seq<Provider>, i: nat)
    requires settings != [] && i < |Merge(key, runtime, settings)|
    ensures var p := Merge(key, runtime, settings)[i];
            Combine(p, Find(key, settings, key(p.name))) == p
  {
    if i < |runtime| {
      RuntimeKept(key, runtime, settings, i);
    } else {
      RestIsFirst(key, settings, Keys(key, runtime), i - |runtime|);
    }
  }

  lemma KeysMerged(key: Key, runtime: seq<Provider>, settings: seq<Provider>)
    requires settings != []
    ensures forall p :: p in settings ==> key(p.name) in Keys(key, Merge(key, runtime, settings))
  {
    var merged := Merge(key, runtime, settings);
    forall p | p in settings
      ensures key(p.name) in Keys(key, merged)
    {
      var k := key(p.name);
      if k in Keys(key, runtime) {
        var r :| 0 <= r < |runtime| && key(runtime[r].name) == k;
        RuntimeKept(key, runtime, settings, r);
        assert merged[r] in merged;
      } else {
        FindIsIn(key, settings, k);
        var i := RestIsComplete(key, settings, Keys(key, runtime), k);
        assert merged[|runtime| + i] in merged;
      }
    }
  }

  /** Merging the result with the same settings again changes nothing. */
  lemma MergeIdempotent(key: Key, runtime: seq<Provider>, settings: seq<Provider>)
    ensures Merge(key, Merge(key, runtime, settings), settings) == Merge(key, runtime, settings)
  {
    if settings != [] {
      var merged := Merge(key, runtime, settings);
      KeysMerged(key, runtime, settings);
      RestOfSeen(key, settings, Keys(key, merged));
      forall i | 0 <= i < |merged|
        ensures Heads(key, merged, settings)[i] == merged[i]
      {
        HeadIsMerged(key, runtime, settings, i);
      }
      assert Heads(key, merged, settings) == merged;
      assert merged + [] == merged;
    }
  }

  /**
    The tail of the merge: exactly one provider, the first in settings order, for each settings key the runtime
    lacks.
   */
  lemma TailExactly(key: Key, runtime: seq<Provider>, settings: seq<Provider>, k: string)
    ensures var tail := Merge(key, runtime, settings)[|runtime|..];
            (exists i :: 0 <= i < |tail| && key(tail[i].name) == k && Find(key, settings, k) == Some(tail[i])
                         && forall j :: 0 <= j < |tail| && key(tail[j].name) == k ==> j == i)
            <==> k in Keys(key, settings) && k !in Keys(key, runtime)
  {
    var seen := Keys(key, runtime);
    var tail := Rest(key, settings, seen);
    assert Merge(key, runtime, settings)[|runtime|..] == tail;
    FindIsIn(key, settings, k);
    if k in Keys(key, settings) && k !in seen {
      var i := RestIsComplete(key, settings, seen, k);
      forall j | 0 <= j < |tail| && key(tail[j].name) == k
        ensures j == i
      {
        if j < i {
          RestKeysDistinct(key, settings, seen, j, i);
        } else if i < j {
          RestKeysDistinct(key, settings, seen, i, j);
        }
      }
    }
    forall i | 0 <= i < |tail| && key(tail[i].name) == k
      ensures k in Keys(key, settings) && k !in seen
    {
      RestIsFirst(key, settings, seen, i);
      FindIsIn(key, settings, k);
    }
  }
}
