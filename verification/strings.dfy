/** The string operations of the Rust standard library that the modelled code relies on. */
module Strings {
  import opened Outcomes

  // ---------------------------------------------------------------------------------------------
  // Trimming and case

  /** `char::is_whitespace`: the Unicode White_Space property. */
  predicate IsWhitespace(c: char) {
    var n := c as int;
    || 0x09 <= n <= 0x0D || n == 0x20 || n == 0x85 || n == 0xA0 || n == 0x1680
    || 0x2000 <= n <= 0x200A || n == 0x2028 || n == 0x2029 || n == 0x202F || n == 0x205F || n == 0x3000
  }

  /** The 25 characters that are whitespace. */
  lemma WhitespaceExactly(c: char)
    ensures IsWhitespace(c) <==>
              c as int in {0x09, 0x0A, 0x0B, 0x0C, 0x0D, 0x20, 0x85, 0xA0, 0x1680, 0x2000, 0x2001, 0x2002, 0x2003,
                           0x2004, 0x2005, 0x2006, 0x2007, 0x2008, 0x2009, 0x200A, 0x2028, 0x2029, 0x202F, 0x205F,
                           0x3000}
  {
  }

  function TrimStart(s: string): string {
    if s != [] && IsWhitespace(s[0]) then TrimStart(s[1..]) else s
  }

  function TrimEnd(s: string): string {
    if s != [] && IsWhitespace(s[|s| - 1]) then TrimEnd(s[..|s| - 1]) else s
  }

  /** `str::trim`. */
  function Trim(s: string): string {
    TrimEnd(TrimStart(s))
  }

  predicate AllWhitespace(s: string) {
    forall i :: 0 <= i < |s| ==> IsWhitespace(s[i])
  }

  lemma {:induction false} TrimStartCuts(s: string) returns (before: string)
    ensures s == before + TrimStart(s) && AllWhitespace(before)
    ensures TrimStart(s) != "" ==> !IsWhitespace(TrimStart(s)[0])
    decreases |s|
  {
    before := "";
    if s != [] && IsWhitespace(s[0]) {
      before := TrimStartCuts(s[1..]);
      before := [s[0]] + before;
    }
  }

  lemma {:induction false} TrimEndCuts(s: string) returns (after: string)
    ensures s == TrimEnd(s) + after && AllWhitespace(after)
    ensures TrimEnd(s) != "" ==> !IsWhitespace(TrimEnd(s)[|TrimEnd(s)| - 1])
    decreases |s|
  {
    after := "";
    if s != [] && IsWhitespace(s[|s| - 1]) {
      after := TrimEndCuts(s[..|s| - 1]);
      after := after + [s[|s| - 1]];
    }
  }

  /** Trimming cuts off whitespace, and all of it. */
  lemma TrimCuts(s: string) returns (before: string, after: string)
    ensures s == before + Trim(s) + after && AllWhitespace(before) && AllWhitespace(after)
    ensures Trim(s) != "" ==> !IsWhitespace(Trim(s)[0]) && !IsWhitespace(Trim(s)[|Trim(s)| - 1])
  {
    before := TrimStartCuts(s);
    after := TrimEndCuts(TrimStart(s));
    assert s == before + (Trim(s) + after) == before + Trim(s) + after;
  }

  /** Nothing is left of a text exactly if it is all whitespace. */
  lemma TrimBlank(s: string)
    ensures Trim(s) == "" <==> AllWhitespace(s)
  {
    var before, after := TrimCuts(s);
    assert Trim(s) != "" ==> s[|before|] == Trim(s)[0];
  }

  /** Trimming leaves a text alone exactly if it neither starts nor ends with whitespace. */
  lemma TrimFixed(s: string)
    ensures Trim(s) == s <==> s == "" || (!IsWhitespace(s[0]) && !IsWhitespace(s[|s| - 1]))
  {
    var before, after := TrimCuts(s);
  }

  /** The texts in order, with the separator in between. */
  function Join(parts: seq<string>, separator: string): string {
    if parts == [] then ""
    else if |parts| == 1 then parts[0]
    else parts[0] + separator + Join(parts[1..], separator)
  }

  function LowerChar(c: char): char {
    if 'A' <= c <= 'Z' then c + 32 as char else c
  }

  /** `str::to_ascii_lowercase`. */
  function Lower(s: string): (r: string)
    ensures |r| == |s|
    ensures forall i :: 0 <= i < |s| ==> r[i] == LowerChar(s[i])
  {
    seq(|s|, i requires 0 <= i < |s| => LowerChar(s[i]))
  }

  const CAPITALS := "ABCDEFGHIJKLMNOPQRSTUVWXYZ"
  const SMALLS := "abcdefghijklmnopqrstuvwxyz"

  lemma AlphabetAt(k: nat)
    requires k < 26
    ensures |CAPITALS| == |SMALLS| == 26
    ensures CAPITALS[k] as int == 65 + k && SMALLS[k] as int == 97 + k
  {
  }

  /** Exactly the 26 capitals are mapped, each to its small letter. */
  lemma LowerExactly(c: char)
    ensures forall k: nat | k < 26 && |CAPITALS| == |SMALLS| == 26 && CAPITALS[k] == c :: LowerChar(c) == SMALLS[k]
    ensures LowerChar(c) != c <==> c in CAPITALS
  {
    forall k: nat | k < 26
      ensures |CAPITALS| == |SMALLS| == 26 && CAPITALS[k] as int == 65 + k && SMALLS[k] as int == 97 + k
    {
      AlphabetAt(k);
    }
    AlphabetAt(0);
    if 'A' <= c <= 'Z' {
      var k := c as int - 65;
      assert CAPITALS[k] == c;
    }
  }

  /** The same letter up to case. */
  ghost predicate SameLetter(a: char, b: char) {
    a == b || exists k: nat :: SamePlace(a, b, k) || SamePlace(b, a, k)
  }

  predicate SamePlace(capital: char, small: char, k: nat) {
    k < |CAPITALS| && k < |SMALLS| && CAPITALS[k] == capital && SMALLS[k] == small
  }

  lemma PlaceExactly(a: char, b: char, k: nat)
    ensures SamePlace(a, b, k) <==> k < 26 && a as int == 65 + k && b as int == 97 + k
  {
    AlphabetAt(if k < 26 then k else 0);
  }

  lemma SameLetterLower(a: char, b: char)
    ensures SameLetter(a, b) <==> LowerChar(a) == LowerChar(b)
  {
    forall k: nat
      ensures SamePlace(a, b, k) || SamePlace(b, a, k) ==> LowerChar(a) == LowerChar(b)
    {
      PlaceExactly(a, b, k);
      PlaceExactly(b, a, k);
    }
    if LowerChar(a) == LowerChar(b) && a != b {
      var k := LowerChar(a) as int - 97;
      PlaceExactly(a, b, k);
      PlaceExactly(b, a, k);
    }
  }

  lemma LowerAppend(a: string, b: string)
    ensures Lower(a + b) == Lower(a) + Lower(b)
  {
  }

  // ---------------------------------------------------------------------------------------------
  // Substrings

  predicate OccursAt(s: string, t: string, i: nat) {
    i + |t| <= |s| && s[i..i + |t|] == t
  }

  /** `s.contains(t)`. */
  predicate Contains(s: string, t: string) {
    exists i :: 0 <= i <= |s| && OccursAt(s, t, i)
  }

  ghost predicate Around(s: string, a: string, t: string, b: string) {
    s == a + t + b
  }

  /** A text is contained in another exactly if that is made of it and what stands around it. */
  lemma ContainsExactly(s: string, t: string)
    ensures Contains(s, t) <==> exists a, b :: Around(s, a, t, b)
  {
    if Contains(s, t) {
      var i :| 0 <= i <= |s| && OccursAt(s, t, i);
      assert s == s[..i] + t + s[i + |t|..];
      assert Around(s, s[..i], t, s[i + |t|..]);
    }
    forall a, b | Around(s, a, t, b)
      ensures Contains(s, t)
    {
      assert s[|a|..|a| + |t|] == t;
      assert OccursAt(s, t, |a|);
    }
  }

  lemma ContainsWithin(a: string, b: string, c: string, t: string)
    requires Contains(b, t)
    ensures Contains(a + b + c, t)
  {
    var i :| 0 <= i <= |b| && OccursAt(b, t, i);
    var s := a + b + c;
    assert s[|a| + i..|a| + i + |t|] == b[i..i + |t|];
    assert OccursAt(s, t, |a| + i);
  }

  lemma OccursAcross(s: string, t: string, i: nat, at: nat)
    requires OccursAt(s, t, i) && i <= at < i + |t|
    ensures s[at] in t
  {
    assert t[at - i] == s[at];
  }

  lemma OccursInside(a: string, b: string, c: string, t: string, i: nat)
    requires OccursAt(a + b + c, t, i) && |a| <= i && i + |t| <= |a| + |b|
    ensures Contains(b, t)
  {
    var j := i - |a|;
    assert (a + b + c)[i..i + |t|] == b[j..j + |t|];
    assert OccursAt(b, t, j);
  }

  /** A text without `c` found around a single `c` lies on one side of it. */
  lemma ContainsOneSide(a: string, c: char, b: string, t: string)
    requires Contains(a + [c] + b, t) && c !in t
    ensures Contains(a, t) || Contains(b, t)
  {
    var s := a + [c] + b;
    var i :| 0 <= i <= |s| && OccursAt(s, t, i);
    if i + |t| <= |a| {
      OccursInside([], a, [c] + b, t, i);
      assert [] + a + ([c] + b) == s;
    } else if i > |a| {
      OccursInside(a + [c], b, [], t, i);
      assert a + [c] + b + [] == s;
    } else {
      OccursAcross(s, t, i, |a|);
    }
  }

  // ---------------------------------------------------------------------------------------------
  // Decimal numbers

  predicate IsDigit(c: char) {
    '0' <= c <= '9'
  }

  predicate AllDigits(s: string) {
    forall i :: 0 <= i < |s| ==> IsDigit(s[i])
  }

  /** How an unsigned integer is formatted. */
  function Decimal(n: nat): (s: string)
    ensures s != [] && AllDigits(s)
  {
    if n < 10 then [DigitChar(n)] else Decimal(n / 10) + [DigitChar(n % 10)]
  }

  function DigitChar(d: nat): (c: char)
    requires d < 10
    ensures IsDigit(c) && c as int == d + 48
  {
    (d + 48) as char
  }

  function Value(s: string): nat
    requires AllDigits(s)
  {
    if s == [] then 0 else Value(s[..|s| - 1]) * 10 + (s[|s| - 1] as int - 48)
  }

  lemma {:induction false} ValueOfDecimal(n: nat)
    ensures Value(Decimal(n)) == n
  {
    var s := Decimal(n);
    if n < 10 {
      assert s[..0] == [];
    } else {
      assert s[..|s| - 1] == Decimal(n / 10);
      ValueOfDecimal(n / 10);
    }
  }

  lemma DecimalInjective(m: nat, n: nat)
    requires Decimal(m) == Decimal(n)
    ensures m == n
  {
    ValueOfDecimal(m);
    ValueOfDecimal(n);
  }

  /** `s.parse::<u32>()`: an optional plus sign and at least one digit, within range. */
  function ParseU32(s: string): Option<nat> {
    var digits := if s != [] && s[0] == '+' then s[1..] else s;
    if digits == [] || !AllDigits(digits) || Value(digits) >= 0x1_0000_0000 then None else Some(Value(digits))
  }

  predicate AllZeros(s: string) {
    forall i :: 0 <= i < |s| ==> s[i] == '0'
  }

  lemma {:induction false} ValueOfZeros(zeros: string, digits: string)
    requires AllZeros(zeros) && AllDigits(digits)
    ensures AllDigits(zeros + digits) && Value(zeros + digits) == Value(digits)
  {
    var all := zeros + digits;
    if digits == "" {
      if zeros != "" {
        var n := |zeros| - 1;
        ValueOfZeros(zeros[..n], "");
        assert all[..|all| - 1] == zeros[..n] + "";
      }
    } else {
      var n := |digits| - 1;
      ValueOfZeros(zeros, digits[..n]);
      assert all[..|all| - 1] == zeros + digits[..n] && all[|all| - 1] == digits[n];
    }
  }

  /** Digits are the number they stand for, with zeros before it. */
  lemma {:induction false} DigitsSplit(s: string) returns (zeros: string)
    requires AllDigits(s) && s != ""
    ensures AllZeros(zeros) && s == zeros + Decimal(Value(s))
  {
    var n := |s| - 1;
    var front, d := s[..n], s[n] as int - 48;
    assert s == front + [s[n]];
    if Value(front) == 0 {
      OnlyZeros(front);
      zeros := front;
      assert Value(s) == d && Decimal(d) == [s[n]];
    } else {
      zeros := DigitsSplit(front);
      var v := Value(front);
      DecimalSnoc(v, d, v * 10 + d);
      assert s == zeros + (Decimal(v) + [s[n]]);
    }
  }

  lemma DecimalSnoc(v: nat, d: nat, n: nat)
    requires 0 < v && d < 10 && n == v * 10 + d
    ensures Decimal(n) == Decimal(v) + [DigitChar(d)]
  {
    assert n / 10 == v && n % 10 == d;
  }

  lemma {:induction false} OnlyZeros(s: string)
    requires AllDigits(s) && Value(s) == 0
    ensures AllZeros(s)
  {
    if s != "" {
      OnlyZeros(s[..|s| - 1]);
    }
  }

  lemma DecimalHasNoZeros(n: nat)
    requires n > 0
    ensures Decimal(n)[0] != '0'
  {
    if n >= 10 {
      DecimalHasNoZeros(n / 10);
    }
  }

  predicate IsNumeral(s: string, zeros: string, n: nat) {
    AllZeros(zeros) && (s == zeros + Decimal(n) || s == "+" + (zeros + Decimal(n)))
  }

  /** A number is read exactly from its digits, with zeros and a plus sign allowed before them, if it is in range. */
  lemma ParseExactly(s: string, n: nat)
    ensures ParseU32(s) == Some(n) <==> n < 0x1_0000_0000 && exists zeros :: IsNumeral(s, zeros, n)
  {
    if ParseU32(s) == Some(n) {
      var digits := if s != [] && s[0] == '+' then s[1..] else s;
      var zeros := DigitsSplit(digits);
      assert s == digits || s == "+" + digits;
      assert IsNumeral(s, zeros, n);
    }
    forall zeros | n < 0x1_0000_0000 && IsNumeral(s, zeros, n)
      ensures ParseU32(s) == Some(n)
    {
      NumeralParsed(s, zeros, n);
    }
  }

  lemma NumeralParsed(s: string, zeros: string, n: nat)
    requires n < 0x1_0000_0000 && IsNumeral(s, zeros, n)
    ensures ParseU32(s) == Some(n)
  {
    var digits := zeros + Decimal(n);
    ValueOfZeros(zeros, Decimal(n));
    ValueOfDecimal(n);
    assert IsDigit(digits[0]);
    assert s == "+" + digits ==> s[1..] == digits;
  }

  lemma ParseDecimal(n: nat)
    requires n < 0x1_0000_0000
    ensures ParseU32(Decimal(n)) == Some(n)
  {
    assert IsDigit(Decimal(n)[0]);
    ValueOfDecimal(n);
  }

  /** If the last digits of a text start further left on one side, they cover what ends the other. */
  lemma DigitsReachInto(a: string, x: string, b: string, y: string)
    requires a + x == b + y && |x| < |y| && AllDigits(y) && a != []
    ensures IsDigit(a[|a| - 1])
  {
    assert (b + y)[|a| - 1] == y[|a| - 1 - |b|];
  }

  /** A trailing run of digits after a non-digit can be cut off in one way only. */
  lemma DigitTailUnique(a: string, x: string, b: string, y: string)
    requires a + x == b + y && AllDigits(x) && AllDigits(y)
    requires a != [] && b != [] && !IsDigit(a[|a| - 1]) && !IsDigit(b[|b| - 1])
    ensures a == b && x == y
  {
    if |x| < |y| {
      DigitsReachInto(a, x, b, y);
    } else if |y| < |x| {
      DigitsReachInto(b, y, a, x);
    } else {
      assert a == (a + x)[..|a|] && b == (b + y)[..|b|];
      assert x == (a + x)[|a|..] && y == (b + y)[|b|..];
    }
  }

  lemma SuffixUnique(a: string, b: string, t: string)
    requires a + t == b + t
    ensures a == b
  {
    assert a == (a + t)[..|a|] && b == (b + t)[..|b|];
  }
}
