/** Lists of strings after `sort()` and `dedup()`: strictly sorted, and determined by their elements. */
module CanonicalLists {

  /** String order: by code point, which is byte order in UTF-8. */
  predicate Less(a: string, b: string) {
    if b == "" then false
    else if a == "" then true
    else a[0] < b[0] || (a[0] == b[0] && Less(a[1..], b[1..]))
  }

  lemma {:induction false} LessTrichotomy(a: string, b: string)
    ensures || (a == b && !Less(a, b) && !Less(b, a))
            || (a != b && Less(a, b) && !Less(b, a))
            || (a != b && !Less(a, b) && Less(b, a))
  {
    if a != "" && b != "" {
      LessTrichotomy(a[1..], b[1..]);
      assert a == [a[0]] + a[1..] && b == [b[0]] + b[1..];
    }
  }

  lemma {:induction false} LessTransitive(a: string, b: string, c: string)
    requires Less(a, b) && Less(b, c)
    ensures Less(a, c)
  {
    if a != "" && a[0] == b[0] && b[0] == c[0] {
      LessTransitive(a[1..], b[1..], c[1..]);
    }
  }

  /** The texts differ first at `i`, where `a` ends or has the smaller character. */
  predicate FirstSmaller(a: string, b: string, i: nat) {
    i <= |a| && i < |b| && a[..i] == b[..i] && (i == |a| || a[i] < b[i])
  }

  /** Dictionary order. */
  lemma {:induction false} LessExactly(a: string, b: string)
    ensures Less(a, b) <==> exists i: nat :: FirstSmaller(a, b, i)
  {
    if b != "" {
      if a == "" || a[0] < b[0] {
        assert FirstSmaller(a, b, 0);
      } else {
        LessExactly(a[1..], b[1..]);
        if Less(a, b) {
          var i: nat :| FirstSmaller(a[1..], b[1..], i);
          assert a[..i + 1] == [a[0]] + a[1..][..i] && b[..i + 1] == [b[0]] + b[1..][..i];
          assert FirstSmaller(a, b, i + 1);
        }
        forall i: nat | FirstSmaller(a, b, i)
          ensures Less(a, b)
        {
          SmallerTail(a, b, i);
        }
      }
    }
  }

  lemma SmallerTail(a: string, b: string, i: nat)
    requires FirstSmaller(a, b, i) && a != "" && a[0] >= b[0]
    ensures i > 0 && a[0] == b[0] && FirstSmaller(a[1..], b[1..], i - 1)
  {
    assert i > 0;
    assert a[..i][0] == b[..i][0];
    assert a[1..][..i - 1] == a[..i][1..] && b[1..][..i - 1] == b[..i][1..];
  }

  /** `a <= b`. */
  predicate AtMost(a: string, b: string) {
    a == b || Less(a, b)
  }

  predicate Sorted(s: seq<string>) {
    forall i, j :: 0 <= i < j < |s| ==> AtMost(s[i], s[j])
  }

  predicate StrictlySorted(s: seq<string>) {
    forall i, j :: 0 <= i < j < |s| ==> Less(s[i], s[j])
  }

  function Elements(s: seq<string>): set<string> {
    set x | x in s
  }

  // ---------------------------------------------------------------------------------------------
  // Sorting

  function Insert(x: string, s: seq<string>): (r: seq<string>)
    ensures multiset(r) == multiset(s) + multiset{x}
  {
    if s == [] || AtMost(x, s[0]) then [x] + s
    else
      assert s == [s[0]] + s[1..];
      [s[0]] + Insert(x, s[1..])
  }

  lemma SortedCons(x: string, s: seq<string>)
    requires Sorted(s) && forall y :: y in s ==> AtMost(x, y)
    ensures Sorted([x] + s)
  {
    var r := [x] + s;
    forall i, j | 0 <= i < j < |r|
      ensures AtMost(r[i], r[j])
    {
      assert r[j] == s[j - 1] && s[j - 1] in s;
      if i > 0 {
        assert r[i] == s[i - 1];
      }
    }
  }

  lemma AtMostAll(x: string, s: seq<string>)
    requires s != [] && Sorted(s) && AtMost(x, s[0])
    ensures forall y :: y in s ==> AtMost(x, y)
  {
    forall y | y in s
      ensures AtMost(x, y)
    {
      var i :| 0 <= i < |s| && s[i] == y;
      if i > 0 {
        assert AtMost(s[0], s[i]);
        if Less(x, s[0]) && Less(s[0], y) {
          LessTransitive(x, s[0], y);
        }
      }
    }
  }

  lemma {:induction false} InsertSorted(x: string, s: seq<string>)
    requires Sorted(s)
    ensures Sorted(Insert(x, s))
  {
    if s == [] {
    } else if AtMost(x, s[0]) {
      AtMostAll(x, s);
      SortedCons(x, s);
    } else {
      var tail := Insert(x, s[1..]);
      InsertSorted(x, s[1..]);
      LessTrichotomy(x, s[0]);
      forall y | y in tail
        ensures AtMost(s[0], y)
      {
        assert y in multiset(tail) && multiset(tail) == multiset(s[1..]) + multiset{x};
        if y != x {
          assert y in multiset(s[1..]);
          var i :| 0 <= i < |s[1..]| && s[1..][i] == y;
          assert AtMost(s[0], s[i + 1]);
        }
      }
      SortedCons(s[0], tail);
    }
  }

  /** `sort()`. */
  function Sort(s: seq<string>): (r: seq<string>)
    ensures multiset(r) == multiset(s)
  {
    if s == [] then []
    else
      assert s == [s[0]] + s[1..];
      Insert(s[0], Sort(s[1..]))
  }

  lemma {:induction false} SortSorts(s: seq<string>)
    ensures Sorted(Sort(s))
  {
    if s != [] {
      SortSorts(s[1..]);
      InsertSorted(s[0], Sort(s[1..]));
    }
  }

  // ---------------------------------------------------------------------------------------------
  // Removing repeats

  /** `dedup()`: drops an element equal to the one before it. */
  function Dedup(s: seq<string>): (r: seq<string>)
    ensures forall x :: x in r <==> x in s
    ensures s != [] ==> r != [] && r[|r| - 1] == s[|s| - 1]
  {
    if |s| <= 1 then s
    else
      var n := |s| - 1;
      assert s == s[..n] + [s[n]];
      if s[n] == s[n - 1] then Dedup(s[..n]) else Dedup(s[..n]) + [s[n]]
  }

  lemma {:induction false} DedupStrict(s: seq<string>)
    requires Sorted(s)
    ensures StrictlySorted(Dedup(s))
  {
    if |s| > 1 {
      var n := |s| - 1;
      DedupStrict(s[..n]);
      if s[n] != s[n - 1] {
        var shorter := Dedup(s[..n]);
        forall i | 0 <= i < |shorter|
          ensures Less(shorter[i], s[n])
        {
          BelowLast(s, shorter[i]);
        }
      }
    }
  }

  lemma BelowLast(s: seq<string>, x: string)
    requires Sorted(s) && |s| > 1 && s[|s| - 1] != s[|s| - 2] && x in s[..|s| - 1]
    ensures Less(x, s[|s| - 1])
  {
    var n := |s| - 1;
    var i :| 0 <= i < n && s[..n][i] == x;
    assert AtMost(s[n - 1], s[n]) && (i < n - 1 ==> AtMost(s[i], s[n - 1]));
    if Less(x, s[n - 1]) {
      LessTransitive(x, s[n - 1], s[n]);
    }
  }

  /** `sort()` and `dedup()`. */
  function Canonical(s: seq<string>): seq<string> {
    Dedup(Sort(s))
  }

  lemma CanonicalIsCanonical(s: seq<string>)
    ensures StrictlySorted(Canonical(s)) && Elements(Canonical(s)) == Elements(s)
  {
    SortSorts(s);
    DedupStrict(Sort(s));
    assert forall x :: x in Sort(s) <==> x in multiset(Sort(s));
    assert forall x :: x in s <==> x in multiset(s);
  }

  /** A strictly sorted list is determined by its elements. */
  lemma {:induction false} StrictlySortedUnique(a: seq<string>, b: seq<string>)
    requires StrictlySorted(a) && StrictlySorted(b) && Elements(a) == Elements(b)
    ensures a == b
  {
    NoElements(a);
    NoElements(b);
    if a != [] {
      FirstIsLeast(a, b);
      FirstIsLeast(b, a);
      LessTrichotomy(a[0], b[0]);
      TailElements(a);
      TailElements(b);
      StrictlySortedUnique(a[1..], b[1..]);
      assert a == [a[0]] + a[1..] && b == [b[0]] + b[1..];
    }
  }

  lemma NoElements(s: seq<string>)
    ensures Elements(s) == {} <==> s == []
  {
    assert s != [] ==> s[0] in Elements(s);
  }

  lemma FirstIsLeast(a: seq<string>, b: seq<string>)
    requires StrictlySorted(a) && a != [] && b != [] && Elements(a) == Elements(b)
    ensures AtMost(a[0], b[0])
  {
    assert b[0] in Elements(b);
    var i :| 0 <= i < |a| && a[i] == b[0];
    assert i == 0 || Less(a[0], a[i]);
  }

  lemma TailElements(a: seq<string>)
    requires StrictlySorted(a) && a != []
    ensures StrictlySorted(a[1..]) && Elements(a[1..]) == Elements(a) - {a[0]}
  {
    assert a == [a[0]] + a[1..];
    forall x | x in a[1..]
      ensures x != a[0]
    {
      var i :| 0 <= i < |a| - 1 && a[1..][i] == x;
      assert Less(a[0], a[i + 1]);
      LessTrichotomy(a[0], x);
    }
  }

  /** Lists with the same elements have the same canonical form. */
  lemma CanonicalSame(a: seq<string>, b: seq<string>)
    requires Elements(a) == Elements(b)
    ensures Canonical(a) == Canonical(b)
  {
    CanonicalIsCanonical(a);
    CanonicalIsCanonical(b);
    StrictlySortedUnique(Canonical(a), Canonical(b));
  }
}
