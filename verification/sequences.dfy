/** Reversing sequences, and counting in them. */
module Sequences {
  function Reverse<T>(s: seq<T>): (r: seq<T>)
    ensures |r| == |s|
    ensures forall i :: 0 <= i < |s| ==> r[i] == s[|s| - 1 - i]
  {
    seq(|s|, i requires 0 <= i < |s| => s[|s| - 1 - i])
  }

  lemma ReverseCons<T>(s: seq<T>)
    requires s != []
    ensures Reverse(s) == Reverse(s[1..]) + [s[0]]
  {
  }

  // ---------------------------------------------------------------------------------------------
  // Counts

  /** `sum(p(x) for x in s)`. */
  function Count<T>(p: T -> bool, s: seq<T>): nat {
    if s == [] then 0 else (if p(s[0]) then 1 else 0) + Count(p, s[1..])
  }

  lemma {:induction false} CountAppend<T>(p: T -> bool, a: seq<T>, b: seq<T>)
    ensures Count(p, a + b) == Count(p, a) + Count(p, b)
  {
    if a == [] {
      assert a + b == b;
    } else {
      assert (a + b)[1..] == a[1..] + b;
      CountAppend(p, a[1..], b);
    }
  }

  lemma {:induction false} CountReverse<T>(p: T -> bool, s: seq<T>)
    ensures Count(p, Reverse(s)) == Count(p, s)
  {
    if s == [] {
      assert Reverse(s) == s;
    } else {
      ReverseCons(s);
      CountReverse(p, s[1..]);
      CountAppend(p, Reverse(s[1..]), [s[0]]);
      assert Count(p, [s[0]]) == if p(s[0]) then 1 else 0;
    }
  }

  /** Two counts of things that cannot hold together fit into the length. */
  lemma {:induction false} CountDisjoint<T>(p: T -> bool, q: T -> bool, s: seq<T>)
    requires forall i :: 0 <= i < |s| ==> !(p(s[i]) && q(s[i]))
    ensures Count(p, s) + Count(q, s) <= |s|
  {
    if s != [] {
      assert forall i :: 0 <= i < |s[1..]| ==> s[1..][i] == s[i + 1];
      CountDisjoint(p, q, s[1..]);
    }
  }

  lemma CountBound<T>(p: T -> bool, s: seq<T>)
    ensures Count(p, s) <= |s|
  {
    CountDisjoint(p, x => false, s);
  }

  lemma {:induction false} CountAll<T>(p: T -> bool, s: seq<T>, b: bool)
    requires forall i :: 0 <= i < |s| ==> p(s[i]) == b
    ensures Count(p, s) == if b then |s| else 0
  {
    if s != [] {
      assert forall i :: 0 <= i < |s[1..]| ==> s[1..][i] == s[i + 1];
      CountAll(p, s[1..], b);
    }
  }

  lemma CountSnoc<T>(p: T -> bool, s: seq<T>, n: nat)
    requires n < |s|
    ensures Count(p, s[..n + 1]) == Count(p, s[..n]) + if p(s[n]) then 1 else 0
  {
    assert s[..n + 1] == s[..n] + [s[n]];
    CountAppend(p, s[..n], [s[n]]);
    assert Count(p, [s[n]]) == if p(s[n]) then 1 else 0;
  }

  /** Counting is the size of the set of positions. */
  lemma {:induction false} CountIsSize<T>(p: T -> bool, s: seq<T>)
    ensures Count(p, s) == |set i | 0 <= i < |s| && p(s[i])|
  {
    if s != [] {
      var n := |s| - 1;
      var front := s[..n];
      CountIsSize(p, front);
      CountSnoc(p, s, n);
      assert s[..n + 1] == s;
      var all, fewer := set i | 0 <= i < |s| && p(s[i]), set i | 0 <= i < |front| && p(front[i]);
      assert all == fewer + if p(s[n]) then {n} else {};
    }
  }
}
