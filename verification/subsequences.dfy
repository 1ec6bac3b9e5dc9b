/** Order-preserving sublists. */
module Subsequences {
  predicate IsSubsequence<T(==)>(a: seq<T>, b: seq<T>) {
    if a == [] then true
    else if b == [] then false
    else (a[0] == b[0] && IsSubsequence(a[1..], b[1..])) || IsSubsequence(a, b[1..])
  }

  lemma {:induction false} SubsequenceOfSelf<T>(a: seq<T>)
    ensures IsSubsequence(a, a)
  {
    if a != [] {
      SubsequenceOfSelf(a[1..]);
    }
  }

  lemma {:induction false} SubsequenceAppend<T>(a: seq<T>, b: seq<T>, c: seq<T>, d: seq<T>)
    requires IsSubsequence(a, b) && IsSubsequence(c, d)
    ensures IsSubsequence(a + c, b + d)
    decreases |b|
  {
    if b == [] {
      assert a + c == c && b + d == d;
    } else {
      assert (b + d)[0] == b[0] && (b + d)[1..] == b[1..] + d;
      if a == [] {
        SubsequenceAppend(a, b[1..], c, d);
        SubsequenceCons(a + c, b + d);
      } else {
        assert (a + c)[0] == a[0] && (a + c)[1..] == a[1..] + c;
        if a[0] == b[0] && IsSubsequence(a[1..], b[1..]) {
          SubsequenceAppend(a[1..], b[1..], c, d);
        } else {
          SubsequenceAppend(a, b[1..], c, d);
        }
      }
    }
  }

  lemma SubsequenceCons<T>(a: seq<T>, b: seq<T>)
    requires b != [] && IsSubsequence(a, b[1..])
    ensures IsSubsequence(a, b)
  {
  }

  /** A sublist is found at increasing positions. */
  lemma {:induction false} SubsequencePositions<T>(a: seq<T>, b: seq<T>) returns (at: seq<nat>)
    requires IsSubsequence(a, b)
    ensures |at| == |a| && forall i :: 0 <= i < |at| ==> at[i] < |b| && b[at[i]] == a[i]
    ensures forall i, j :: 0 <= i < j < |at| ==> at[i] < at[j]
    decreases |b|
  {
    at := [];
    if a != [] {
      if a[0] == b[0] && IsSubsequence(a[1..], b[1..]) {
        var rest := SubsequencePositions(a[1..], b[1..]);
        at := [0] + Shifted(rest);
      } else {
        var rest := SubsequencePositions(a, b[1..]);
        at := Shifted(rest);
      }
    }
  }

  function Shifted(at: seq<nat>): (r: seq<nat>)
    ensures |r| == |at| && forall i :: 0 <= i < |at| ==> r[i] == at[i] + 1
  {
    seq(|at|, i requires 0 <= i < |at| => at[i] + 1)
  }
}
