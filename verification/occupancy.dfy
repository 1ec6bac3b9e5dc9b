/** Occupied rows and columns of a capture: their span, and the longest void between them. */
module Occupancy {
  import opened Samples
  import opened Sequences

  // ---------------------------------------------------------------------------------------------
  // Span

  /** `[index for index, value in enumerate(values) if value]`. */
  function TrueIndices(values: seq<bool>): (indices: seq<nat>)
    ensures forall k :: 0 <= k < |indices| ==> indices[k] < |values| && values[indices[k]]
  {
    if values == [] then []
    else
      var n := |values| - 1;
      TrueIndices(values[..n]) + if values[n] then [n] else []
  }

  lemma {:induction false} IndicesComplete(values: seq<bool>, i: nat)
    requires i < |values| && values[i]
    ensures var indices := TrueIndices(values); indices != [] && indices[0] <= i <= indices[|indices| - 1]
  {
    var n := |values| - 1;
    if i < n {
      IndicesComplete(values[..n], i);
    } else if TrueIndices(values[..n]) != [] {
      assert TrueIndices(values[..n])[0] < n;
    }
  }

  /** `last - first + 1` over the occupied positions, 0 if there are none. */
  function Span(values: seq<bool>): (span: nat)
    ensures span <= |values|
  {
    var indices := TrueIndices(values);
    if indices == [] then 0
    else
      IndicesComplete(values, indices[0]);
      indices[|indices| - 1] - indices[0] + 1
  }

  /** The span is fixed by any pair of occupied positions with nothing occupied outside them. */
  lemma SpanBetween(values: seq<bool>, first: nat, last: nat)
    requires first <= last < |values| && values[first] && values[last]
    requires forall i :: 0 <= i < |values| && values[i] ==> first <= i <= last
    ensures Span(values) == last - first + 1
  {
    IndicesComplete(values, first);
    IndicesComplete(values, last);
  }

  lemma SpanEmpty(values: seq<bool>)
    ensures Span(values) == 0 <==> forall i :: 0 <= i < |values| ==> !values[i]
  {
    var indices := TrueIndices(values);
    if indices != [] {
      IndicesComplete(values, indices[0]);
    }
    forall i | 0 <= i < |values| && values[i]
      ensures indices != []
    {
      IndicesComplete(values, i);
    }
  }

  lemma SpanEnds(values: seq<bool>) returns (first: nat, last: nat)
    requires Span(values) > 0
    ensures first <= last < |values| && values[first] && values[last] && Span(values) == last - first + 1
    ensures forall i :: 0 <= i < |values| && values[i] ==> first <= i <= last
  {
    var indices := TrueIndices(values);
    first, last := indices[0], indices[|indices| - 1];
    IndicesComplete(values, first);
    forall i | 0 <= i < |values| && values[i]
      ensures first <= i <= last
    {
      IndicesComplete(values, i);
    }
  }

  lemma SpanReverse(values: seq<bool>)
    ensures Span(Reverse(values)) == Span(values)
  {
    var reversed, n := Reverse(values), |values|;
    SpanEmpty(values);
    SpanEmpty(reversed);
    if Span(values) == 0 {
      assert forall i :: 0 <= i < n ==> !reversed[i];
    } else {
      var first, last := SpanEnds(values);
      assert reversed[n - 1 - last] && reversed[n - 1 - first];
      SpanBetween(reversed, n - 1 - last, n - 1 - first);
    }
  }

  // ---------------------------------------------------------------------------------------------
  // Longest void

  /** The `n` positions from `lo` on are unoccupied. */
  predicate IsVoid(values: seq<bool>, lo: nat, n: nat) {
    lo + n <= |values| && forall i :: lo <= i < lo + n ==> !values[i]
  }

  /** `n` is the length of the longest window of unoccupied positions. */
  ghost predicate IsLongestFalseRun(values: seq<bool>, n: nat) {
    (exists lo: nat :: IsVoid(values, lo, n)) && forall lo: nat, m: nat :: IsVoid(values, lo, m) ==> m <= n
  }

  lemma LongestFalseRunUnique(values: seq<bool>, m: nat, n: nat)
    requires IsLongestFalseRun(values, m) && IsLongestFalseRun(values, n)
    ensures m == n
  {
    var a: nat :| IsVoid(values, a, m);
    var b: nat :| IsVoid(values, b, n);
  }

  /** The unoccupied positions at the end of `values`. */
  function FinalFalseRun(values: seq<bool>): (n: nat)
    ensures n <= |values| && IsVoid(values, |values| - n, n)
    ensures n < |values| ==> values[|values| - n - 1]
  {
    if values == [] || values[|values| - 1] then 0 else 1 + FinalFalseRun(values[..|values| - 1])
  }

  function LongestFalseRun(values: seq<bool>): nat {
    if values == [] then 0 else Max(LongestFalseRun(values[..|values| - 1]), FinalFalseRun(values))
  }

  lemma {:induction false} LongestFalseRunIsLongest(values: seq<bool>)
    ensures IsLongestFalseRun(values, LongestFalseRun(values))
  {
    if values == [] {
      assert IsVoid(values, 0, 0);
    } else {
      var n := |values| - 1;
      var shorter := values[..n];
      LongestFalseRunIsLongest(shorter);
      var longest, final := LongestFalseRun(shorter), FinalFalseRun(values);
      var at: nat :| IsVoid(shorter, at, longest);
      assert IsVoid(values, at, longest) && IsVoid(values, n + 1 - final, final);
      forall lo: nat, m: nat | IsVoid(values, lo, m)
        ensures m <= LongestFalseRun(values)
      {
        if lo + m <= n {
          assert IsVoid(shorter, lo, m);
        } else if final <= n {
          assert values[n - final];
        }
      }
    }
  }

  /** The longest window has this length and no other. */
  lemma LongestFalseRunExactly(values: seq<bool>, n: nat)
    ensures IsLongestFalseRun(values, n) <==> n == LongestFalseRun(values)
  {
    LongestFalseRunIsLongest(values);
    if IsLongestFalseRun(values, n) {
      LongestFalseRunUnique(values, n, LongestFalseRun(values));
    }
  }

  /** The analyser's loop. */
  method ComputeLongestFalseRun(values: seq<bool>) returns (longest: nat)
    ensures longest == LongestFalseRun(values)
    ensures forall n: nat :: IsLongestFalseRun(values, n) <==> n == longest
  {
    longest := 0;
    var current := 0;
    for k := 0 to |values|
      invariant longest == LongestFalseRun(values[..k])
      invariant current == FinalFalseRun(values[..k])
    {
      assert values[..k + 1][..k] == values[..k];
      current := if values[k] then 0 else current + 1;
      longest := Max(longest, current);
    }
    assert values[..|values|] == values;
    forall n: nat
      ensures IsLongestFalseRun(values, n) <==> n == longest
    {
      LongestFalseRunExactly(values, n);
    }
  }

  /** A void and the occupied positions fit side by side. */
  lemma VoidAndOccupied(values: seq<bool>)
    ensures LongestFalseRun(values) + Count(value => value, values) <= |values|
  {
    LongestFalseRunIsLongest(values);
    var n := LongestFalseRun(values);
    var lo: nat :| IsVoid(values, lo, n);
    OccupiedOutsideVoid(value => value, values, lo, n);
  }

  lemma OccupiedOutsideVoid(occupied: bool -> bool, values: seq<bool>, lo: nat, n: nat)
    requires IsVoid(values, lo, n) && !occupied(false)
    ensures n + Count(occupied, values) <= |values|
  {
    var before, void, after := values[..lo], values[lo..lo + n], values[lo + n..];
    assert values == before + void + after;
    forall i | 0 <= i < |void|
      ensures !void[i]
    {
      assert void[i] == values[lo + i];
    }
    CountAppend(occupied, before + void, after);
    CountAppend(occupied, before, void);
    CountBound(occupied, before);
    CountBound(occupied, after);
    CountAll(occupied, void, false);
  }

  /** What lies outside the span is two voids, so two longest voids and the span cover everything. */
  lemma VoidAndSpan(values: seq<bool>)
    ensures 2 * LongestFalseRun(values) + Span(values) >= |values|
  {
    LongestFalseRunIsLongest(values);
    SpanEmpty(values);
    if Span(values) == 0 {
      assert IsVoid(values, 0, |values|);
    } else {
      var first, last := SpanEnds(values);
      assert IsVoid(values, 0, first);
      assert IsVoid(values, last + 1, |values| - last - 1);
    }
  }
}
