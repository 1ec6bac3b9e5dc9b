/** Shares, sums and sampled positions, as the capture analyser uses them. */
module Samples {
  import opened Sequences

  function Min(a: int, b: int): int {
    if a <= b then a else b
  }

  function Max(a: int, b: int): int {
    if a >= b then a else b
  }

  // ---------------------------------------------------------------------------------------------
  // Shares

  /** `count / n`, a share of `n` things. */
  function Ratio(count: nat, n: nat): real
    requires 0 < n
  {
    count as real / n as real
  }

  lemma RatioUnit(count: nat, n: nat)
    requires 0 < n && count <= n
    ensures 0.0 <= Ratio(count, n) <= 1.0
  {
    var c, m := count as real, n as real;
    assert c <= m && 0.0 <= c;
    assert (c / m) * m == c;
  }

  // ---------------------------------------------------------------------------------------------
  // Sums

  function Sum(s: seq<real>): real {
    if s == [] then 0.0 else s[0] + Sum(s[1..])
  }

  lemma {:induction false} SumAppend(a: seq<real>, b: seq<real>)
    ensures Sum(a + b) == Sum(a) + Sum(b)
  {
    if a == [] {
      assert a + b == b;
    } else {
      assert (a + b)[1..] == a[1..] + b;
      SumAppend(a[1..], b);
    }
  }

  lemma {:induction false} SumReverse(s: seq<real>)
    ensures Sum(Reverse(s)) == Sum(s)
  {
    if s == [] {
      assert Reverse(s) == s;
    } else {
      ReverseCons(s);
      SumReverse(s[1..]);
      SumAppend(Reverse(s[1..]), [s[0]]);
      assert Sum([s[0]]) == s[0];
    }
  }

  lemma {:induction false} SumNonNegative(s: seq<real>)
    requires forall i :: 0 <= i < |s| ==> s[i] >= 0.0
    ensures Sum(s) >= 0.0
  {
    if s != [] {
      assert forall i :: 0 <= i < |s[1..]| ==> s[1..][i] == s[i + 1];
      SumNonNegative(s[1..]);
    }
  }

  // ---------------------------------------------------------------------------------------------
  // Sampled positions

  /** `len(range(lo, hi, step))`. */
  function SampleCount(lo: nat, hi: nat, step: nat): nat
    requires 0 < step
  {
    if hi <= lo then 0 else (hi - lo - 1) / step + 1
  }

  /** The positions `lo + k * step` of a range are those below `hi`. */
  lemma SampleInRange(lo: nat, hi: nat, step: nat, k: nat)
    requires 0 < step
    ensures k < SampleCount(lo, hi, step) <==> lo + k * step < hi
  {
    if lo < hi {
      var n := hi - lo - 1;
      var q, r := n / step, n % step;
      assert n == q * step + r && 0 <= r < step;
      assert (q + 1) * step == q * step + step;
      MulMonotone(k, q, step);
      MulMonotone(q + 1, k, step);
    } else {
      MulMonotone(0, k, step);
    }
  }

  /** The stride that takes about `target` samples from `extent`. */
  function Stride(extent: nat, target: nat): (step: nat)
    requires 0 < target
    ensures 0 < step
  {
    Max(1, extent / target)
  }

  lemma MulMonotone(a: int, b: int, c: nat)
    ensures a <= b ==> a * c <= b * c
  {
  }

  lemma QuotientUnique(n: nat, d: nat, q: nat, r: nat)
    requires 0 < d && n == q * d + r && r < d
    ensures n / d == q
  {
    var q', r' := n / d, n % d;
    assert n == q' * d + r';
    MulMonotone(q' + 1, q, d);
    MulMonotone(q + 1, q', d);
    assert (q' + 1) * d == q' * d + d && (q + 1) * d == q * d + d;
  }

  /** Below twice the target every position is sampled; from the target on, between one and two times the target. */
  lemma StrideSamples(lo: nat, hi: nat, target: nat)
    requires 0 < target && lo < hi
    ensures var n := SampleCount(lo, hi, Stride(hi - lo, target));
            && (hi - lo < 2 * target ==> n == hi - lo)
            && (target <= hi - lo ==> target <= n < 2 * target)
  {
    var extent := hi - lo;
    var q, r := extent / target, extent % target;
    assert extent == q * target + r && 0 <= r < target;
    if extent < 2 * target {
      MulMonotone(2, q, target);
      assert (extent - 1) / 1 == extent - 1;
    } else {
      MulMonotone(q, 1, target);
      StrideCount(lo, hi, target, q, r);
    }
  }

  lemma StrideCount(lo: nat, hi: nat, target: nat, q: nat, r: nat)
    requires 0 < target && lo < hi && hi - lo == q * target + r && r < target && 0 < q
    ensures target <= SampleCount(lo, hi, q) < 2 * target
  {
    SampleInRange(lo, hi, q, target - 1);
    assert (target - 1) * q == q * target - q;
    SampleInRange(lo, hi, q, 2 * target - 1);
    assert (2 * target - 1) * q == q * target + (target - 1) * q;
    MulMonotone(1, q, target - 1);
  }
}
