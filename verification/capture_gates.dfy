/** The report on a capture in terms of its pixels, in whole numbers only. */
module CaptureGates {
  import opened CaptureAnalysis
  import opened CaptureProperties
  import opened Occupancy
  import opened Outcomes
  import opened PngReader
  import opened Samples
  import opened Sequences

  // ---------------------------------------------------------------------------------------------
  // Pixels

  /** Ten thousand times the luminance. */
  function Light(p: Pixel): int {
    2126 * p.red as int + 7152 * p.green as int + 722 * p.blue as int
  }

  predicate IsBright(p: Pixel) {
    Light(p) >= 280000
  }

  predicate IsDim(p: Pixel) {
    Light(p) < 180000
  }

  predicate IsCyan(p: Pixel) {
    4 * p.blue as int > 5 * p.red as int && 4 * p.green as int > 5 * p.red as int && p.blue > 55
  }

  lemma PixelTests(p: Pixel)
    ensures Active(p) == IsBright(p) && Dark(p) == IsDim(p) && Accent(p) == IsCyan(p)
  {
    var r, g, b := p.red as int, p.green as int, p.blue as int;
    assert Light(p) as real == 2126.0 * r as real + 7152.0 * g as real + 722.0 * b as real;
    assert 10000.0 * Luminance(p) == Light(p) as real;
    assert b as real > r as real * 1.25 <==> 4 * b > 5 * r;
    assert g as real > r as real * 1.25 <==> 4 * g > 5 * r;
  }

  lemma {:induction false} CountSame<T>(p: T -> bool, q: T -> bool, s: seq<T>)
    requires forall x :: p(x) == q(x)
    ensures Count(p, s) == Count(q, s)
  {
    if s != [] {
      CountSame(p, q, s[1..]);
    }
  }

  lemma PixelCounts(s: seq<Pixel>)
    ensures Count(Active, s) == Count(IsBright, s)
    ensures Count(Dark, s) == Count(IsDim, s)
    ensures Count(Accent, s) == Count(IsCyan, s)
  {
    forall p: Pixel
      ensures Active(p) == IsBright(p) && Dark(p) == IsDim(p) && Accent(p) == IsCyan(p)
    {
      PixelTests(p);
    }
    CountSame(Active, IsBright, s);
    CountSame(Dark, IsDim, s);
    CountSame(Accent, IsCyan, s);
  }

  // ---------------------------------------------------------------------------------------------
  // Shares

  lemma QuotientCompare(a: real, b: real, c: real)
    requires b > 0.0
    ensures a / b >= c <==> a >= c * b
    ensures a / b > c <==> a > c * b
  {
    var q := a / b;
    assert q * b == a;
    Scaled(q, c, b);
  }

  lemma Scaled(q: real, c: real, b: real)
    requires b > 0.0
    ensures q >= c <==> q * b >= c * b
    ensures q > c <==> q * b > c * b
    ensures q == c <==> q * b == c * b
  {
    assert (q - c) * b == q * b - c * b;
    Signs(q - c, b);
  }

  lemma Signs(d: real, b: real)
    requires b > 0.0
    ensures d >= 0.0 <==> d * b >= 0.0
    ensures d > 0.0 <==> d * b > 0.0
  {
  }

  /** A share of at least, or of more than, `p` in `q`. */
  lemma ShareCompare(a: nat, n: nat, p: nat, q: nat, c: real)
    requires 0 < n && 0 < q && c * q as real == p as real
    ensures Ratio(a, n) >= c <==> q * a >= p * n
    ensures Ratio(a, n) > c <==> q * a > p * n
  {
    var x, m, y := a as real, n as real, q as real;
    QuotientCompare(x, m, c);
    Scaled(x, c * m, y);
    assert x * y == (q * a) as real;
    assert (c * m) * y == (c * y) * m == (p * n) as real;
  }

  /** `x` is the multiple of 0.0001 nearest to `a / n`, and of two the even one. */
  ghost predicate Shows(x: real, a: nat, n: nat) {
    exists k: int ::
      && x == k as real / 10000.0
      && (2 * k - 1) * n <= 20000 * a <= (2 * k + 1) * n
      && (20000 * a == (2 * k - 1) * n || 20000 * a == (2 * k + 1) * n ==> k % 2 == 0)
  }

  lemma ShownShare(a: nat, n: nat)
    requires 0 < n
    ensures Shows(Round4(Ratio(a, n)), a, n)
  {
    var x := Ratio(a, n);
    var k := RoundNearest(x);
    var y, low, high := x * 10000.0, k as real - 0.5, k as real + 0.5;
    var l, h := (2 * k - 1) * n, (2 * k + 1) * n;
    var ym, lm, hm := Products(a, n, k, l, h, y, low, high);
    ShownBounds(k, a, n, l, h, y, low, high, ym, lm, hm, Round4(x));
  }

  lemma Products(a: nat, n: nat, k: int, l: int, h: int, y: real, low: real, high: real)
    returns (ym: real, lm: real, hm: real)
    requires 0 < n && y == Ratio(a, n) * 10000.0 && low == k as real - 0.5 && high == k as real + 0.5
    requires l == (2 * k - 1) * n && h == (2 * k + 1) * n
    ensures (y >= low <==> ym >= lm) && (y == low <==> ym == lm)
    ensures (high >= y <==> hm >= ym) && (high == y <==> hm == ym)
    ensures ym == 10000.0 * a as real && 2.0 * lm == l as real && 2.0 * hm == h as real
  {
    var m := n as real;
    ym, lm, hm := y * m, low * m, high * m;
    ScaledTo(y, low, m, ym, lm);
    ScaledTo(high, y, m, hm, ym);
    TenThousandfold(a, n, y, ym);
    Halves(k, n, l, h, lm, hm);
  }

  lemma TenThousandfold(a: nat, n: nat, y: real, ym: real)
    requires 0 < n && y == Ratio(a, n) * 10000.0 && ym == y * n as real
    ensures ym == 10000.0 * a as real
  {
    var x, m := Ratio(a, n), n as real;
    assert x * m == a as real;
    assert (x * 10000.0) * m == 10000.0 * (x * m);
  }

  lemma ShownBounds(k: int, a: nat, n: nat, l: int, h: int, y: real, low: real, high: real, ym: real, lm: real,
                    hm: real, shown: real)
    requires l == (2 * k - 1) * n && h == (2 * k + 1) * n && shown == k as real / 10000.0
    requires (y >= low <==> ym >= lm) && (y == low <==> ym == lm)
    requires (high >= y <==> hm >= ym) && (high == y <==> hm == ym)
    requires low <= y <= high && (y == low || y == high ==> k % 2 == 0)
    requires ym == 10000.0 * a as real && 2.0 * lm == l as real && 2.0 * hm == h as real
    ensures Shows(shown, a, n)
  {
    Doubled(ym, lm, hm, a, l, h);
  }

  lemma Doubled(y: real, low: real, high: real, a: nat, l: int, h: int)
    requires low <= y <= high && y == 10000.0 * a as real && 2.0 * low == l as real && 2.0 * high == h as real
    ensures l <= 20000 * a <= h
    ensures 20000 * a == l <==> y == low
    ensures 20000 * a == h <==> y == high
  {
  }

  lemma ScaledTo(q: real, c: real, b: real, qb: real, cb: real)
    requires b > 0.0 && qb == q * b && cb == c * b
    ensures (q >= c <==> qb >= cb) && (q == c <==> qb == cb)
  {
    Scaled(q, c, b);
  }

  lemma Halves(k: int, n: nat, l: int, h: int, lm: real, hm: real)
    requires lm == (k as real - 0.5) * n as real && hm == (k as real + 0.5) * n as real
    requires l == (2 * k - 1) * n && h == (2 * k + 1) * n
    ensures 2.0 * lm == l as real && 2.0 * hm == h as real
  {
    assert ((2 * k - 1) * n) as real == (2 * k - 1) as real * n as real;
    assert ((2 * k + 1) * n) as real == (2 * k + 1) as real * n as real;
  }

  // ---------------------------------------------------------------------------------------------
  // What is sampled

  /** The titlebar: a twentieth of the height, but no more than 60. */
  predicate IsTop(height: nat, top: nat) {
    top <= 60 && 20 * top <= height && (top == 60 || height < 20 * (top + 1))
  }

  /** The step that takes `target` samples or more. */
  predicate IsStep(extent: nat, target: nat, step: nat) {
    if extent < target then step == 1 else step * target <= extent < (step + 1) * target
  }

  lemma TopIs(height: nat, top: nat)
    requires IsTop(height, top)
    ensures top == Top(height)
  {
  }

  lemma StepIs(extent: nat, target: nat, step: nat)
    requires 0 < target && IsStep(extent, target, step)
    ensures step == Stride(extent, target)
  {
    if extent >= target {
      assert (step + 1) * target == step * target + target;
      QuotientUnique(extent, target, step, extent - step * target);
      MulMonotone(step + 1, 1, target);
    }
  }

  predicate RowIsLit(pixels: seq<Pixel>, width: nat, y: nat) {
    && 0 <= y * width <= (y + 1) * width <= |pixels|
    && 1000 * Count(IsBright, pixels[y * width..(y + 1) * width]) > 35 * width
  }

  /** `lit` tells of the rows from `top` on, `step` apart, whether more than 3.5 percent of their pixels are bright. */
  ghost predicate RowsSeen(width: nat, height: nat, pixels: seq<Pixel>, top: nat, step: nat, lit: seq<bool>) {
    && (forall k: nat :: k < |lit| <==> top + k * step < height)
    && forall k: nat | k < |lit| :: lit[k] == RowIsLit(pixels, width, top + k * step)
  }

  /** How many of the first `cells` sampled pixels of column `x` are bright. */
  function ColumnLight(pixels: seq<Pixel>, width: nat, top: nat, step: nat, cells: nat, x: nat): nat {
    if cells == 0 then 0
    else
      var at := (top + (cells - 1) * step) * width + x;
      ColumnLight(pixels, width, top, step, cells - 1, x) + if 0 <= at < |pixels| && IsBright(pixels[at]) then 1 else 0
  }

  /** `light` tells of the columns `columnStep` apart how many of their `cells` sampled pixels are bright. */
  ghost predicate ColumnsSeen(width: nat, height: nat, pixels: seq<Pixel>, top: nat, step: nat, columnStep: nat,
                              cells: nat, light: seq<nat>)
  {
    && (forall j: nat :: j < cells <==> top + j * step < height)
    && (forall k: nat :: k < |light| <==> k * columnStep < width)
    && forall k: nat | k < |light| :: light[k] == ColumnLight(pixels, width, top, step, cells, k * columnStep)
  }

  // ---------------------------------------------------------------------------------------------
  // Rows

  lemma SampleCountIs(lo: nat, hi: nat, step: nat, n: nat)
    requires 0 < step && forall k: nat :: k < n <==> lo + k * step < hi
    ensures n == SampleCount(lo, hi, step)
  {
    var m := SampleCount(lo, hi, step);
    SampleInRange(lo, hi, step, n);
    SampleInRange(lo, hi, step, m);
    assert !(n < n) && !(m < m);
    assert m < n <==> lo + m * step < hi;
    assert n < n <==> lo + n * step < hi;
  }

  lemma RowShareLit(width: nat, height: nat, pixels: seq<Pixel>, y: nat)
    requires Matches(width, height, pixels) && y < height
    ensures RowShare(pixels, width, y) > 0.035 <==> RowIsLit(pixels, width, y)
  {
    RowIsSlice(pixels, width, height, y);
    PixelCounts(Row(pixels, width, y));
    ShareCompare(Count(Active, Row(pixels, width, y)), width, 35, 1000, 0.035);
  }

  lemma RowsSeenAre(width: nat, height: nat, pixels: seq<Pixel>, top: nat, step: nat, lit: seq<bool>)
    requires Matches(width, height, pixels) && top == Top(height) && step == Stride(height - top, 120)
    requires RowsSeen(width, height, pixels, top, step, lit)
    ensures lit == OccupiedRows(width, height, pixels)
  {
    SampleCountIs(top, height, step, |lit|);
    var occupied := OccupiedRows(width, height, pixels);
    forall k: nat | k < |lit|
      ensures lit[k] == occupied[k]
    {
      assert top + k * step < height;
      RowShareLit(width, height, pixels, top + k * step);
    }
  }

  // ---------------------------------------------------------------------------------------------
  // Columns

  lemma {:induction false} ColumnLightCounts(width: nat, height: nat, pixels: seq<Pixel>, top: nat, step: nat,
                                             cells: nat, x: nat, column: seq<Pixel>)
    requires Matches(width, height, pixels) && x < width && |column| == cells
    requires forall j: nat | j < cells :: top + j * step < height
    requires forall j: nat | j < cells :: column[j] == PixelAt(pixels, width, top + j * step, x)
    ensures ColumnLight(pixels, width, top, step, cells, x) == Count(IsBright, column)
  {
    if cells > 0 {
      var n := cells - 1;
      ColumnLightCounts(width, height, pixels, top, step, n, x, column[..n]);
      CountSnoc(IsBright, column, n);
      assert column[..n + 1] == column;
      var y := top + n * step;
      assert y < height && column[n] == PixelAt(pixels, width, y, x);
      LightAt(width, height, pixels, y, x);
      LightStep(pixels, width, top, step, cells, n, x, y, y * width + x);
    }
  }

  lemma LightStep(pixels: seq<Pixel>, width: nat, top: nat, step: nat, cells: nat, n: nat, x: nat, y: nat, at: nat)
    requires cells == n + 1 && y == top + n * step && at == y * width + x && at < |pixels|
    ensures ColumnLight(pixels, width, top, step, cells, x)
            == ColumnLight(pixels, width, top, step, n, x) + if IsBright(pixels[at]) then 1 else 0
  {
  }

  lemma LightAt(width: nat, height: nat, pixels: seq<Pixel>, y: nat, x: nat)
    requires Matches(width, height, pixels) && y < height && x < width
    ensures 0 <= y * width + x < |pixels| && PixelAt(pixels, width, y, x) == pixels[y * width + x]
  {
    IndexInImage(width, height, y, x);
  }

  lemma ColumnShareIs(width: nat, height: nat, pixels: seq<Pixel>, top: nat, step: nat, cells: nat, x: nat)
    requires Matches(width, height, pixels) && x < width && top < height && 0 < step
    requires forall j: nat :: j < cells <==> top + j * step < height
    ensures 0 < cells
    ensures ColumnShare(pixels, width, top, height, step, x)
            == Ratio(ColumnLight(pixels, width, top, step, cells, x), cells)
  {
    SampleCountIs(top, height, step, cells);
    var column := Column(pixels, width, top, height, step, x);
    PixelCounts(column);
    ColumnLightCounts(width, height, pixels, top, step, cells, x, column);
    assert top + 0 * step < height;
  }

  lemma ColumnsSeenAre(width: nat, height: nat, pixels: seq<Pixel>, top: nat, step: nat, columnStep: nat, cells: nat,
                       light: seq<nat>)
    requires Matches(width, height, pixels) && top == Top(height) && top < height
    requires step == Stride(height - top, 160) && columnStep == Stride(width, 120)
    requires ColumnsSeen(width, height, pixels, top, step, columnStep, cells, light)
    ensures var columns := Columns(width, height, pixels);
            && 0 < cells && |columns| == |light| && forall k: nat | k < |light| :: columns[k] == Ratio(light[k], cells)
  {
    var columns := Columns(width, height, pixels);
    forall k: nat
      ensures k < |light| <==> 0 + k * columnStep < width
    {
    }
    SampleCountIs(0, width, columnStep, |light|);
    ColumnShareIs(width, height, pixels, top, step, cells, 0);
    forall k: nat | k < |light|
      ensures columns[k] == Ratio(light[k], cells)
    {
      assert k * columnStep < width;
      ColumnShareIs(width, height, pixels, top, step, cells, k * columnStep);
    }
  }

  function Total(s: seq<nat>): nat {
    if s == [] then 0 else s[0] + Total(s[1..])
  }

  lemma {:induction false} SumOfShares(columns: seq<real>, light: seq<nat>, cells: nat)
    requires 0 < cells && |columns| == |light| && forall k: nat | k < |light| :: columns[k] == Ratio(light[k], cells)
    ensures Sum(columns) == Ratio(Total(light), cells)
  {
    if light != [] {
      SumOfShares(columns[1..], light[1..], cells);
      ShareSum(light[0], Total(light[1..]), cells);
    }
  }

  lemma ShareSum(a: nat, b: nat, n: nat)
    requires 0 < n
    ensures Ratio(a, n) + Ratio(b, n) == Ratio(a + b, n)
  {
    var x, y, m := a as real, b as real, n as real;
    assert x / m + y / m == (x + y) / m;
  }

  lemma ShareOrder(a: nat, b: nat, n: nat)
    requires 0 < n
    ensures a <= b <==> Ratio(a, n) <= Ratio(b, n)
  {
    var x, y, m := a as real, b as real, n as real;
    QuotientCompare(y, m, x / m);
    assert (x / m) * m == x;
  }

  lemma ShareOfShare(a: nat, b: nat, n: nat)
    requires 0 < n && 0 < b
    ensures Ratio(b, n) > 0.0 && Ratio(a, n) / Ratio(b, n) == Ratio(a, b)
  {
    var x, y, m := a as real, b as real, n as real;
    QuotientCompare(y, m, 0.0);
    var p, q := x / m, y / m;
    assert p * m == x && q * m == y;
    CancelShare(p, q, m);
  }

  lemma CancelShare(p: real, q: real, m: real)
    requires q > 0.0 && m > 0.0
    ensures q * m > 0.0 && (p * m) / (q * m) == p / q
  {
    var r := p / q;
    assert r * q == p;
    assert r * (q * m) == (r * q) * m;
    assert q * m > 0.0;
    Quotient(r, p * m, q * m);
  }

  lemma Quotient(r: real, a: real, b: real)
    requires b > 0.0 && r * b == a
    ensures a / b == r
  {
    QuotientCompare(a, b, r);
  }

  lemma AboveFloor(b: nat, n: nat)
    requires 0 < b && 0 < n < 320
    ensures Ratio(b, n) > 0.000000001
  {
    ShareCompare(b, n, 1, 1000000000, 0.000000001);
  }

  lemma BalanceIs(columns: seq<real>, light: seq<nat>, cells: nat)
    requires 0 < cells < 320 && |columns| == |light|
    requires forall k: nat | k < |light| :: columns[k] == Ratio(light[k], cells)
    ensures var l, r := Total(light[..|light| / 2]), Total(light[(|light| + 1) / 2..]);
            Balance(columns) == if l == 0 && r == 0 then 0.0 else Ratio(Min(l, r), Max(l, r))
  {
    var h, k := |light| / 2, (|light| + 1) / 2;
    var l, r := Total(light[..h]), Total(light[k..]);
    SumOfShares(columns[..h], light[..h], cells);
    SumOfShares(columns[k..], light[k..], cells);
    ShareOrder(l, r, cells);
    ShareOrder(r, l, cells);
    BalanceOf(l, r, cells);
  }

  lemma BalanceOf(l: nat, r: nat, cells: nat)
    requires 0 < cells < 320
    ensures var x, y := Ratio(l, cells), Ratio(r, cells);
            MinReal(x, y) / MaxReal(MaxReal(x, y), 0.000000001)
            == if l == 0 && r == 0 then 0.0 else Ratio(Min(l, r), Max(l, r))
  {
    ShareOrder(l, r, cells);
    ShareOrder(r, l, cells);
    var low, high := Min(l, r), Max(l, r);
    if high == 0 {
      assert Ratio(0, cells) == 0.0;
    } else {
      AboveFloor(high, cells);
      ShareOfShare(low, high, cells);
    }
  }

  // ---------------------------------------------------------------------------------------------
  // Spans and voids

  /** `n` positions lie between the first and the last that are lit, both included; none if nothing is lit. */
  ghost predicate IsSpan(lit: seq<bool>, n: nat) {
    if forall i :: 0 <= i < |lit| ==> !lit[i] then n == 0
    else exists first: nat, last: nat :: SpansFrom(lit, first, last, n)
  }

  lemma SpanExactly(lit: seq<bool>, n: nat)
    ensures IsSpan(lit, n) <==> n == Span(lit)
  {
    SpanEmpty(lit);
    if IsSpan(lit, n) && Span(lit) > 0 {
      var first: nat, last: nat :| SpansFrom(lit, first, last, n);
      SpanBetween(lit, first, last);
    }
    if n == Span(lit) > 0 {
      var first, last := SpanEnds(lit);
      assert SpansFrom(lit, first, last, n);
    }
  }

  predicate SpansFrom(lit: seq<bool>, first: nat, last: nat, n: nat) {
    && first <= last < |lit| && lit[first] && lit[last] && n == last - first + 1
    && forall i :: 0 <= i < |lit| && lit[i] ==> first <= i <= last
  }

  /** Every unlit stretch is less than `p` in `q` of the whole. */
  ghost predicate VoidsUnder(lit: seq<bool>, p: nat, q: nat) {
    forall lo: nat, m: nat | IsVoid(lit, lo, m) :: q * m < p * |lit|
  }

  /** The span is at least `p` in `q` of the whole. */
  ghost predicate SpanOver(lit: seq<bool>, p: nat, q: nat) {
    exists n: nat :: IsSpan(lit, n) && q * n >= p * |lit|
  }

  lemma VoidsBelow(lit: seq<bool>, p: nat, q: nat)
    ensures VoidsUnder(lit, p, q) <==> q * LongestFalseRun(lit) < p * |lit|
  {
    LongestFalseRunIsLongest(lit);
    var n := LongestFalseRun(lit);
    var at: nat :| IsVoid(lit, at, n);
    forall lo: nat, m: nat | IsVoid(lit, lo, m)
      ensures q * m <= q * n
    {
      MulMonotone(m, n, q);
    }
  }

  /** A column is lit if more than 2.5 percent of its sampled pixels are bright. */
  function LitColumns(light: seq<nat>, cells: nat): (lit: seq<bool>)
    ensures |lit| == |light|
  {
    seq(|light|, k requires 0 <= k < |light| => 40 * light[k] > cells)
  }

  lemma LitColumnsAre(columns: seq<real>, light: seq<nat>, cells: nat)
    requires 0 < cells && |columns| == |light| && forall k: nat | k < |light| :: columns[k] == Ratio(light[k], cells)
    ensures Above(columns, 0.025) == LitColumns(light, cells)
  {
    forall k: nat | k < |light|
      ensures columns[k] > 0.025 <==> 40 * light[k] > cells
    {
      ShareCompare(light[k], cells, 1, 40, 0.025);
    }
  }

  // ---------------------------------------------------------------------------------------------
  // The report

  /** What is looked at in a capture. */
  datatype View = View(
    top: nat, rowStep: nat, cellStep: nat, columnStep: nat, lit: seq<bool>, cells: nat, light: seq<nat>)

  ghost predicate IsView(width: nat, height: nat, pixels: seq<Pixel>, v: View) {
    && IsTop(height, v.top)
    && IsStep(height - v.top, 120, v.rowStep) && IsStep(height - v.top, 160, v.cellStep)
    && IsStep(width, 120, v.columnStep)
    && RowsSeen(width, height, pixels, v.top, v.rowStep, v.lit)
    && ColumnsSeen(width, height, pixels, v.top, v.cellStep, v.columnStep, v.cells, v.light)
  }

  /** The pixels below the titlebar. */
  function Below(width: nat, pixels: seq<Pixel>, top: nat): seq<Pixel> {
    if width * top <= |pixels| then pixels[width * top..] else []
  }

  lemma ViewIs(width: nat, height: nat, pixels: seq<Pixel>, v: View)
    requires Matches(width, height, pixels) && IsView(width, height, pixels, v)
    ensures v.lit == OccupiedRows(width, height, pixels) && v.lit != []
    ensures Below(width, pixels, v.top) == Content(pixels, width, height) != []
    ensures var columns := Columns(width, height, pixels);
            && 0 < v.cells < 320 && |columns| == |v.light| > 0
            && forall k: nat | k < |v.light| :: columns[k] == Ratio(v.light[k], v.cells)
  {
    TopIs(height, v.top);
    ContentStart(width, height);
    StepIs(height - v.top, 120, v.rowStep);
    StepIs(height - v.top, 160, v.cellStep);
    StepIs(width, 120, v.columnStep);
    SampleCounts(width, height, pixels);
    RowsSeenAre(width, height, pixels, v.top, v.rowStep, v.lit);
    ColumnsSeenAre(width, height, pixels, v.top, v.cellStep, v.columnStep, v.cells, v.light);
    SampleCountIs(v.top, height, v.cellStep, v.cells);
  }

  /** The gates on the content. */
  ghost predicate ContentGates(below: seq<Pixel>, gates: Gates) {
    && (gates.darkVoidBelow <==> 10 * Count(IsDim, below) < 9 * |below|)
    && (gates.accentBelow <==> 100 * Count(IsCyan, below) < 8 * |below|)
  }

  /** The gates on the rows. */
  ghost predicate RowGates(lit: seq<bool>, gates: Gates) {
    && (gates.contentSpans <==> SpanOver(lit, 11, 20))
    && (gates.voidBelow <==> VoidsUnder(lit, 9, 20))
  }

  /** The gates on the columns. */
  ghost predicate ColumnGates(light: seq<nat>, cells: nat, gates: Gates) {
    var l, r := Total(light[..|light| / 2]), Total(light[(|light| + 1) / 2..]);
    && (gates.horizontalSpanAbove <==> SpanOver(LitColumns(light, cells), 3, 5))
    && (gates.balanceAbove <==> (l > 0 || r > 0) && 20 * l >= 11 * r && 20 * r >= 11 * l)
  }

  lemma ContentGatesShown(width: nat, height: nat, pixels: seq<Pixel>, v: View)
    requires Matches(width, height, pixels) && IsView(width, height, pixels, v)
    ensures ContentGates(Below(width, pixels, v.top), Analyze(width, height, pixels).value.gates)
  {
    ViewIs(width, height, pixels, v);
    var below := Below(width, pixels, v.top);
    PixelCounts(below);
    ShareCompare(Count(Dark, below), |below|, 9, 10, 0.90);
    ShareCompare(Count(Accent, below), |below|, 8, 100, 0.08);
  }

  lemma RowGatesShown(width: nat, height: nat, pixels: seq<Pixel>, v: View)
    requires Matches(width, height, pixels) && IsView(width, height, pixels, v)
    ensures RowGates(v.lit, Analyze(width, height, pixels).value.gates)
  {
    ViewIs(width, height, pixels, v);
    RowShares(v.lit, Analyze(width, height, pixels).value.gates);
  }

  lemma RowShares(lit: seq<bool>, gates: Gates)
    requires lit != [] && gates.contentSpans == (Ratio(Span(lit), |lit|) >= 0.55)
    requires gates.voidBelow == (Ratio(LongestFalseRun(lit), |lit|) < 0.45)
    ensures RowGates(lit, gates)
  {
    SpanGate(lit);
    VoidGate(lit);
  }

  lemma SpanGate(lit: seq<bool>)
    requires lit != []
    ensures Ratio(Span(lit), |lit|) >= 0.55 <==> SpanOver(lit, 11, 20)
  {
    SpanShare(lit, 11, 20, 0.55);
  }

  lemma VoidGate(lit: seq<bool>)
    requires lit != []
    ensures Ratio(LongestFalseRun(lit), |lit|) < 0.45 <==> VoidsUnder(lit, 9, 20)
  {
    VoidShare(lit, 9, 20, 0.45);
  }

  lemma SpanShare(lit: seq<bool>, p: nat, q: nat, c: real)
    requires lit != [] && 0 < q && c * q as real == p as real
    ensures Ratio(Span(lit), |lit|) >= c <==> SpanOver(lit, p, q)
  {
    ShareCompare(Span(lit), |lit|, p, q, c);
    SpanReaches(lit, p, q);
  }

  lemma VoidShare(lit: seq<bool>, p: nat, q: nat, c: real)
    requires lit != [] && 0 < q && c * q as real == p as real
    ensures Ratio(LongestFalseRun(lit), |lit|) < c <==> VoidsUnder(lit, p, q)
  {
    ShareCompare(LongestFalseRun(lit), |lit|, p, q, c);
    VoidsBelow(lit, p, q);
  }

  lemma SpanReaches(lit: seq<bool>, p: nat, q: nat)
    ensures SpanOver(lit, p, q) <==> q * Span(lit) >= p * |lit|
  {
    SpanExactly(lit, Span(lit));
    forall n: nat | IsSpan(lit, n)
      ensures n == Span(lit)
    {
      SpanExactly(lit, n);
    }
  }

  lemma ColumnGatesShown(width: nat, height: nat, pixels: seq<Pixel>, v: View)
    requires Matches(width, height, pixels) && IsView(width, height, pixels, v)
    ensures ColumnGates(v.light, v.cells, Analyze(width, height, pixels).value.gates)
  {
    ViewIs(width, height, pixels, v);
    var columns, lit := Columns(width, height, pixels), LitColumns(v.light, v.cells);
    LitColumnsAre(columns, v.light, v.cells);
    SpanShare(lit, 3, 5, 0.60);
    BalanceIs(columns, v.light, v.cells);
    BalanceReaches(Total(v.light[..|v.light| / 2]), Total(v.light[(|v.light| + 1) / 2..]));
  }

  lemma BalanceReaches(l: nat, r: nat)
    ensures (if l == 0 && r == 0 then 0.0 else Ratio(Min(l, r), Max(l, r))) >= 0.55
            <==> (l > 0 || r > 0) && 20 * l >= 11 * r && 20 * r >= 11 * l
  {
    if l > 0 || r > 0 {
      ShareCompare(Min(l, r), Max(l, r), 11, 20, 0.55);
    }
  }

  /** The six gates of a report are conditions on the numbers of bright, dim and cyan pixels that are looked at. */
  lemma GatesByPixels(width: nat, height: nat, pixels: seq<Pixel>, v: View)
    requires Matches(width, height, pixels) && IsView(width, height, pixels, v)
    ensures var r := Analyze(width, height, pixels);
            && r.Ok? && r.value.width == width && r.value.height == height
            && ContentGates(Below(width, pixels, v.top), r.value.gates)
            && RowGates(v.lit, r.value.gates)
            && ColumnGates(v.light, v.cells, r.value.gates)
  {
    ContentGatesShown(width, height, pixels, v);
    RowGatesShown(width, height, pixels, v);
    ColumnGatesShown(width, height, pixels, v);
  }

  /** The reported ratios, each with what it is a share of. */
  ghost predicate RatiosShow(below: seq<Pixel>, lit: seq<bool>, light: seq<nat>, cells: nat, m: Measures) {
    var l, r := Total(light[..|light| / 2]), Total(light[(|light| + 1) / 2..]);
    && Shows(m.darkVoid, Count(IsDim, below), |below|)
    && Shows(m.activeRatio, Count(IsBright, below), |below|)
    && Shows(m.accentRatio, Count(IsCyan, below), |below|)
    && Shows(m.occupiedRatio, Count(value => value, lit), |lit|)
    && (exists n: nat :: IsSpan(lit, n) && Shows(m.verticalSpan, n, |lit|))
    && (exists n: nat :: IsLongestFalseRun(lit, n) && Shows(m.largestVoid, n, |lit|))
    && (exists n: nat :: IsSpan(LitColumns(light, cells), n) && Shows(m.horizontalSpan, n, |light|))
    && if l == 0 && r == 0 then m.balance == 0.0 else Shows(m.balance, Min(l, r), Max(l, r))
  }

  lemma RatiosByPixels(width: nat, height: nat, pixels: seq<Pixel>, v: View)
    requires Matches(width, height, pixels) && IsView(width, height, pixels, v)
    ensures RatiosShow(Below(width, pixels, v.top), v.lit, v.light, v.cells,
                       Analyze(width, height, pixels).value.ratios)
  {
    ViewIs(width, height, pixels, v);
    var below, columns, lit :=
      Below(width, pixels, v.top), Columns(width, height, pixels), LitColumns(v.light, v.cells);
    PixelCounts(below);
    ShownShare(Count(Dark, below), |below|);
    ShownShare(Count(Active, below), |below|);
    ShownShare(Count(Accent, below), |below|);
    ShownShare(Count(value => value, v.lit), |v.lit|);
    SpanExactly(v.lit, Span(v.lit));
    ShownShare(Span(v.lit), |v.lit|);
    LongestFalseRunIsLongest(v.lit);
    ShownShare(LongestFalseRun(v.lit), |v.lit|);
    LitColumnsAre(columns, v.light, v.cells);
    SpanExactly(lit, Span(lit));
    ShownShare(Span(lit), |lit|);
    BalanceIs(columns, v.light, v.cells);
    BalanceShown(Total(v.light[..|v.light| / 2]), Total(v.light[(|v.light| + 1) / 2..]));
  }

  lemma BalanceShown(l: nat, r: nat)
    ensures if l == 0 && r == 0 then Round4(0.0) == 0.0
            else Shows(Round4(Ratio(Min(l, r), Max(l, r))), Min(l, r), Max(l, r))
  {
    if l > 0 || r > 0 {
      ShownShare(Min(l, r), Max(l, r));
    }
  }

  /** Every capture has such a view. */
  lemma ViewOf(width: nat, height: nat, pixels: seq<Pixel>) returns (v: View)
    requires Matches(width, height, pixels)
    ensures IsView(width, height, pixels, v)
  {
    var top := Top(height);
    var rowStep, cellStep, columnStep := Stride(height - top, 120), Stride(height - top, 160), Stride(width, 120);
    var cells := SampleCount(top, height, cellStep);
    var n := SampleCount(0, width, columnStep);
    var lit := OccupiedRows(width, height, pixels);
    var light := seq(n, k requires 0 <= k < n => ColumnLight(pixels, width, top, cellStep, cells, k * columnStep));
    v := View(top, rowStep, cellStep, columnStep, lit, cells, light);
    StrideIsStep(height - top, 120);
    StrideIsStep(height - top, 160);
    StrideIsStep(width, 120);
    OccupiedSeen(width, height, pixels);
    LightSeen(width, height, pixels, top, cellStep, columnStep, cells, light);
  }

  lemma StrideIsStep(extent: nat, target: nat)
    requires 0 < target
    ensures IsStep(extent, target, Stride(extent, target))
  {
    if extent >= target {
      var q, r := extent / target, extent % target;
      assert extent == q * target + r && (q + 1) * target == q * target + target;
      MulMonotone(q + 1, 1, target);
    } else {
      assert extent / target == 0;
    }
  }

  lemma OccupiedSeen(width: nat, height: nat, pixels: seq<Pixel>)
    requires Matches(width, height, pixels)
    ensures RowsSeen(width, height, pixels, Top(height), Stride(height - Top(height), 120),
                     OccupiedRows(width, height, pixels))
  {
    var top, step, lit := Top(height), Stride(height - Top(height), 120), OccupiedRows(width, height, pixels);
    forall k: nat
      ensures k < |lit| <==> top + k * step < height
    {
      SampleInRange(top, height, step, k);
    }
    forall k: nat | k < |lit|
      ensures lit[k] == RowIsLit(pixels, width, top + k * step)
    {
      OccupiedRowLit(width, height, pixels, k, top + k * step);
    }
  }

  lemma OccupiedRowLit(width: nat, height: nat, pixels: seq<Pixel>, k: nat, y: nat)
    requires Matches(width, height, pixels) && k < |OccupiedRows(width, height, pixels)|
    requires y == Top(height) + k * Stride(height - Top(height), 120) && y < height
    ensures OccupiedRows(width, height, pixels)[k] == RowIsLit(pixels, width, y)
  {
    RowActivityAt(pixels, width, Top(height), height, Stride(height - Top(height), 120), k, y);
    RowShareLit(width, height, pixels, y);
  }

  lemma LightSeen(width: nat, height: nat, pixels: seq<Pixel>, top: nat, step: nat, columnStep: nat, cells: nat,
                  light: seq<nat>)
    requires 0 < step && 0 < columnStep && cells == SampleCount(top, height, step)
    requires |light| == SampleCount(0, width, columnStep)
    requires forall k: nat | k < |light| :: light[k] == ColumnLight(pixels, width, top, step, cells, k * columnStep)
    ensures ColumnsSeen(width, height, pixels, top, step, columnStep, cells, light)
  {
    forall j: nat
      ensures j < cells <==> top + j * step < height
    {
      SampleInRange(top, height, step, j);
    }
    forall k: nat
      ensures k < |light| <==> k * columnStep < width
    {
      SampleInRange(0, width, columnStep, k);
    }
  }
}
