/** What the composition score promises: ratios, voids against spans, and mirror images. */
module CaptureProperties {
  import opened Bytes
  import opened CaptureAnalysis
  import opened Occupancy
  import opened PngReader
  import opened Samples
  import opened Sequences

  // ---------------------------------------------------------------------------------------------
  // Ratios

  predicate InUnit(x: real) {
    0.0 <= x <= 1.0
  }

  predicate AllInUnit(m: Measures) {
    && InUnit(m.darkVoid) && InUnit(m.activeRatio) && InUnit(m.accentRatio) && InUnit(m.occupiedRatio)
    && InUnit(m.verticalSpan) && InUnit(m.largestVoid) && InUnit(m.horizontalSpan) && InUnit(m.balance)
  }

  lemma CountRatioUnit<T>(p: T -> bool, s: seq<T>)
    requires s != []
    ensures InUnit(Ratio(Count(p, s), |s|))
  {
    CountBound(p, s);
    RatioUnit(Count(p, s), |s|);
  }

  lemma RatioSum(a: nat, b: nat, n: nat)
    requires 0 < n && a + b <= n
    ensures Ratio(a, n) + Ratio(b, n) <= 1.0
  {
    var x, y, m := a as real, b as real, n as real;
    assert x / m + y / m == (x + y) / m;
    RatioUnit(a + b, n);
  }

  lemma BalanceUnit(columns: seq<real>)
    requires forall i :: 0 <= i < |columns| ==> columns[i] >= 0.0
    ensures InUnit(Balance(columns))
  {
    var left, right := columns[..|columns| / 2], columns[(|columns| + 1) / 2..];
    SumNonNegative(left);
    SumNonNegative(right);
    QuotientUnit(MinReal(Sum(left), Sum(right)), MaxReal(MaxReal(Sum(left), Sum(right)), 0.000000001));
  }

  lemma QuotientUnit(a: real, b: real)
    requires 0.0 <= a <= b && 0.0 < b
    ensures 0.0 <= a / b <= 1.0
  {
    assert (a / b) * b == a;
  }

  /** Every reported ratio lies between 0 and 1, and what excludes each other shares the whole. */
  lemma RatiosInUnit(width: nat, height: nat, pixels: seq<Pixel>)
    requires Matches(width, height, pixels)
    ensures AllInUnit(Measure(width, height, pixels))
    ensures var m := Measure(width, height, pixels);
            m.darkVoid + m.activeRatio <= 1.0 && m.largestVoid + m.occupiedRatio <= 1.0
  {
    SampleCounts(width, height, pixels);
    var content, occupied, columns :=
      Content(pixels, width, height), OccupiedRows(width, height, pixels), Columns(width, height, pixels);
    ContentRatios(content);
    OccupiedRatios(occupied);
    ColumnsNonNegative(width, height, pixels);
    BalanceUnit(columns);
    RatioUnit(Span(Above(columns, 0.025)), |columns|);
  }

  lemma ContentRatios(content: seq<Pixel>)
    requires content != []
    ensures InUnit(Ratio(Count(Dark, content), |content|))
    ensures InUnit(Ratio(Count(Active, content), |content|))
    ensures InUnit(Ratio(Count(Accent, content), |content|))
    ensures Ratio(Count(Dark, content), |content|) + Ratio(Count(Active, content), |content|) <= 1.0
  {
    CountRatioUnit(Dark, content);
    CountRatioUnit(Active, content);
    CountRatioUnit(Accent, content);
    CountDisjoint(Dark, Active, content);
    RatioSum(Count(Dark, content), Count(Active, content), |content|);
  }

  lemma OccupiedRatios(occupied: seq<bool>)
    requires occupied != []
    ensures InUnit(Ratio(Count(value => value, occupied), |occupied|))
    ensures InUnit(Ratio(Span(occupied), |occupied|))
    ensures InUnit(Ratio(LongestFalseRun(occupied), |occupied|))
    ensures Ratio(LongestFalseRun(occupied), |occupied|) + Ratio(Count(value => value, occupied), |occupied|) <= 1.0
  {
    var n := |occupied|;
    VoidAndOccupied(occupied);
    RatioUnit(Count(value => value, occupied), n);
    RatioUnit(Span(occupied), n);
    RatioUnit(LongestFalseRun(occupied), n);
    RatioSum(LongestFalseRun(occupied), Count(value => value, occupied), n);
  }

  lemma ColumnsNonNegative(width: nat, height: nat, pixels: seq<Pixel>)
    requires Matches(width, height, pixels)
    ensures forall i :: 0 <= i < |Columns(width, height, pixels)| ==> Columns(width, height, pixels)[i] >= 0.0
  {
    var columns, top, step := Columns(width, height, pixels), Top(height), Stride(height - Top(height), 160);
    forall k | 0 <= k < |columns|
      ensures columns[k] >= 0.0
    {
      CountRatioUnit(Active, Column(pixels, width, top, height, step, k * Stride(width, 120)));
    }
  }

  lemma RoundUnit(x: real)
    requires InUnit(x)
    ensures InUnit(Round4(x))
  {
  }

  /** Rounding takes the nearest multiple of 0.0001, and of two the even one. */
  lemma RoundNearest(x: real) returns (n: int)
    ensures Round4(x) == n as real / 10000.0
    ensures n as real - 0.5 <= x * 10000.0 <= n as real + 0.5
    ensures x * 10000.0 == n as real - 0.5 || x * 10000.0 == n as real + 0.5 ==> n % 2 == 0
  {
    var scaled := x * 10000.0;
    var low := scaled.Floor;
    var part := scaled - low as real;
    n := if part < 0.5 || (part == 0.5 && low % 2 == 0) then low else low + 1;
  }

  lemma ReportInUnit(width: nat, height: nat, pixels: seq<Pixel>)
    requires Matches(width, height, pixels)
    ensures AllInUnit(Analyze(width, height, pixels).value.ratios)
  {
    RatiosInUnit(width, height, pixels);
    var m := Measure(width, height, pixels);
    RoundUnit(m.darkVoid);
    RoundUnit(m.activeRatio);
    RoundUnit(m.accentRatio);
    RoundUnit(m.occupiedRatio);
    RoundUnit(m.verticalSpan);
    RoundUnit(m.largestVoid);
    RoundUnit(m.horizontalSpan);
    RoundUnit(m.balance);
  }

  /** A capture that passes the void gate spans more than a tenth of the viewport. */
  lemma VoidGateForcesSpan(width: nat, height: nat, pixels: seq<Pixel>)
    requires Matches(width, height, pixels)
    ensures var m := Measure(width, height, pixels);
            && 2.0 * m.largestVoid + m.verticalSpan >= 1.0
            && (GatesOf(m).voidBelow ==> m.verticalSpan > 0.10)
  {
    SampleCounts(width, height, pixels);
    var occupied := OccupiedRows(width, height, pixels);
    VoidAndSpan(occupied);
    CoverRatio(LongestFalseRun(occupied), Span(occupied), |occupied|);
  }

  lemma CoverRatio(void: nat, span: nat, n: nat)
    requires 0 < n && 2 * void + span >= n
    ensures 2.0 * Ratio(void, n) + Ratio(span, n) >= 1.0
  {
    QuotientSum(void as real, span as real, n as real);
    AtLeastOne(2.0 * void as real + span as real, n as real);
  }

  lemma QuotientSum(a: real, b: real, m: real)
    requires m > 0.0
    ensures 2.0 * (a / m) + b / m == (2.0 * a + b) / m
  {
  }

  lemma AtLeastOne(a: real, b: real)
    requires b > 0.0 && a >= b
    ensures a / b >= 1.0
  {
    var q := a / b;
    assert q * b == a;
    if q < 1.0 {
      ScaledDown(q, b);
    }
  }

  lemma ScaledDown(q: real, b: real)
    requires b > 0.0 && q < 1.0
    ensures q * b < b
  {
  }

  // ---------------------------------------------------------------------------------------------
  // Mirror images

  /** `q` shows every row of `p` from right to left. */
  ghost predicate IsMirror(width: nat, height: nat, p: seq<Pixel>, q: seq<Pixel>) {
    && |p| == |q| == width * height
    && forall y, x | 0 <= y < height && 0 <= x < width :: PixelAt(q, width, y, x) == PixelAt(p, width, y, width - 1 - x)
  }

  lemma MirrorRow(width: nat, height: nat, p: seq<Pixel>, q: seq<Pixel>, y: nat)
    requires IsMirror(width, height, p, q) && y < height
    ensures Row(q, width, y) == Reverse(Row(p, width, y))
  {
    forall x | 0 <= x < width
      ensures Row(q, width, y)[x] == Reverse(Row(p, width, y))[x]
    {
      assert Row(q, width, y)[x] == PixelAt(q, width, y, x) == PixelAt(p, width, y, width - 1 - x);
    }
  }

  lemma MirrorRowCount(pred: Pixel -> bool, width: nat, height: nat, p: seq<Pixel>, q: seq<Pixel>, y: nat)
    requires IsMirror(width, height, p, q) && y < height
    ensures Count(pred, Row(q, width, y)) == Count(pred, Row(p, width, y))
  {
    MirrorRow(width, height, p, q, y);
    CountReverse(pred, Row(p, width, y));
  }

  lemma CountFromRow(pred: Pixel -> bool, width: nat, height: nat, p: seq<Pixel>, y: nat)
    requires |p| == width * height && y < height
    ensures 0 <= y * width <= (y + 1) * width <= |p|
    ensures Count(pred, p[y * width..]) == Count(pred, Row(p, width, y)) + Count(pred, p[(y + 1) * width..])
  {
    RowIsSlice(p, width, height, y);
    assert p[y * width..] == p[y * width..(y + 1) * width] + p[(y + 1) * width..];
    CountAppend(pred, Row(p, width, y), p[(y + 1) * width..]);
  }

  lemma {:induction false} MirrorCount(pred: Pixel -> bool, width: nat, height: nat, p: seq<Pixel>, q: seq<Pixel>,
                                       y: nat)
    requires IsMirror(width, height, p, q) && y <= height
    ensures 0 <= y * width <= width * height
    ensures Count(pred, p[y * width..]) == Count(pred, q[y * width..])
    decreases height - y
  {
    MulMonotone(y, height, width);
    assert height * width == width * height;
    if y == height {
      assert p[y * width..] == [] && q[y * width..] == [];
    } else {
      MirrorCount(pred, width, height, p, q, y + 1);
      CountFromRow(pred, width, height, p, y);
      CountFromRow(pred, width, height, q, y);
      MirrorRowCount(pred, width, height, p, q, y);
    }
  }

  lemma MirrorContent(pred: Pixel -> bool, width: nat, height: nat, p: seq<Pixel>, q: seq<Pixel>)
    requires IsMirror(width, height, p, q)
    ensures Count(pred, Content(p, width, height)) == Count(pred, Content(q, width, height))
  {
    ContentStart(width, height);
    MirrorCount(pred, width, height, p, q, Top(height));
    assert Top(height) * width == width * Top(height);
  }

  lemma MirrorOccupiedRows(width: nat, height: nat, p: seq<Pixel>, q: seq<Pixel>)
    requires IsMirror(width, height, p, q) && Matches(width, height, p)
    ensures OccupiedRows(width, height, p) == OccupiedRows(width, height, q)
  {
    var top, step := Top(height), Stride(height - Top(height), 120);
    var a, b := RowActivity(p, width, top, height, step), RowActivity(q, width, top, height, step);
    forall k | 0 <= k < |a|
      ensures a[k] == b[k]
    {
      SampleInRange(top, height, step, k);
      MirrorRowCount(Active, width, height, p, q, top + k * step);
    }
    assert a == b;
  }

  /** When the last column is sampled, the samples are the same from the right as from the left. */
  lemma MirroredSample(width: nat, step: nat, k: nat)
    requires 0 < width && 0 < step && (width - 1) % step == 0 && k < SampleCount(0, width, step)
    ensures var n := SampleCount(0, width, step);
            k * step < width && 0 <= n - 1 - k && (n - 1 - k) * step == width - 1 - k * step
  {
    var n := SampleCount(0, width, step);
    SampleInRange(0, width, step, k);
    assert n - 1 == (width - 1) / step;
    assert (n - 1) * step == width - 1;
    assert (n - 1 - k) * step == (n - 1) * step - k * step;
  }

  lemma MirrorColumn(width: nat, height: nat, p: seq<Pixel>, q: seq<Pixel>, top: nat, step: nat, x: nat)
    requires IsMirror(width, height, p, q) && 0 < step && x < width
    ensures Column(q, width, top, height, step, x) == Column(p, width, top, height, step, width - 1 - x)
  {
    var a, b := Column(q, width, top, height, step, x), Column(p, width, top, height, step, width - 1 - x);
    forall j | 0 <= j < |a|
      ensures a[j] == b[j]
    {
      SampleInRange(top, height, step, j);
      var y := top + j * step;
      assert a[j] == PixelAt(q, width, y, x);
      assert b[j] == PixelAt(p, width, y, width - 1 - x);
    }
  }

  lemma MirrorColumns(width: nat, height: nat, p: seq<Pixel>, q: seq<Pixel>)
    requires IsMirror(width, height, p, q) && Matches(width, height, p)
    requires (width - 1) % Stride(width, 120) == 0
    ensures Columns(width, height, q) == Reverse(Columns(width, height, p))
  {
    var a, b := Columns(width, height, q), Columns(width, height, p);
    var top, step, columnStep := Top(height), Stride(height - Top(height), 160), Stride(width, 120);
    forall k | 0 <= k < |a|
      ensures a[k] == Reverse(b)[k]
    {
      MirroredSample(width, columnStep, k);
      MirrorColumn(width, height, p, q, top, step, k * columnStep);
      assert a[k] == ColumnShare(q, width, top, height, step, k * columnStep);
      assert b[|b| - 1 - k] == ColumnShare(p, width, top, height, step, (|b| - 1 - k) * columnStep);
    }
  }

  lemma BalanceReverse(columns: seq<real>)
    ensures Balance(Reverse(columns)) == Balance(columns)
  {
    var n, reversed := |columns|, Reverse(columns);
    assert n - (n + 1) / 2 == n / 2;
    assert reversed[..n / 2] == Reverse(columns[(n + 1) / 2..]);
    assert reversed[(n + 1) / 2..] == Reverse(columns[..n / 2]);
    SumReverse(columns[(n + 1) / 2..]);
    SumReverse(columns[..n / 2]);
  }

  lemma SpanAboveReverse(columns: seq<real>, threshold: real)
    ensures Span(Above(Reverse(columns), threshold)) == Span(Above(columns, threshold))
  {
    assert Above(Reverse(columns), threshold) == Reverse(Above(columns, threshold));
    SpanReverse(Above(columns, threshold));
  }

  /** Mirror invariance: if the last column is sampled, a capture and its mirror image get the same report. */
  lemma MirrorInvariant(width: nat, height: nat, p: seq<Pixel>, q: seq<Pixel>)
    requires IsMirror(width, height, p, q) && (width - 1) % Stride(width, 120) == 0
    ensures Analyze(width, height, p) == Analyze(width, height, q)
  {
    if Matches(width, height, p) {
      SampleCounts(width, height, p);
      SampleCounts(width, height, q);
      MirrorContent(Dark, width, height, p, q);
      MirrorContent(Active, width, height, p, q);
      MirrorContent(Accent, width, height, p, q);
      MirrorOccupiedRows(width, height, p, q);
      MirrorColumns(width, height, p, q);
      BalanceReverse(Columns(width, height, p));
      SpanAboveReverse(Columns(width, height, p), 0.025);
    }
  }

  // ---------------------------------------------------------------------------------------------
  // The exact condition

  /** A black image with one white column. */
  function Stripe(width: nat, height: nat, at: nat): (pixels: seq<Pixel>)
    ensures |pixels| == width * height
  {
    seq(width * height, i requires 0 <= i < width * height => if width != 0 && i % width == at then WHITE else BLACK)
  }

  lemma StripeAt(width: nat, height: nat, at: nat, y: nat, x: nat)
    requires y < height && x < width
    ensures PixelAt(Stripe(width, height, at), width, y, x) == if x == at then WHITE else BLACK
  {
    IndexInImage(width, height, y, x);
    var i := y * width + x;
    QuotientUnique(i, width, y, x);
    assert i == (i / width) * width + i % width;
  }

  lemma StripesMirror(width: nat, height: nat)
    requires 0 < width
    ensures IsMirror(width, height, Stripe(width, height, width - 1), Stripe(width, height, 0))
  {
    var p, q := Stripe(width, height, width - 1), Stripe(width, height, 0);
    forall y, x | 0 <= y < height && 0 <= x < width
      ensures PixelAt(q, width, y, x) == PixelAt(p, width, y, width - 1 - x)
    {
      StripeAt(width, height, 0, y, x);
      StripeAt(width, height, width - 1, y, width - 1 - x);
    }
  }

  lemma StripeActive(width: nat, height: nat, at: nat, y: nat, x: nat)
    requires y < height && x < width
    ensures Active(PixelAt(Stripe(width, height, at), width, y, x)) == (x == at)
  {
    StripeAt(width, height, at, y, x);
  }

  lemma StripeColumn(width: nat, height: nat, at: nat, top: nat, step: nat, x: nat)
    requires 0 < step && x < width && top < height
    ensures ColumnShare(Stripe(width, height, at), width, top, height, step, x) == if x == at then 1.0 else 0.0
  {
    UniformColumn(Active, Stripe(width, height, at), width, top, height, step, x, x == at) by {
      forall y: nat | y < height
        ensures Active(PixelAt(Stripe(width, height, at), width, y, x)) == (x == at)
      {
        StripeActive(width, height, at, y, x);
      }
    }
  }

  lemma UniformColumn(pred: Pixel -> bool, pixels: seq<Pixel>, width: nat, top: nat, height: nat, step: nat, x: nat,
                      b: bool)
    requires 0 < step && top < height
    requires forall y: nat | y < height :: pred(PixelAt(pixels, width, y, x)) == b
    ensures Ratio(Count(pred, Column(pixels, width, top, height, step, x)), SampleCount(top, height, step))
            == if b then 1.0 else 0.0
  {
    var column := Column(pixels, width, top, height, step, x);
    forall j | 0 <= j < |column|
      ensures pred(column[j]) == b
    {
      SampleInRange(top, height, step, j);
      assert column[j] == PixelAt(pixels, width, top + j * step, x);
    }
    CountAll(pred, column, b);
    RatioEnds(SampleCount(top, height, step));
  }

  lemma RatioEnds(n: nat)
    requires 0 < n
    ensures Ratio(n, n) == 1.0 && Ratio(0, n) == 0.0
  {
  }

  /** A white last column that is never sampled leaves no occupied column. */
  lemma StripeUnseen(width: nat, height: nat)
    requires 0 < width && 0 < height && (width - 1) % Stride(width, 120) != 0
    ensures Span(Above(Columns(width, height, Stripe(width, height, width - 1)), 0.025)) == 0
  {
    var top, step, columnStep := Top(height), Stride(height - Top(height), 160), Stride(width, 120);
    var columns := Columns(width, height, Stripe(width, height, width - 1));
    forall k | 0 <= k < |columns|
      ensures columns[k] == 0.0
    {
      LastUnsampled(width, columnStep, k);
      StripeColumn(width, height, width - 1, top, step, k * columnStep);
    }
    SpanEmpty(Above(columns, 0.025));
  }

  lemma LastUnsampled(width: nat, step: nat, k: nat)
    requires 0 < width && 0 < step && (width - 1) % step != 0 && k < SampleCount(0, width, step)
    ensures 0 <= k * step < width && k * step != width - 1
  {
    SampleInRange(0, width, step, k);
    MultipleOf(k, step);
  }

  /** A white first column is always sampled. */
  lemma StripeSeen(width: nat, height: nat)
    requires 0 < width && 0 < height
    ensures Span(Above(Columns(width, height, Stripe(width, height, 0)), 0.025)) > 0
  {
    var top, step, columnStep := Top(height), Stride(height - Top(height), 160), Stride(width, 120);
    var columns := Columns(width, height, Stripe(width, height, 0));
    StripeColumn(width, height, 0, top, step, 0);
    assert columns[0] == ColumnShare(Stripe(width, height, 0), width, top, height, step, 0 * columnStep);
    SpanEmpty(Above(columns, 0.025));
    assert Above(columns, 0.025)[0];
  }

  lemma MultipleOf(k: nat, step: nat)
    requires 0 < step
    ensures (k * step) % step == 0
  {
    QuotientUnique(k * step, step, k, 0);
  }

  lemma RoundedSpanVisible(span: nat, n: nat)
    requires 0 < span && 0 < n < 240
    ensures Round4(Ratio(span, n)) > Round4(Ratio(0, n))
  {
    RatioEnds(n);
    NotTooSmall(span as real, n as real);
    RoundVisible(Ratio(span, n));
  }

  lemma RoundVisible(x: real)
    requires x >= 1.0 / 240.0
    ensures Round4(x) > 0.0 == Round4(0.0)
  {
  }

  lemma NotTooSmall(a: real, b: real)
    requires a >= 1.0 && 0.0 < b <= 240.0
    ensures a / b >= 1.0 / 240.0
  {
    var q := a / b;
    assert q * b == a;
    if q < 1.0 / 240.0 {
      ScaledBelowOne(q, b);
    }
  }

  lemma ScaledBelowOne(q: real, b: real)
    requires q < 1.0 / 240.0 && 0.0 < b <= 240.0
    ensures q * b < 1.0
  {
    if q >= 0.0 {
      assert q * b <= q * 240.0;
    }
  }

  lemma ReportsDiffer(width: nat, height: nat, m: Measures, m': Measures)
    requires Round4(m.horizontalSpan) != Round4(m'.horizontalSpan)
    ensures ReportOf(width, height, m) != ReportOf(width, height, m')
  {
    assert ReportOf(width, height, m).ratios.horizontalSpan == Round4(m.horizontalSpan);
    assert ReportOf(width, height, m').ratios.horizontalSpan == Round4(m'.horizontalSpan);
  }

  lemma HorizontalSpan(width: nat, height: nat, pixels: seq<Pixel>)
    requires Matches(width, height, pixels)
    ensures var columns := Columns(width, height, pixels);
            && 0 < |columns| < 240
            && Measure(width, height, pixels).horizontalSpan == Ratio(Span(Above(columns, 0.025)), |columns|)
  {
    SampleCounts(width, height, pixels);
  }

  lemma AnalysesDiffer(width: nat, height: nat, p: seq<Pixel>, q: seq<Pixel>)
    requires Matches(width, height, p) && Matches(width, height, q)
    requires Round4(Measure(width, height, p).horizontalSpan) != Round4(Measure(width, height, q).horizontalSpan)
    ensures Analyze(width, height, p) != Analyze(width, height, q)
  {
    ReportsDiffer(width, height, Measure(width, height, p), Measure(width, height, q));
  }

  lemma MirrorVariant(width: nat, height: nat)
    requires 0 < width && 0 < height && (width - 1) % Stride(width, 120) != 0
    ensures Analyze(width, height, Stripe(width, height, width - 1)) != Analyze(width, height, Stripe(width, height, 0))
  {
    var p, q := Stripe(width, height, width - 1), Stripe(width, height, 0);
    assert Round4(Measure(width, height, q).horizontalSpan) > Round4(Measure(width, height, p).horizontalSpan) by {
      HorizontalSpan(width, height, p);
      HorizontalSpan(width, height, q);
      StripeUnseen(width, height);
      StripeSeen(width, height);
      RoundedSpanVisible(Span(Above(Columns(width, height, q), 0.025)), |Columns(width, height, q)|);
    }
    AnalysesDiffer(width, height, p, q);
  }

  /**
    For an extent, reports are the same for every image and its mirror image exactly when the last column is
    sampled.
   */
  lemma MirrorInvariantExactly(width: nat, height: nat)
    requires 0 < width && 0 < height
    ensures (forall p, q | IsMirror(width, height, p, q) :: Analyze(width, height, p) == Analyze(width, height, q))
       <==> (width - 1) % Stride(width, 120) == 0
  {
    if (width - 1) % Stride(width, 120) == 0 {
      forall p, q | IsMirror(width, height, p, q)
        ensures Analyze(width, height, p) == Analyze(width, height, q)
      {
        MirrorInvariant(width, height, p, q);
      }
    } else {
      StripesMirror(width, height);
      MirrorVariant(width, height);
    }
  }

  /** In particular nothing under 240 pixels wide is affected by mirroring. */
  lemma NarrowCapturesMirror(width: nat, height: nat, p: seq<Pixel>, q: seq<Pixel>)
    requires width < 240 && IsMirror(width, height, p, q)
    ensures Analyze(width, height, p) == Analyze(width, height, q)
  {
    if 0 < width {
      assert Stride(width, 120) == 1;
      assert (width - 1) % 1 == 0;
      MirrorInvariant(width, height, p, q);
    }
  }

  /** What the reader decodes, the analyser accepts, unless the declared extent is empty. */
  lemma DecodedIsAnalyzed(inflate: Inflate, data: ByteString)
    requires Decode(inflate, data).Ok?
    ensures var image := Decode(inflate, data).value;
            Analyze(image.width, image.height, image.pixels).Ok? <==> image.width > 0 && image.height > 0
  {
    DecodedShape(inflate, data);
    var image := Decode(inflate, data).value;
    assert image.height * image.width == image.width * image.height;
  }
}
