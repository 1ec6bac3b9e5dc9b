/**
  The composition score of a window capture: sampled activity of rows and columns, the ratios
  reported from it and the gates on them. Ratios are exact; a reported ratio is rounded to four
  decimals, ties to even.
 */
module CaptureAnalysis {
  import opened Occupancy
  import opened Outcomes
  import opened PngReader
  import opened Samples
  import opened Sequences

  // ---------------------------------------------------------------------------------------------
  // Pixels

  const BLACK := Pixel(0, 0, 0)
  const WHITE := Pixel(255, 255, 255)

  function Luminance(p: Pixel): real {
    0.2126 * (p.red as int as real) + 0.7152 * (p.green as int as real) + 0.0722 * (p.blue as int as real)
  }

  predicate Active(p: Pixel) {
    Luminance(p) >= 28.0
  }

  predicate Dark(p: Pixel) {
    Luminance(p) < 18.0
  }

  predicate Accent(p: Pixel) {
    var red, green, blue := p.red as int as real, p.green as int as real, p.blue as int as real;
    blue > red * 1.25 && green > red * 1.25 && blue > 55.0
  }

  /** Position `(x, y)` of a flat image. */
  function PixelAt(pixels: seq<Pixel>, width: nat, y: nat, x: nat): Pixel {
    if y * width + x < |pixels| then pixels[y * width + x] else BLACK
  }

  function Row(pixels: seq<Pixel>, width: nat, y: nat): (row: seq<Pixel>)
    ensures |row| == width
  {
    seq(width, x requires 0 <= x < width => PixelAt(pixels, width, y, x))
  }

  lemma RowIsSlice(pixels: seq<Pixel>, width: nat, height: nat, y: nat)
    requires |pixels| == width * height && y < height
    ensures 0 <= y * width <= (y + 1) * width <= |pixels|
    ensures pixels[y * width..(y + 1) * width] == Row(pixels, width, y)
  {
    MulMonotone(y + 1, height, width);
    assert (y + 1) * width == y * width + width;
  }

  // ---------------------------------------------------------------------------------------------
  // Measures

  function Top(height: nat): nat {
    Min(60, height / 20)
  }

  /** The application viewport: everything below the titlebar. */
  function Content(pixels: seq<Pixel>, width: nat, height: nat): (content: seq<Pixel>)
    requires |pixels| == width * height
    ensures |content| == width * (height - Top(height))
  {
    ContentStart(width, height);
    pixels[width * Top(height)..]
  }

  lemma ContentStart(width: nat, height: nat)
    ensures Top(height) <= height && width * Top(height) <= width * height
    ensures width * (height - Top(height)) == width * height - width * Top(height)
    ensures 0 < width && 0 < height ==> 0 < width * (height - Top(height))
  {
    MulMonotone(Top(height), height, width);
    assert Top(height) * width == width * Top(height) && height * width == width * height;
    MulMonotone(1, height - Top(height), width);
  }

  function RowActivity(pixels: seq<Pixel>, width: nat, top: nat, height: nat, step: nat): (activity: seq<real>)
    requires 0 < width && 0 < step
    ensures |activity| == SampleCount(top, height, step)
  {
    seq(SampleCount(top, height, step), k requires 0 <= k => RowShare(pixels, width, top + k * step))
  }

  function RowShare(pixels: seq<Pixel>, width: nat, y: nat): real
    requires 0 < width
  {
    Ratio(Count(Active, Row(pixels, width, y)), width)
  }

  /** The sampled pixels of column `x`. */
  function Column(pixels: seq<Pixel>, width: nat, top: nat, height: nat, step: nat, x: nat): (column: seq<Pixel>)
    requires 0 < step
    ensures |column| == SampleCount(top, height, step)
  {
    seq(SampleCount(top, height, step), j requires 0 <= j => PixelAt(pixels, width, top + j * step, x))
  }

  function ColumnShare(pixels: seq<Pixel>, width: nat, top: nat, height: nat, step: nat, x: nat): real
    requires 0 < step && top < height
  {
    Ratio(Count(Active, Column(pixels, width, top, height, step, x)), SampleCount(top, height, step))
  }

  function ColumnActivity(pixels: seq<Pixel>, width: nat, top: nat, height: nat, step: nat, columnStep: nat)
    : (activity: seq<real>)
    requires 0 < step && 0 < columnStep && top < height
    ensures |activity| == SampleCount(0, width, columnStep)
  {
    seq(SampleCount(0, width, columnStep),
        k requires 0 <= k => ColumnShare(pixels, width, top, height, step, k * columnStep))
  }

  function Above(activity: seq<real>, threshold: real): (occupied: seq<bool>)
    ensures |occupied| == |activity|
    ensures forall i :: 0 <= i < |activity| ==> occupied[i] == (activity[i] > threshold)
  {
    seq(|activity|, i requires 0 <= i < |activity| => activity[i] > threshold)
  }

  function MinReal(a: real, b: real): real {
    if a <= b then a else b
  }

  function MaxReal(a: real, b: real): real {
    if a >= b then a else b
  }

  function Balance(columns: seq<real>): real {
    var left, right := Sum(columns[..|columns| / 2]), Sum(columns[(|columns| + 1) / 2..]);
    MinReal(left, right) / MaxReal(MaxReal(left, right), 0.000000001)
  }

  datatype Measures = Measures(
    darkVoid: real, activeRatio: real, accentRatio: real,
    occupiedRatio: real, verticalSpan: real, largestVoid: real,
    horizontalSpan: real, balance: real)

  /** The measures, from the viewport, the occupied rows, the longest void between them and the column activity. */
  function MeasuresOf(content: seq<Pixel>, occupied: seq<bool>, void: nat, columns: seq<real>): Measures
    requires content != [] && occupied != [] && columns != []
  {
    Measures(
      Ratio(Count(Dark, content), |content|),
      Ratio(Count(Active, content), |content|),
      Ratio(Count(Accent, content), |content|),
      Ratio(Count(value => value, occupied), |occupied|),
      Ratio(Span(occupied), |occupied|),
      Ratio(void, |occupied|),
      Ratio(Span(Above(columns, 0.025)), |columns|),
      Balance(columns))
  }

  datatype Gates = Gates(
    contentSpans: bool, voidBelow: bool, horizontalSpanAbove: bool,
    balanceAbove: bool, darkVoidBelow: bool, accentBelow: bool)

  function GatesOf(m: Measures): Gates {
    Gates(m.verticalSpan >= 0.55, m.largestVoid < 0.45, m.horizontalSpan >= 0.60,
          m.balance >= 0.55, m.darkVoid < 0.90, m.accentRatio < 0.08)
  }

  /** `round(x, 4)` in exact arithmetic. */
  function Round4(x: real): real {
    var scaled := x * 10000.0;
    var low := scaled.Floor;
    var part := scaled - low as real;
    (if part < 0.5 || (part == 0.5 && low % 2 == 0) then low else low + 1) as real / 10000.0
  }

  datatype Report = Report(width: nat, height: nat, ratios: Measures, gates: Gates)

  function ReportOf(width: nat, height: nat, m: Measures): Report {
    Report(width, height,
           Measures(Round4(m.darkVoid), Round4(m.activeRatio), Round4(m.accentRatio), Round4(m.occupiedRatio),
                    Round4(m.verticalSpan), Round4(m.largestVoid), Round4(m.horizontalSpan), Round4(m.balance)),
           GatesOf(m))
  }

  predicate Matches(width: int, height: int, pixels: seq<Pixel>) {
    width > 0 && height > 0 && |pixels| == width * height
  }

  function OccupiedRows(width: nat, height: nat, pixels: seq<Pixel>): seq<bool>
    requires Matches(width, height, pixels)
  {
    Above(RowActivity(pixels, width, Top(height), height, Stride(height - Top(height), 120)), 0.035)
  }

  function Columns(width: nat, height: nat, pixels: seq<Pixel>): seq<real>
    requires Matches(width, height, pixels)
  {
    ColumnActivity(pixels, width, Top(height), height, Stride(height - Top(height), 160), Stride(width, 120))
  }

  /** Nothing the analyser divides by is zero, and the sample counts are bounded. */
  lemma SampleCounts(width: nat, height: nat, pixels: seq<Pixel>)
    requires Matches(width, height, pixels)
    ensures Content(pixels, width, height) != []
    ensures var n, extent := |OccupiedRows(width, height, pixels)|, height - Top(height);
            (extent < 240 ==> n == extent) && (120 <= extent ==> 120 <= n < 240)
    ensures var n := |Columns(width, height, pixels)|;
            (width < 240 ==> n == width) && (120 <= width ==> 120 <= n < 240)
    ensures var n, extent := SampleCount(Top(height), height, Stride(height - Top(height), 160)), height - Top(height);
            (extent < 320 ==> n == extent) && (160 <= extent ==> 160 <= n < 320)
  {
    ContentStart(width, height);
    StrideSamples(Top(height), height, 120);
    StrideSamples(0, width, 120);
    StrideSamples(Top(height), height, 160);
  }

  function Measure(width: nat, height: nat, pixels: seq<Pixel>): Measures
    requires Matches(width, height, pixels)
  {
    SampleCounts(width, height, pixels);
    var occupied := OccupiedRows(width, height, pixels);
    MeasuresOf(Content(pixels, width, height), occupied, LongestFalseRun(occupied), Columns(width, height, pixels))
  }

  datatype AnalysisError = DimensionsDoNotMatch

  function Analyze(width: int, height: int, pixels: seq<Pixel>): Result<Report, AnalysisError> {
    if !Matches(width, height, pixels) then Err(DimensionsDoNotMatch)
    else Ok(ReportOf(width, height, Measure(width, height, pixels)))
  }

  // ---------------------------------------------------------------------------------------------
  // The analyser

  method SampleRows(pixels: seq<Pixel>, width: nat, height: nat, top: nat, step: nat) returns (activity: seq<real>)
    requires 0 < width && |pixels| == width * height && 0 < step
    ensures activity == RowActivity(pixels, width, top, height, step)
  {
    activity := [];
    var y := top;
    ghost var k := 0;
    ghost var shares := RowActivity(pixels, width, top, height, step);
    while y < height
      invariant 0 <= k <= |shares| && y == top + k * step && activity == shares[..k]
    {
      SampleInRange(top, height, step, k);
      var share := SampleRow(pixels, width, height, y);
      RowActivityAt(pixels, width, top, height, step, k, y);
      activity := activity + [share];
      NextSample(top, step, k, y);
      y, k := y + step, k + 1;
    }
    SampleInRange(top, height, step, k);
    assert shares[..|shares|] == shares;
  }

  lemma RowActivityAt(pixels: seq<Pixel>, width: nat, top: nat, height: nat, step: nat, k: nat, y: nat)
    requires 0 < width && 0 < step && k < SampleCount(top, height, step) && y == top + k * step
    ensures RowActivity(pixels, width, top, height, step)[k] == RowShare(pixels, width, y)
  {
  }

  lemma NextSample(top: nat, step: nat, k: nat, y: nat)
    requires y == top + k * step
    ensures y + step == top + (k + 1) * step
  {
    assert (k + 1) * step == k * step + step;
  }

  method SampleRow(pixels: seq<Pixel>, width: nat, height: nat, y: nat) returns (share: real)
    requires 0 < width && |pixels| == width * height && y < height
    ensures share == RowShare(pixels, width, y)
  {
    RowIsSlice(pixels, width, height, y);
    var row := pixels[y * width..(y + 1) * width];
    share := Ratio(Count(Active, row), width);
  }

  method SampleColumn(pixels: seq<Pixel>, width: nat, height: nat, top: nat, step: nat, x: nat)
    returns (active: nat, samples: nat)
    requires |pixels| == width * height && 0 < step && x < width
    ensures samples == SampleCount(top, height, step)
    ensures active == Count(Active, Column(pixels, width, top, height, step, x))
  {
    active, samples := 0, 0;
    var y := top;
    ghost var column := Column(pixels, width, top, height, step, x);
    while y < height
      invariant samples <= |column| && y == top + samples * step
      invariant active == Count(Active, column[..samples])
    {
      SampleInRange(top, height, step, samples);
      IndexInImage(width, height, y, x);
      var pixel := pixels[y * width + Min(x, width - 1)];
      assert column[samples] == pixel;
      CountSnoc(Active, column, samples);
      active := active + if Active(pixel) then 1 else 0;
      assert (samples + 1) * step == samples * step + step;
      y, samples := y + step, samples + 1;
    }
    SampleInRange(top, height, step, samples);
    assert column[..samples] == column;
  }

  lemma IndexInImage(width: nat, height: nat, y: nat, x: nat)
    requires y < height && x < width
    ensures 0 <= y * width + x < width * height
  {
    MulMonotone(y + 1, height, width);
    assert (y + 1) * width == y * width + width;
  }

  method SampleColumns(pixels: seq<Pixel>, width: nat, height: nat, top: nat, step: nat, columnStep: nat)
    returns (activity: seq<real>)
    requires |pixels| == width * height && 0 < step && 0 < columnStep && top < height
    ensures activity == ColumnActivity(pixels, width, top, height, step, columnStep)
  {
    activity := [];
    var x := 0;
    ghost var k := 0;
    while x < width
      invariant 0 <= k == |activity| <= SampleCount(0, width, columnStep) && x == k * columnStep
      invariant forall i :: 0 <= i < k ==> activity[i] == ColumnShare(pixels, width, top, height, step, i * columnStep)
    {
      SampleInRange(0, width, columnStep, k);
      var active, samples := SampleColumn(pixels, width, height, top, step, x);
      activity := activity + [Ratio(active, samples)];
      assert (k + 1) * columnStep == k * columnStep + columnStep;
      x, k := x + columnStep, k + 1;
    }
    SampleInRange(0, width, columnStep, k);
  }

  method MeasurePixels(width: nat, height: nat, pixels: seq<Pixel>) returns (m: Measures)
    requires Matches(width, height, pixels)
    ensures m == Measure(width, height, pixels)
  {
    SampleCounts(width, height, pixels);
    var top := Top(height);
    var viewportHeight := height - top;
    var rows := SampleRows(pixels, width, height, top, Stride(viewportHeight, 120));
    var occupied := Above(rows, 0.035);
    var void := ComputeLongestFalseRun(occupied);
    var columns := SampleColumns(pixels, width, height, top, Stride(viewportHeight, 160), Stride(width, 120));
    m := MeasuresOf(Content(pixels, width, height), occupied, void, columns);
  }

  method AnalyzePixels(width: int, height: int, pixels: seq<Pixel>) returns (r: Result<Report, AnalysisError>)
    ensures r == Analyze(width, height, pixels)
  {
    if width <= 0 || height <= 0 || |pixels| != width * height {
      return Err(DimensionsDoNotMatch);
    }
    var m := MeasurePixels(width, height, pixels);
    return Ok(ReportOf(width, height, m));
  }
}
