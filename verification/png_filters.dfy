/**
  The row filters of the capture reader (section 6 of RFC 2083): filtering and unfiltering of rows
  and of whole rasters are inverse to each other, for every filter type per row.
 */
module PngFilters {
  import opened Bytes
  import opened Outcomes

  datatype RasterError = TruncatedRaster | UnsupportedFilter(filterType: nat)

  /** The prediction of a byte from the bytes to its left, above it and above to the left. */
  type Predictor = (Byte, Byte, Byte) -> Byte

  function Abs(x: int): nat {
    if x < 0 then -x else x
  }

  /** The Paeth predictor as section 6.6 of RFC 2083 defines it. */
  function Paeth(left: Byte, above: Byte, upperLeft: Byte): Byte {
    var p := left as int + above as int - upperLeft as int;
    var pa, pb, pc := Abs(p - left as int), Abs(p - above as int), Abs(p - upperLeft as int);
    if pa <= pb && pa <= pc then left else if pb <= pc then above else upperLeft
  }

  function PredictorFor(filter: Byte): Predictor
    requires filter <= 4
  {
    if filter == 0 then (left, above, upperLeft) => 0
    else if filter == 1 then (left, above, upperLeft) => left
    else if filter == 2 then (left, above, upperLeft) => above
    else if filter == 3 then (left, above, upperLeft) => ((left as int + above as int) / 2) as Byte
    else (left, above, upperLeft) => Paeth(left, above, upperLeft)
  }

  /** A byte of a row, 0 to the left of it. */
  function At(row: ByteString, i: int): Byte {
    if 0 <= i < |row| then row[i] else 0
  }

  /** The prediction for byte `i` of `row`, which looks only at earlier bytes of it and at the row above. */
  function Prediction(predict: Predictor, row: ByteString, previous: ByteString, channels: nat, i: nat): Byte {
    predict(At(row, i - channels), At(previous, i), At(previous, i - channels))
  }

  /** What a writer stores for `row`: each byte minus its prediction, modulo 256. */
  function FilterRow(predict: Predictor, row: ByteString, previous: ByteString, channels: nat): (stored: ByteString)
    ensures |stored| == |row|
  {
    seq(|row|, i requires 0 <= i < |row| => Minus(row[i], Prediction(predict, row, previous, channels, i)))
  }

  /** The first `n` bytes reconstructed from `source`, each from the ones before it. */
  function Reconstruct(predict: Predictor, source: ByteString, previous: ByteString, channels: nat, n: nat)
    : (row: ByteString)
    requires n <= |source|
    ensures |row| == n
  {
    if n == 0 then []
    else
      var done := Reconstruct(predict, source, previous, channels, n - 1);
      done + [Plus(source[n - 1], Prediction(predict, done, previous, channels, n - 1))]
  }

  // ---------------------------------------------------------------------------------------------
  // One row

  lemma PredictionLocal(predict: Predictor, row: ByteString, row': ByteString, previous: ByteString, channels: nat,
                        i: nat)
    requires 0 < channels && i <= |row| && i <= |row'| && row[..i] == row'[..i]
    ensures Prediction(predict, row, previous, channels, i) == Prediction(predict, row', previous, channels, i)
  {
    if channels <= i {
      assert row[..i][i - channels] == row'[..i][i - channels];
    }
  }

  lemma {:induction false} ReconstructPrefix(predict: Predictor, source: ByteString, previous: ByteString,
                                             channels: nat, n: nat, m: nat)
    requires n <= m <= |source|
    ensures Reconstruct(predict, source, previous, channels, m)[..n]
            == Reconstruct(predict, source, previous, channels, n)
  {
    if n < m {
      ReconstructPrefix(predict, source, previous, channels, n, m - 1);
      var done := Reconstruct(predict, source, previous, channels, m - 1);
      assert Reconstruct(predict, source, previous, channels, m)[..n] == done[..n];
    }
  }

  /** Unfiltering undoes filtering. */
  lemma {:induction false} ReconstructFiltered(predict: Predictor, row: ByteString, previous: ByteString,
                                               channels: nat, n: nat)
    requires 0 < channels && n <= |row|
    ensures Reconstruct(predict, FilterRow(predict, row, previous, channels), previous, channels, n) == row[..n]
  {
    if n > 0 {
      var i := n - 1;
      ReconstructFiltered(predict, row, previous, channels, i);
      PredictionLocal(predict, row[..i], row, previous, channels, i);
      RestoredByte(predict, row, previous, channels, i);
      ReconstructOne(predict, FilterRow(predict, row, previous, channels), row, previous, channels, i);
    }
  }

  lemma ReconstructOne(predict: Predictor, source: ByteString, row: ByteString, previous: ByteString, channels: nat,
                       i: nat)
    requires i < |row| == |source| && Reconstruct(predict, source, previous, channels, i) == row[..i]
    requires Plus(source[i], Prediction(predict, row[..i], previous, channels, i)) == row[i]
    ensures Reconstruct(predict, source, previous, channels, i + 1) == row[..i + 1]
  {
    assert row[..i + 1] == row[..i] + [row[i]];
  }

  lemma RestoredByte(predict: Predictor, row: ByteString, previous: ByteString, channels: nat, i: nat)
    requires i < |row|
    ensures Plus(FilterRow(predict, row, previous, channels)[i], Prediction(predict, row, previous, channels, i))
            == row[i]
  {
  }

  /** Filtering undoes unfiltering: a stored row is the only one that yields its reconstruction. */
  lemma FilterReconstructed(predict: Predictor, source: ByteString, previous: ByteString, channels: nat)
    requires 0 < channels
    ensures FilterRow(predict, Reconstruct(predict, source, previous, channels, |source|), previous, channels) == source
  {
    var row := Reconstruct(predict, source, previous, channels, |source|);
    forall i | 0 <= i < |source|
      ensures FilterRow(predict, row, previous, channels)[i] == source[i]
    {
      FilterReconstructedAt(predict, source, previous, channels, i);
    }
  }

  lemma FilterReconstructedAt(predict: Predictor, source: ByteString, previous: ByteString, channels: nat, i: nat)
    requires 0 < channels && i < |source|
    ensures FilterRow(predict, Reconstruct(predict, source, previous, channels, |source|), previous, channels)[i]
            == source[i]
  {
    var row := Reconstruct(predict, source, previous, channels, |source|);
    var done := Reconstruct(predict, source, previous, channels, i);
    ReconstructPrefix(predict, source, previous, channels, i, |source|);
    ReconstructPrefix(predict, source, previous, channels, i + 1, |source|);
    assert row[..i + 1][i] == row[i];
    PredictionLocal(predict, done, row, previous, channels, i);
    MinusPlus(source[i], Prediction(predict, done, previous, channels, i));
  }

  /** What the reader makes of one stored row. A short row is padded; an empty one is never looked at. */
  function UnfilterRow(filter: Byte, source: ByteString, previous: ByteString, channels: nat)
    : Result<ByteString, RasterError>
  {
    if source == [] then Ok(Zeros(|previous|))
    else if filter > 4 then Err(UnsupportedFilter(filter as nat))
    else
      var row := Reconstruct(PredictorFor(filter), source, previous, channels, |source|);
      Ok(row + Zeros(if |source| <= |previous| then |previous| - |source| else 0))
  }

  /** The reader's inner loop, on the row buffer it fills in place. */
  method ReadRow(filter: Byte, source: ByteString, previous: ByteString, channels: nat)
    returns (r: Result<ByteString, RasterError>)
    requires 0 < channels && |source| <= |previous|
    ensures r == UnfilterRow(filter, source, previous, channels)
    ensures r.Ok? ==> |r.value| == |previous|
  {
    var stride := |previous|;
    var row := new Byte[stride](_ => 0);
    ghost var predict: Predictor := if filter <= 4 then PredictorFor(filter) else PredictorFor(0);
    for index := 0 to |source|
      invariant filter <= 4 || index == 0
      invariant row[..index] == Reconstruct(predict, source, previous, channels, index)
      invariant forall i :: index <= i < stride ==> row[i] == 0
    {
      var left := if index >= channels then row[index - channels] else 0;
      var above := previous[index];
      var upperLeft := if index >= channels then previous[index - channels] else 0;
      if filter > 4 {
        return Err(UnsupportedFilter(filter as nat));
      }
      ghost var done := row[..index];
      var byte := ReadByte(filter, source[index], left, above, upperLeft);
      NeighboursPredict(predict, done, previous, channels);
      row[index] := byte;
      assert row[..index + 1] == done + [byte];
    }
    assert row[..] == row[..|source|] + Zeros(stride - |source|);
    return Ok(row[..]);
  }

  /** The branches on the filter type. */
  method ReadByte(filter: Byte, value: Byte, left: Byte, above: Byte, upperLeft: Byte) returns (byte: Byte)
    requires filter <= 4
    ensures byte == Plus(value, PredictorFor(filter)(left, above, upperLeft))
  {
    var predictor := PredictByte(filter, left, above, upperLeft);
    byte := ((value as int + predictor as int) % 256) as Byte;
  }

  lemma NeighboursPredict(predict: Predictor, done: ByteString, previous: ByteString, channels: nat)
    requires 0 < channels && |done| < |previous|
    ensures var i := |done|;
            Prediction(predict, done, previous, channels, i)
            == predict(if i >= channels then done[i - channels] else 0, previous[i],
                       if i >= channels then previous[i - channels] else 0)
  {
  }

  method PredictByte(filter: Byte, left: Byte, above: Byte, upperLeft: Byte) returns (predictor: Byte)
    requires filter <= 4
    ensures predictor == PredictorFor(filter)(left, above, upperLeft)
  {
    if filter == 0 {
      predictor := 0;
    } else if filter == 1 {
      predictor := left;
    } else if filter == 2 {
      predictor := above;
    } else if filter == 3 {
      predictor := ((left as int + above as int) / 2) as Byte;
    } else {
      var estimate := left as int + above as int - upperLeft as int;
      predictor := FirstNearest(estimate, left, above, upperLeft);
    }
  }

  /** The candidate at `distances.index(min(distances))`. */
  method FirstNearest(estimate: int, left: Byte, above: Byte, upperLeft: Byte) returns (p: Byte)
    ensures p == left || p == above || p == upperLeft
    ensures forall q | q in [left, above, upperLeft] :: Abs(estimate - p as int) <= Abs(estimate - q as int)
    ensures estimate == left as int + above as int - upperLeft as int ==> p == Paeth(left, above, upperLeft)
  {
    var candidates := [left, above, upperLeft];
    var distances := [Abs(estimate - left as int), Abs(estimate - above as int), Abs(estimate - upperLeft as int)];
    var pa, pb, pc := distances[0], distances[1], distances[2];
    var best := FirstLeast(distances);
    p := candidates[best];
    assert best > 0 ==> distances[best] < pa;
    assert best > 1 ==> distances[best] < pb;
    if estimate == left as int + above as int - upperLeft as int {
      PaethByDistance(left, above, upperLeft, pa, pb, pc);
    }
  }

  /** `distances.index(min(distances))`. */
  method FirstLeast(distances: seq<nat>) returns (best: nat)
    requires distances != []
    ensures best < |distances|
    ensures forall j :: 0 <= j < |distances| ==> distances[best] <= distances[j]
    ensures forall j :: 0 <= j < best ==> distances[best] < distances[j]
  {
    best := 0;
    for k := 1 to |distances|
      invariant 0 <= best < k
      invariant forall j :: 0 <= j < k ==> distances[best] <= distances[j]
      invariant forall j :: 0 <= j < best ==> distances[best] < distances[j]
    {
      if distances[k] < distances[best] {
        best := k;
      }
    }
  }

  lemma PaethByDistance(left: Byte, above: Byte, upperLeft: Byte, pa: nat, pb: nat, pc: nat)
    requires var estimate := left as int + above as int - upperLeft as int;
             && pa == Abs(estimate - left as int) && pb == Abs(estimate - above as int)
             && pc == Abs(estimate - upperLeft as int)
    ensures Paeth(left, above, upperLeft)
            == if pa <= pb && pa <= pc then left else if pb <= pc then above else upperLeft
  {
  }

  // ---------------------------------------------------------------------------------------------
  // The decoded bytes

  function Gap(x: int, y: int): nat {
    if x < y then y - x else x - y
  }

  /** `p` is the first of `l`, `a` and `u` that is nearest to `l + a - u`. */
  predicate IsFirstNearest(l: Byte, a: Byte, u: Byte, p: Byte) {
    var e := l as int + a as int - u as int;
    var dl, da, du := Gap(e, l as int), Gap(e, a as int), Gap(e, u as int);
    || (p == l && dl <= da && dl <= du)
    || (p == a && da < dl && da <= du)
    || (p == u && du < dl && du < da)
  }

  /** What a stored byte becomes, given the byte to the left, the one above and the one above that. */
  predicate IsDecodedByte(filter: Byte, stored: Byte, l: Byte, a: Byte, u: Byte, decoded: Byte) {
    && (filter == 0 ==> decoded == stored)
    && (filter == 1 ==> decoded as int == (stored as int + l as int) % 256)
    && (filter == 2 ==> decoded as int == (stored as int + a as int) % 256)
    && (filter == 3 ==> decoded as int == (stored as int + (l as int + a as int) / 2) % 256)
    && (filter == 4 ==> exists p :: IsFirstNearest(l, a, u, p) && decoded as int == (stored as int + p as int) % 256)
  }

  lemma PredictedByte(filter: Byte, stored: Byte, l: Byte, a: Byte, u: Byte)
    requires filter <= 4
    ensures IsDecodedByte(filter, stored, l, a, u, Plus(stored, PredictorFor(filter)(l, a, u)))
  {
    if filter == 4 {
      assert IsFirstNearest(l, a, u, Paeth(l, a, u));
    }
  }

  lemma ReconstructedAt(predict: Predictor, source: ByteString, previous: ByteString, channels: nat, i: nat)
    requires 0 < channels && i < |source| <= |previous|
    ensures var row := Reconstruct(predict, source, previous, channels, |source|);
            row[i] == Plus(source[i], predict(if i >= channels then row[i - channels] else 0, previous[i],
                                              if i >= channels then previous[i - channels] else 0))
  {
    var row := Reconstruct(predict, source, previous, channels, |source|);
    var done := Reconstruct(predict, source, previous, channels, i);
    ReconstructPrefix(predict, source, previous, channels, i, |source|);
    ReconstructPrefix(predict, source, previous, channels, i + 1, |source|);
    assert row[..i + 1][i] == row[i];
    NeighboursPredict(predict, done, previous, channels);
    assert i >= channels ==> row[..i][i - channels] == row[i - channels];
  }

  /** Every decoded byte of a row, by its filter type; where no byte is stored there is a zero. */
  lemma DecodedBytes(filter: Byte, source: ByteString, previous: ByteString, channels: nat, i: nat)
    requires 0 < channels && filter <= 4 && |source| <= |previous| && i < |previous|
    ensures var r := UnfilterRow(filter, source, previous, channels);
            && r.Ok? && |r.value| == |previous|
            && (i >= |source| ==> r.value[i] == 0)
            && (i < |source| ==>
                  IsDecodedByte(filter, source[i], if i >= channels then r.value[i - channels] else 0, previous[i],
                                if i >= channels then previous[i - channels] else 0, r.value[i]))
  {
    if source != [] && i < |source| {
      var row := Reconstruct(PredictorFor(filter), source, previous, channels, |source|);
      ReconstructedAt(PredictorFor(filter), source, previous, channels, i);
      PredictedByte(filter, source[i], if i >= channels then row[i - channels] else 0, previous[i],
                    if i >= channels then previous[i - channels] else 0);
    }
  }

  // ---------------------------------------------------------------------------------------------
  // Rasters, over any way of encoding and decoding a row

  type RowDecoder = (Byte, ByteString, ByteString) -> Result<ByteString, RasterError>
  type RowEncoder = (Byte, ByteString, ByteString) -> ByteString

  function Decoder(channels: nat): RowDecoder {
    (filter: Byte, source: ByteString, previous: ByteString) => UnfilterRow(filter, source, previous, channels)
  }

  function Encoder(channels: nat): RowEncoder {
    (filter: Byte, row: ByteString, previous: ByteString) =>
      if filter > 4 then [] else FilterRow(PredictorFor(filter), row, previous, channels)
  }

  ghost predicate DecodesWhatIsEncoded(decode: RowDecoder, encode: RowEncoder, stride: nat) {
    forall filter, row, previous | filter <= 4 && |row| == |previous| == stride ::
      |encode(filter, row, previous)| == stride && decode(filter, encode(filter, row, previous), previous) == Ok(row)
  }

  ghost predicate EncodesWhatIsDecoded(decode: RowDecoder, encode: RowEncoder, stride: nat) {
    forall filter, source, previous | |source| == |previous| == stride && decode(filter, source, previous).Ok? ::
      var row := decode(filter, source, previous).value;
      |row| == stride && encode(filter, row, previous) == source
  }

  /**
    A row is read exactly if it has no stored byte or a supported filter type, and then has the length of the one
    above.
   */
  ghost predicate ReadsStored(decode: RowDecoder) {
    forall filter, source, previous | |source| <= |previous| ::
      && (decode(filter, source, previous).Ok? <==> source == [] || filter <= 4)
      && (decode(filter, source, previous).Ok? ==> |decode(filter, source, previous).value| == |previous|)
  }

  lemma RowRoundTrip(channels: nat, stride: nat)
    requires 0 < channels
    ensures DecodesWhatIsEncoded(Decoder(channels), Encoder(channels), stride)
  {
    forall filter: Byte, row: ByteString, previous: ByteString | filter <= 4 && |row| == |previous| == stride
      ensures |Encoder(channels)(filter, row, previous)| == stride
      ensures Decoder(channels)(filter, Encoder(channels)(filter, row, previous), previous) == Ok(row)
    {
      ReconstructFiltered(PredictorFor(filter), row, previous, channels, |row|);
      assert row[..|row|] + Zeros(0) == row;
    }
  }

  lemma RowRoundTripBack(channels: nat, stride: nat)
    requires 0 < channels
    ensures EncodesWhatIsDecoded(Decoder(channels), Encoder(channels), stride)
  {
    forall filter: Byte, source: ByteString, previous: ByteString
      | |source| == |previous| == stride && Decoder(channels)(filter, source, previous).Ok?
      ensures var row := Decoder(channels)(filter, source, previous).value;
              |row| == stride && Encoder(channels)(filter, row, previous) == source
    {
      EncodeDecoded(filter, source, previous, channels);
    }
  }

  lemma EncodeDecoded(filter: Byte, source: ByteString, previous: ByteString, channels: nat)
    requires 0 < channels && |source| == |previous| && UnfilterRow(filter, source, previous, channels).Ok?
    ensures var row := UnfilterRow(filter, source, previous, channels).value;
            |row| == |source| && Encoder(channels)(filter, row, previous) == source
  {
    if source != [] {
      var row := Reconstruct(PredictorFor(filter), source, previous, channels, |source|);
      assert row + Zeros(0) == row;
      FilterReconstructed(PredictorFor(filter), source, previous, channels);
    }
  }

  /** The row decoder refuses a filter type exactly if it is above 4 and the row has a stored byte. */
  lemma RowReadExactly(channels: nat)
    ensures ReadsStored(Decoder(channels))
  {
  }

  function Prepend(rows: seq<ByteString>, r: Result<seq<ByteString>, RasterError>)
    : Result<seq<ByteString>, RasterError>
  {
    if r.Ok? then Ok(rows + r.value) else r
  }

  /** The next `height` rows of the inflated raster `raw` from `cursor` on, given the row above them. */
  function UnfilterRows(decode: RowDecoder, raw: ByteString, cursor: nat, height: nat, previous: ByteString)
    : Result<seq<ByteString>, RasterError>
    decreases height
  {
    if height == 0 then Ok([])
    else if cursor >= |raw| then Err(TruncatedRaster)
    else
      var row := decode(raw[cursor], Slice(raw, cursor + 1, cursor + 1 + |previous|), previous);
      if row.Err? then Err(row.error)
      else Prepend([row.value], UnfilterRows(decode, raw, cursor + |previous| + 1, height - 1, row.value))
  }

  lemma PrependTwice(rows: seq<ByteString>, row: ByteString, r: Result<seq<ByteString>, RasterError>)
    ensures Prepend(rows, Prepend([row], r)) == Prepend(rows + [row], r)
    ensures Prepend([], r) == r
  {
    if r.Ok? {
      assert rows + ([row] + r.value) == rows + [row] + r.value;
      assert [] + r.value == r.value;
    }
  }

  /** `rows[-1] if rows else bytearray(stride)`. */
  function Above(rows: seq<ByteString>, stride: nat): ByteString {
    if rows == [] then Zeros(stride) else rows[|rows| - 1]
  }

  /** The rows read so far, followed by those still to come from `cursor` on. */
  function Pending(decode: RowDecoder, raw: ByteString, cursor: nat, height: nat, stride: nat, rows: seq<ByteString>)
    : Result<seq<ByteString>, RasterError>
  {
    Prepend(rows, UnfilterRows(decode, raw, cursor, height, Above(rows, stride)))
  }

  /** One turn of the row loop. */
  lemma RowStep(decode: RowDecoder, raw: ByteString, cursor: nat, next: nat, height: nat, left: nat, stride: nat,
                rows: seq<ByteString>, row: Result<ByteString, RasterError>)
    requires cursor < |raw| && next == cursor + stride + 1 && height == left + 1 && |Above(rows, stride)| == stride
    requires row == decode(raw[cursor], Slice(raw, cursor + 1, cursor + 1 + stride), Above(rows, stride))
    ensures row.Err? ==> Pending(decode, raw, cursor, height, stride, rows) == Err(row.error)
    ensures !row.Err? ==> Pending(decode, raw, cursor, height, stride, rows) ==
                          Pending(decode, raw, next, left, stride, rows + [row.value])
  {
    if row.Ok? {
      PrependTwice(rows, row.value, UnfilterRows(decode, raw, next, left, row.value));
    }
  }

  method ReadRows(raw: ByteString, height: nat, stride: nat, channels: nat)
    returns (r: Result<seq<ByteString>, RasterError>)
    requires 0 < channels
    ensures r == UnfilterRows(Decoder(channels), raw, 0, height, Zeros(stride))
  {
    var rows: seq<ByteString> := [];
    var cursor := 0;
    PrependTwice([], [], UnfilterRows(Decoder(channels), raw, 0, height, Zeros(stride)));
    ghost var whole := Pending(Decoder(channels), raw, 0, height, stride, []);
    ghost var left: nat := height;
    for y := 0 to height
      invariant 0 <= cursor && |rows| == y && |Above(rows, stride)| == stride
      invariant left == height - y
      invariant whole == Pending(Decoder(channels), raw, cursor, left, stride, rows)
    {
      var previous := Above(rows, stride);
      if cursor >= |raw| {
        return Err(TruncatedRaster);
      }
      var filterType := raw[cursor];
      var source := Slice(raw, cursor + 1, cursor + 1 + stride);
      var row := ReadRow(filterType, source, previous, channels);
      ghost var start, before := cursor, left;
      cursor, left := cursor + stride + 1, left - 1;
      RowStep(Decoder(channels), raw, start, cursor, before, left, stride, rows, row);
      if row.Err? {
        return Err(row.error);
      }
      rows := rows + [row.value];
    }
    assert rows + [] == rows;
    return Ok(rows);
  }

  predicate Supported(filters: ByteString) {
    forall i :: 0 <= i < |filters| ==> filters[i] <= 4
  }

  predicate Uniform(rows: seq<ByteString>, stride: nat) {
    forall y :: 0 <= y < |rows| ==> |rows[y]| == stride
  }

  /** The raster a writer compresses: each row behind the filter type it chose. */
  function FilterRows(encode: RowEncoder, rows: seq<ByteString>, filters: ByteString, previous: ByteString): ByteString
    requires |filters| == |rows|
  {
    if rows == [] then []
    else [filters[0]] + encode(filters[0], rows[0], previous) + FilterRows(encode, rows[1..], filters[1..], rows[0])
  }

  lemma CutRow(before: ByteString, filter: Byte, stored: ByteString, tail: ByteString, slack: ByteString)
    ensures var raw := before + ([filter] + stored + tail) + slack;
            && |before| < |raw| && raw[|before|] == filter
            && Slice(raw, |before| + 1, |before| + 1 + |stored|) == stored
            && raw == (before + ([filter] + stored)) + tail + slack
  {
    var raw := before + ([filter] + stored + tail) + slack;
    assert Slice(raw, |before| + 1, |before| + 1 + |stored|) == stored;
  }

  lemma {:induction false} UnfilterFilterRows(decode: RowDecoder, encode: RowEncoder, raw: ByteString,
                                              before: ByteString, rows: seq<ByteString>, filters: ByteString,
                                              previous: ByteString, slack: ByteString)
    requires DecodesWhatIsEncoded(decode, encode, |previous|)
    requires |filters| == |rows| && Supported(filters) && Uniform(rows, |previous|)
    requires raw == before + FilterRows(encode, rows, filters, previous) + slack
    ensures UnfilterRows(decode, raw, |before|, |rows|, previous) == Ok(rows)
    decreases |rows|
  {
    if rows != [] {
      var filter, stored, rest := filters[0], encode(filters[0], rows[0], previous), rows[1..];
      var tail := FilterRows(encode, rest, filters[1..], rows[0]);
      var done := before + ([filter] + stored);
      CutRow(before, filter, stored, tail, slack);
      UnfilterFilterRows(decode, encode, raw, done, rest, filters[1..], rows[0], slack);
      UnfilterCons(decode, raw, |before|, |done|, |rows|, |rest|, previous, rows[0], rest);
      assert [rows[0]] + rest == rows;
    }
  }

  lemma UnfilterCons(decode: RowDecoder, raw: ByteString, cursor: nat, next: nat, height: nat, left: nat,
                     previous: ByteString, row: ByteString, rest: seq<ByteString>)
    requires cursor < |raw| && next == cursor + |previous| + 1 && height == left + 1
    requires decode(raw[cursor], Slice(raw, cursor + 1, cursor + 1 + |previous|), previous) == Ok(row)
    requires UnfilterRows(decode, raw, next, left, row) == Ok(rest)
    ensures UnfilterRows(decode, raw, cursor, height, previous) == Ok([row] + rest)
  {
  }

  /** From `cursor` on, `raw` holds exactly `height` rows of `stride` bytes, each behind its filter byte. */
  predicate FullRaster(raw: ByteString, cursor: nat, height: nat, stride: nat)
    decreases height
  {
    if height == 0 then cursor == |raw|
    else cursor + stride + 1 <= |raw| && FullRaster(raw, cursor + stride + 1, height - 1, stride)
  }

  lemma {:induction false} FullRasterLength(raw: ByteString, cursor: nat, height: nat, stride: nat)
    ensures FullRaster(raw, cursor, height, stride) <==> |raw| == cursor + height * (stride + 1)
    decreases height
  {
    if height > 0 {
      assert height * (stride + 1) == (height - 1) * (stride + 1) + (stride + 1);
      assert (height - 1) * (stride + 1) >= 0;
      FullRasterLength(raw, cursor + stride + 1, height - 1, stride);
    }
  }

  function FilterTypes(raw: ByteString, cursor: nat, height: nat, stride: nat): (filters: ByteString)
    requires FullRaster(raw, cursor, height, stride)
    ensures |filters| == height
    decreases height
  {
    if height == 0 then [] else [raw[cursor]] + FilterTypes(raw, cursor + stride + 1, height - 1, stride)
  }

  lemma {:induction false} FullRasterBound(raw: ByteString, cursor: nat, height: nat, stride: nat)
    requires FullRaster(raw, cursor, height, stride)
    ensures cursor <= |raw|
    decreases height
  {
    if height > 0 {
      FullRasterBound(raw, cursor + stride + 1, height - 1, stride);
    }
  }

  /** The other direction: filtering the rows read from a full raster gives the raster back. */
  lemma {:induction false} FilterUnfilterRows(decode: RowDecoder, encode: RowEncoder, raw: ByteString, cursor: nat,
                                              height: nat, previous: ByteString, rows: seq<ByteString>)
    requires EncodesWhatIsDecoded(decode, encode, |previous|)
    requires FullRaster(raw, cursor, height, |previous|)
    requires UnfilterRows(decode, raw, cursor, height, previous) == Ok(rows)
    ensures var filters := FilterTypes(raw, cursor, height, |previous|);
            && |rows| == height && cursor <= |raw|
            && FilterRows(encode, rows, filters, previous) == raw[cursor..]
    decreases height
  {
    if height > 0 {
      var stride := |previous|;
      var next := cursor + stride + 1;
      var left := height - 1;
      FullRasterBound(raw, next, left, stride);
      UnfilterUncons(decode, raw, cursor, next, height, left, previous, rows);
      FilterUnfilterRows(decode, encode, raw, next, left, rows[0], rows[1..]);
      FilterTypesCons(raw, cursor, next, height, left, stride);
      FilterRowsCons(encode, raw[cursor], FilterTypes(raw, next, left, stride), rows, previous);
      JoinRow(raw, cursor, next, stride);
    }
  }

  lemma FilterTypesCons(raw: ByteString, cursor: nat, next: nat, height: nat, left: nat, stride: nat)
    requires FullRaster(raw, cursor, height, stride) && next == cursor + stride + 1 && height == left + 1
    ensures cursor < |raw| && FullRaster(raw, next, left, stride)
    ensures FilterTypes(raw, cursor, height, stride) == [raw[cursor]] + FilterTypes(raw, next, left, stride)
  {
  }

  lemma UnfilterUncons(decode: RowDecoder, raw: ByteString, cursor: nat, next: nat, height: nat, left: nat,
                       previous: ByteString, rows: seq<ByteString>)
    requires cursor < |raw| && next == cursor + |previous| + 1 && height == left + 1
    requires UnfilterRows(decode, raw, cursor, height, previous) == Ok(rows)
    ensures rows != [] && UnfilterRows(decode, raw, next, left, rows[0]) == Ok(rows[1..])
    ensures decode(raw[cursor], Slice(raw, cursor + 1, cursor + 1 + |previous|), previous) == Ok(rows[0])
  {
  }

  lemma FilterRowsCons(encode: RowEncoder, filter: Byte, filters: ByteString, rows: seq<ByteString>,
                       previous: ByteString)
    requires |rows| == |filters| + 1
    ensures FilterRows(encode, rows, [filter] + filters, previous)
         == [filter] + encode(filter, rows[0], previous) + FilterRows(encode, rows[1..], filters, rows[0])
  {
    assert ([filter] + filters)[1..] == filters;
  }

  lemma JoinRow(raw: ByteString, cursor: nat, next: nat, stride: nat)
    requires next == cursor + stride + 1 <= |raw|
    ensures raw[cursor..] == [raw[cursor]] + Slice(raw, cursor + 1, cursor + 1 + stride) + raw[next..]
  {
  }

  /** Bytes after a full raster change nothing in what is read. */
  lemma {:induction false} SlackIgnored(decode: RowDecoder, raw: ByteString, longer: ByteString, cursor: nat,
                                        height: nat, previous: ByteString)
    requires ReadsStored(decode) && raw <= longer && FullRaster(raw, cursor, height, |previous|)
    ensures UnfilterRows(decode, longer, cursor, height, previous)
            == UnfilterRows(decode, raw, cursor, height, previous)
    decreases height
  {
    if height > 0 {
      var stride := |previous|;
      var next, left := cursor + stride + 1, height - 1;
      FullRasterBound(raw, next, left, stride);
      var source := Slice(raw, cursor + 1, cursor + 1 + stride);
      assert Slice(longer, cursor + 1, cursor + 1 + stride) == source && |source| == stride;
      var row := decode(raw[cursor], source, previous);
      UnfilterStep(decode, raw, cursor, next, height, left, previous, source, row);
      UnfilterStep(decode, longer, cursor, next, height, left, previous, source, row);
      if row.Ok? {
        SlackIgnored(decode, raw, longer, next, left, row.value);
      }
    }
  }

  lemma UnfilterStep(decode: RowDecoder, raw: ByteString, cursor: nat, next: nat, height: nat, left: nat,
                     previous: ByteString, source: ByteString, row: Result<ByteString, RasterError>)
    requires cursor < |raw| && next == cursor + |previous| + 1 && height == left + 1
    requires source == Slice(raw, cursor + 1, cursor + 1 + |previous|) && row == decode(raw[cursor], source, previous)
    ensures UnfilterRows(decode, raw, cursor, height, previous)
            == if row.Err? then Err(row.error)
               else Prepend([row.value], UnfilterRows(decode, raw, next, left, row.value))
  {
  }

  /**
    With the reader's own row codec: a raster that is long enough starts with the filtering of the rows that are
    read from it.
   */
  lemma RefilterRaster(full: ByteString, raw: ByteString, height: nat, stride: nat, channels: nat,
                       rows: seq<ByteString>)
    requires 0 < channels && full <= raw && |full| == height * (stride + 1)
    requires UnfilterRows(Decoder(channels), raw, 0, height, Zeros(stride)) == Ok(rows)
    ensures FullRaster(full, 0, height, stride) && |rows| == height
    ensures FilterRows(Encoder(channels), rows, FilterTypes(full, 0, height, stride), Zeros(stride)) == full
  {
    FullRasterLength(full, 0, height, stride);
    RefilterFull(full, raw, height, stride, channels, rows);
  }

  lemma RefilterFull(full: ByteString, raw: ByteString, height: nat, stride: nat, channels: nat,
                     rows: seq<ByteString>)
    requires 0 < channels && full <= raw && FullRaster(full, 0, height, stride)
    requires UnfilterRows(Decoder(channels), raw, 0, height, Zeros(stride)) == Ok(rows)
    ensures |rows| == height
    ensures FilterRows(Encoder(channels), rows, FilterTypes(full, 0, height, stride), Zeros(stride)) == full
  {
    RowReadExactly(channels);
    SlackIgnored(Decoder(channels), full, raw, 0, height, Zeros(stride));
    RowRoundTripBack(channels, stride);
    FilterUnfilterRows(Decoder(channels), Encoder(channels), full, 0, height, Zeros(stride), rows);
  }

  // ---------------------------------------------------------------------------------------------
  // Which rasters are read

  /** The filter byte of a row that passes: a supported type, or one that no stored byte follows. */
  predicate Passes(raw: ByteString, at: nat, stride: nat) {
    at < |raw| && (raw[at] <= 4 || stride == 0 || at + 1 == |raw|)
  }

  predicate Readable(raw: ByteString, cursor: nat, height: nat, stride: nat)
    decreases height
  {
    height == 0 || (Passes(raw, cursor, stride) && Readable(raw, cursor + stride + 1, height - 1, stride))
  }

  /** A raster is read exactly if the filter bytes of all its rows are there and pass. */
  lemma {:induction false} RasterReadExactly(decode: RowDecoder, raw: ByteString, cursor: nat, height: nat,
                                             previous: ByteString)
    requires ReadsStored(decode)
    ensures UnfilterRows(decode, raw, cursor, height, previous).Ok? <==> Readable(raw, cursor, height, |previous|)
    decreases height
  {
    if height > 0 && cursor < |raw| {
      var stride := |previous|;
      var source := Slice(raw, cursor + 1, cursor + 1 + stride);
      var row := decode(raw[cursor], source, previous);
      RowPasses(decode, raw, cursor, previous, source, row);
      if row.Ok? {
        RasterReadExactly(decode, raw, cursor + stride + 1, height - 1, row.value);
      }
    }
  }

  /** Where row `y` starts. */
  function RowStart(cursor: nat, y: nat, stride: nat): nat {
    cursor + y * (stride + 1)
  }

  lemma NextRowStart(cursor: nat, next: nat, y: nat, stride: nat)
    requires next == cursor + stride + 1 && 0 < y
    ensures RowStart(next, y - 1, stride) == RowStart(cursor, y, stride)
  {
    assert y * (stride + 1) == (y - 1) * (stride + 1) + (stride + 1);
  }

  /** The same row by row. */
  lemma {:induction false} ReadableRows(raw: ByteString, cursor: nat, height: nat, stride: nat)
    ensures Readable(raw, cursor, height, stride)
            <==> forall y: nat | y < height :: Passes(raw, RowStart(cursor, y, stride), stride)
    decreases height
  {
    if height > 0 {
      var next := cursor + stride + 1;
      assert RowStart(cursor, 0, stride) == cursor;
      ReadableRows(raw, next, height - 1, stride);
      forall y: nat | 0 < y < height
        ensures Passes(raw, RowStart(cursor, y, stride), stride) <==> Passes(raw, RowStart(next, y - 1, stride), stride)
      {
        NextRowStart(cursor, next, y, stride);
      }
      if forall y: nat | y < height :: Passes(raw, RowStart(cursor, y, stride), stride) {
        forall y: nat | y < height - 1
          ensures Passes(raw, RowStart(next, y, stride), stride)
        {
          assert Passes(raw, RowStart(cursor, y + 1, stride), stride);
        }
      }
    }
  }

  /** A decoder that names the filter type it refuses. */
  ghost predicate NamesRefused(decode: RowDecoder) {
    forall filter, source, previous | decode(filter, source, previous).Err? ::
      decode(filter, source, previous) == Err(UnsupportedFilter(filter as nat))
  }

  /** Row `y` is the first that does not pass: its filter byte is missing, or is unsupported. */
  ghost predicate FailsFirst(raw: ByteString, cursor: nat, stride: nat, y: nat, error: RasterError) {
    && (forall i: nat | i < y :: Passes(raw, RowStart(cursor, i, stride), stride))
    && var start := RowStart(cursor, y, stride);
       && !Passes(raw, start, stride)
       && error == if start < |raw| then UnsupportedFilter(raw[start] as nat) else TruncatedRaster
  }

  lemma FailsLater(raw: ByteString, cursor: nat, next: nat, stride: nat, y: nat, error: RasterError)
    requires next == cursor + stride + 1 && Passes(raw, cursor, stride) && FailsFirst(raw, next, stride, y, error)
    ensures FailsFirst(raw, cursor, stride, y + 1, error)
  {
    assert RowStart(cursor, 0, stride) == cursor;
    forall i: nat | i < y + 1
      ensures Passes(raw, RowStart(cursor, i, stride), stride)
    {
      if i > 0 {
        NextRowStart(cursor, next, i, stride);
      }
    }
    NextRowStart(cursor, next, y + 1, stride);
  }

  /** A raster is refused for the first row that does not pass. */
  lemma {:induction false} RasterRefused(decode: RowDecoder, raw: ByteString, cursor: nat, height: nat,
                                         previous: ByteString) returns (y: nat)
    requires ReadsStored(decode) && NamesRefused(decode)
    requires UnfilterRows(decode, raw, cursor, height, previous).Err?
    ensures y < height
    ensures FailsFirst(raw, cursor, |previous|, y, UnfilterRows(decode, raw, cursor, height, previous).error)
    decreases height
  {
    var stride := |previous|;
    y := 0;
    assert RowStart(cursor, 0, stride) == cursor;
    if cursor < |raw| {
      var next, left := cursor + stride + 1, height - 1;
      var source := Slice(raw, cursor + 1, cursor + 1 + stride);
      var row := decode(raw[cursor], source, previous);
      UnfilterStep(decode, raw, cursor, next, height, left, previous, source, row);
      RowPasses(decode, raw, cursor, previous, source, row);
      if row.Ok? {
        var k := RasterRefused(decode, raw, next, left, row.value);
        FailsLater(raw, cursor, next, stride, k, UnfilterRows(decode, raw, next, left, row.value).error);
        y := k + 1;
      }
    }
  }

  lemma RowPasses(decode: RowDecoder, raw: ByteString, cursor: nat, previous: ByteString, source: ByteString,
                  row: Result<ByteString, RasterError>)
    requires ReadsStored(decode) && cursor < |raw|
    requires source == Slice(raw, cursor + 1, cursor + 1 + |previous|) && row == decode(raw[cursor], source, previous)
    ensures row.Ok? <==> Passes(raw, cursor, |previous|)
    ensures row.Ok? ==> |row.value| == |previous|
  {
    assert |source| <= |previous| && (source == [] <==> |previous| == 0 || cursor + 1 == |raw|);
  }

  lemma DecoderNamesRefused(channels: nat)
    ensures NamesRefused(Decoder(channels))
  {
  }

  /** Whether the row that starts at a position, below a given row, is read as another. */
  type RowReading = (nat, ByteString, ByteString) -> bool

  /** A row as it is read, by the row above it and the bytes stored behind its filter byte. */
  predicate IsReadRow(decode: RowDecoder, raw: ByteString, start: nat, above: ByteString, row: ByteString) {
    start < |raw| && decode(raw[start], Slice(raw, start + 1, start + 1 + |above|), above) == Ok(row)
  }

  function Reading(decode: RowDecoder, raw: ByteString): RowReading {
    (start: nat, above: ByteString, row: ByteString) => IsReadRow(decode, raw, start, above, row)
  }

  predicate ReadInTurn(reading: RowReading, stride: nat, cursor: nat, above: ByteString, rows: seq<ByteString>)
    decreases |rows|
  {
    && |above| == stride
    && (rows != [] ==>
          reading(cursor, above, rows[0]) && ReadInTurn(reading, stride, cursor + stride + 1, rows[0], rows[1..]))
  }

  lemma {:induction false} ReadInTurnAt(reading: RowReading, stride: nat, cursor: nat, previous: ByteString,
                                        rows: seq<ByteString>, y: nat, start: nat)
    requires ReadInTurn(reading, stride, cursor, previous, rows)
    requires y < |rows| && start == RowStart(cursor, y, stride)
    ensures var above := if y == 0 then previous else rows[y - 1]; |above| == stride && reading(start, above, rows[y])
    decreases |rows|
  {
    if y > 0 {
      var next := cursor + stride + 1;
      NextRowStart(cursor, next, y, stride);
      ReadInTurnAt(reading, stride, next, rows[0], rows[1..], y - 1, start);
    }
  }

  lemma {:induction false} UnfilteredInTurn(decode: RowDecoder, raw: ByteString, cursor: nat, height: nat,
                                            previous: ByteString, rows: seq<ByteString>)
    requires ReadsStored(decode) && UnfilterRows(decode, raw, cursor, height, previous) == Ok(rows)
    ensures ReadInTurn(Reading(decode, raw), |previous|, cursor, previous, rows)
    decreases height
  {
    if height > 0 {
      var next, left := cursor + |previous| + 1, height - 1;
      FirstReadRow(decode, raw, cursor, next, height, left, previous, rows);
      UnfilteredInTurn(decode, raw, next, left, rows[0], rows[1..]);
    }
  }

  lemma FirstReadRow(decode: RowDecoder, raw: ByteString, cursor: nat, next: nat, height: nat, left: nat,
                     previous: ByteString, rows: seq<ByteString>)
    requires ReadsStored(decode) && UnfilterRows(decode, raw, cursor, height, previous) == Ok(rows)
    requires next == cursor + |previous| + 1 && height == left + 1
    ensures rows != [] && IsReadRow(decode, raw, cursor, previous, rows[0]) && |rows[0]| == |previous|
    ensures UnfilterRows(decode, raw, next, left, rows[0]) == Ok(rows[1..])
  {
    UnfilterUncons(decode, raw, cursor, next, height, left, previous, rows);
  }

  /** Row `y` is read by the one above it; above the first there are zeros. */
  predicate RowReadAt(raw: ByteString, stride: nat, channels: nat, rows: seq<ByteString>, y: nat)
    requires y < |rows|
  {
    var start, above := RowStart(0, y, stride), if y == 0 then Zeros(stride) else rows[y - 1];
    && |above| == stride && start < |raw|
    && UnfilterRow(raw[start], Slice(raw, start + 1, start + 1 + stride), above, channels) == Ok(rows[y])
  }

  ghost predicate RowsReadFrom(raw: ByteString, stride: nat, channels: nat, rows: seq<ByteString>) {
    forall y: nat | y < |rows| :: RowReadAt(raw, stride, channels, rows, y)
  }

  lemma ReadRowsFrom(channels: nat, stride: nat, raw: ByteString, height: nat, rows: seq<ByteString>)
    requires UnfilterRows(Decoder(channels), raw, 0, height, Zeros(stride)) == Ok(rows)
    ensures |rows| == height && RowsReadFrom(raw, stride, channels, rows)
  {
    RowCount(Decoder(channels), raw, 0, height, Zeros(stride), rows);
    RowReadExactly(channels);
    UnfilteredInTurn(Decoder(channels), raw, 0, height, Zeros(stride), rows);
    forall y: nat | y < |rows|
      ensures RowReadAt(raw, stride, channels, rows, y)
    {
      InTurnReadAt(channels, stride, raw, rows, y);
    }
  }

  lemma InTurnReadAt(channels: nat, stride: nat, raw: ByteString, rows: seq<ByteString>, y: nat)
    requires y < |rows| && ReadInTurn(Reading(Decoder(channels), raw), stride, 0, Zeros(stride), rows)
    ensures RowReadAt(raw, stride, channels, rows, y)
  {
    var start, above := RowStart(0, y, stride), if y == 0 then Zeros(stride) else rows[y - 1];
    ReadInTurnAt(Reading(Decoder(channels), raw), stride, 0, Zeros(stride), rows, y, start);
    UnfilteredAs(channels, raw, start, above, rows[y]);
  }

  lemma UnfilteredAs(channels: nat, raw: ByteString, start: nat, above: ByteString, row: ByteString)
    requires IsReadRow(Decoder(channels), raw, start, above, row)
    ensures UnfilterRow(raw[start], Slice(raw, start + 1, start + 1 + |above|), above, channels) == Ok(row)
  {
  }

  lemma RowFits(y: nat, height: nat, stride: nat)
    requires y < height
    ensures RowStart(0, y, stride) + stride + 1 <= height * (stride + 1)
  {
    MultipleFits(y, height, height - y - 1, stride + 1);
  }

  lemma MultipleFits(y: nat, height: nat, left: nat, size: nat)
    requires height == y + 1 + left
    ensures y * size + size <= height * size
  {
    assert height * size == y * size + size + left * size;
    assert left * size >= 0;
  }

  predicate HasSupported(raw: ByteString, at: nat) {
    at < |raw| && raw[at] <= 4
  }

  /** A raster that holds all its rows is read exactly if the rows are empty or all filter types are supported. */
  lemma LongRasterReadExactly(channels: nat, raw: ByteString, height: nat, stride: nat)
    requires |raw| >= height * (stride + 1)
    ensures UnfilterRows(Decoder(channels), raw, 0, height, Zeros(stride)).Ok?
            <==> stride == 0 || forall y: nat | y < height :: HasSupported(raw, RowStart(0, y, stride))
  {
    RowReadExactly(channels);
    RasterReadExactly(Decoder(channels), raw, 0, height, Zeros(stride));
    ReadableRows(raw, 0, height, stride);
    forall y: nat | y < height
      ensures Passes(raw, RowStart(0, y, stride), stride) <==> stride == 0 || HasSupported(raw, RowStart(0, y, stride))
    {
      RowFits(y, height, stride);
    }
  }

  /** An unsupported filter type passes in a row without bytes, at any stride if the raster is cut behind it. */
  lemma CutRasterPasses(channels: nat, stride: nat, filter: Byte)
    ensures UnfilterRows(Decoder(channels), [filter], 0, 1, Zeros(stride)) == Ok([Zeros(stride)])
  {
    var raw: ByteString := [filter];
    assert Slice(raw, 1, 1 + stride) == [];
    var none: seq<ByteString> := [];
    assert UnfilterRows(Decoder(channels), raw, stride + 1, 0, Zeros(stride)) == Ok(none);
    assert [Zeros(stride)] + none == [Zeros(stride)];
  }

  lemma {:induction false} RowCount(decode: RowDecoder, raw: ByteString, cursor: nat, height: nat, previous: ByteString,
                                    rows: seq<ByteString>)
    requires UnfilterRows(decode, raw, cursor, height, previous) == Ok(rows)
    ensures |rows| == height
    decreases height
  {
    if height > 0 {
      RowCount(decode, raw, cursor + |previous| + 1, height - 1, rows[0], rows[1..]);
    }
  }
}
