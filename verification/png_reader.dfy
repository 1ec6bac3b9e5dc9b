/** The PNG reader of the capture analyser as a whole, and its round trip with every writer. */
module PngReader {
  import opened Bytes
  import opened Outcomes
  import opened PngChunks
  import opened PngFilters

  datatype Pixel = Pixel(red: Byte, green: Byte, blue: Byte)
  datatype Image = Image(width: nat, height: nat, pixels: seq<Pixel>)

  datatype DecodeError =
    | NotAPng
    | BadChunk(chunk: ChunkError)
    | UnsupportedFormat(bitDepth: nat, colorType: nat)
    | CorruptStream
    | BadRaster(raster: RasterError)

  /** zlib: inflates a stream or fails. */
  type Inflate = ByteString -> Option<ByteString>

  // ---------------------------------------------------------------------------------------------
  // Pixels

  /** `tuple(row[index : index + 3])` for the pixel in column `x`. */
  function PixelOf(row: ByteString, channels: nat, x: nat): Pixel {
    Pixel(At(row, channels * x), At(row, channels * x + 1), At(row, channels * x + 2))
  }

  function RowPixels(row: ByteString, channels: nat, width: nat): (pixels: seq<Pixel>)
    ensures |pixels| == width
  {
    seq(width, x requires 0 <= x < width => PixelOf(row, channels, x))
  }

  function Flatten(rows: seq<ByteString>, channels: nat, width: nat): seq<Pixel> {
    if rows == [] then [] else RowPixels(rows[0], channels, width) + Flatten(rows[1..], channels, width)
  }

  lemma {:induction false} FlattenLength(rows: seq<ByteString>, channels: nat, width: nat)
    ensures |Flatten(rows, channels, width)| == |rows| * width
  {
    if rows != [] {
      FlattenLength(rows[1..], channels, width);
      assert |rows| * width == width + (|rows| - 1) * width;
    }
  }

  lemma {:induction false} FlattenAt(rows: seq<ByteString>, channels: nat, width: nat, y: nat, x: nat)
    requires y < |rows| && x < width
    ensures 0 <= y * width + x < |Flatten(rows, channels, width)|
    ensures Flatten(rows, channels, width)[y * width + x] == PixelOf(rows[y], channels, x)
  {
    if y > 0 {
      FlattenAt(rows[1..], channels, width, y - 1, x);
      assert y * width == width + (y - 1) * width;
    }
  }

  /** The pixels of an image, row by row: position `y * width + x` holds the pixel at byte `channels * x` of row `y`. */
  ghost predicate ShowsRows(pixels: seq<Pixel>, rows: seq<ByteString>, channels: nat, width: nat) {
    && |pixels| == |rows| * width
    && forall y: nat, x: nat | y < |rows| && x < width :: ShowsPixel(pixels, width, y, x, rows[y], channels)
  }

  predicate ShowsPixel(pixels: seq<Pixel>, width: nat, y: nat, x: nat, row: ByteString, channels: nat) {
    0 <= y * width + x < |pixels| && ShowsBytes(pixels[y * width + x], row, channels * x)
  }

  /** Red, green and blue are the bytes from `at` on. */
  predicate ShowsBytes(pixel: Pixel, row: ByteString, at: nat) {
    && pixel.red == (if at < |row| then row[at] else 0)
    && pixel.green == (if at + 1 < |row| then row[at + 1] else 0)
    && pixel.blue == if at + 2 < |row| then row[at + 2] else 0
  }

  lemma FlattenShowsRows(rows: seq<ByteString>, channels: nat, width: nat)
    ensures ShowsRows(Flatten(rows, channels, width), rows, channels, width)
  {
    FlattenLength(rows, channels, width);
    forall y: nat, x: nat | y < |rows| && x < width
      ensures ShowsPixel(Flatten(rows, channels, width), width, y, x, rows[y], channels)
    {
      FlattenAt(rows, channels, width, y, x);
    }
  }

  // ---------------------------------------------------------------------------------------------
  // The reader

  function Channels(colorType: nat): Option<nat> {
    if colorType == 2 then Some(3) else if colorType == 6 then Some(4) else None
  }

  function DecodeRows(header: Header, channels: nat, rows: Result<seq<ByteString>, RasterError>)
    : Result<Image, DecodeError>
  {
    if rows.Err? then Err(BadRaster(rows.error))
    else Ok(Image(header.width, header.height, Flatten(rows.value, channels, header.width)))
  }

  function DecodeStream(inflate: Inflate, stream: Stream): Result<Image, DecodeError> {
    var header := stream.header;
    var channels := Channels(header.colorType);
    if header.bitDepth != 8 || channels.None? then Err(UnsupportedFormat(header.bitDepth, header.colorType))
    else
      var raw := inflate(stream.compressed);
      if raw.None? then Err(CorruptStream)
      else
        DecodeRows(header, channels.value,
                   UnfilterRows(Decoder(channels.value), raw.value, 0, header.height,
                                Zeros(header.width * channels.value)))
  }

  function Decode(inflate: Inflate, data: ByteString): Result<Image, DecodeError> {
    if Slice(data, 0, 8) != SIGNATURE then Err(NotAPng)
    else
      var stream := ParseChunks(ChunksOf(data), |data|, 8, EMPTY_STREAM);
      if stream.Err? then Err(BadChunk(stream.error)) else DecodeStream(inflate, stream.value)
  }

  method PngPixels(inflate: Inflate, data: ByteString) returns (r: Result<Image, DecodeError>)
    ensures r == Decode(inflate, data)
  {
    if Slice(data, 0, 8) != SIGNATURE {
      return Err(NotAPng);
    }
    var chunks := ReadChunks(ChunksOf(data), |data|);
    if chunks.Err? {
      return Err(BadChunk(chunks.error));
    }
    r := ReadStream(inflate, chunks.value);
  }

  method ReadStream(inflate: Inflate, stream: Stream) returns (r: Result<Image, DecodeError>)
    ensures r == DecodeStream(inflate, stream)
  {
    var Stream(header, compressed) := stream;
    var channels := Channels(header.colorType);
    if header.bitDepth != 8 || channels.None? {
      return Err(UnsupportedFormat(header.bitDepth, header.colorType));
    }
    var raw := inflate(compressed);
    if raw.None? {
      return Err(CorruptStream);
    }
    var stride := header.width * channels.value;
    var rows := ReadRows(raw.value, header.height, stride, channels.value);
    return DecodeRows(header, channels.value, rows);
  }

  /** Whatever the reader accepts has exactly one pixel per position of the declared extent. */
  lemma DecodedShape(inflate: Inflate, data: ByteString)
    requires Decode(inflate, data).Ok?
    ensures var image := Decode(inflate, data).value; |image.pixels| == image.height * image.width
  {
    StreamShape(inflate, ParseChunks(ChunksOf(data), |data|, 8, EMPTY_STREAM).value);
  }

  lemma StreamShape(inflate: Inflate, stream: Stream)
    requires DecodeStream(inflate, stream).Ok?
    ensures var image := DecodeStream(inflate, stream).value; |image.pixels| == image.height * image.width
  {
    var header, channels := stream.header, Channels(stream.header.colorType).value;
    var raw := inflate(stream.compressed).value;
    var previous := Zeros(header.width * channels);
    var rows := UnfilterRows(Decoder(channels), raw, 0, header.height, previous).value;
    RowCount(Decoder(channels), raw, 0, header.height, previous, rows);
    FlattenLength(rows, channels, header.width);
  }

  /** What is decoded shows rows that are read from the inflated raster one by one, each by the one above it. */
  lemma DecodedRows(inflate: Inflate, stream: Stream) returns (channels: nat, rows: seq<ByteString>)
    requires DecodeStream(inflate, stream).Ok?
    ensures var header, image := stream.header, DecodeStream(inflate, stream).value;
            && image.width == header.width && image.height == header.height == |rows|
            && ((header.colorType == 2 && channels == 3) || (header.colorType == 6 && channels == 4))
            && ShowsRows(image.pixels, rows, channels, header.width)
    ensures var raw := inflate(stream.compressed);
            raw.Some? && RowsReadFrom(raw.value, stream.header.width * channels, channels, rows)
  {
    var header, raw := stream.header, inflate(stream.compressed).value;
    channels := Channels(header.colorType).value;
    var stride := header.width * channels;
    rows := UnfilterRows(Decoder(channels), raw, 0, header.height, Zeros(stride)).value;
    ReadRowsFrom(channels, stride, raw, header.height, rows);
    FlattenShowsRows(rows, channels, header.width);
  }

  // ---------------------------------------------------------------------------------------------
  // Which files are read

  /** The format is supported, the stream inflates, and the filter bytes of all rows are there and pass. */
  predicate ReadableStream(inflate: Inflate, stream: Stream) {
    var header := stream.header;
    && header.bitDepth == 8 && Channels(header.colorType).Some? && inflate(stream.compressed).Some?
    && Readable(inflate(stream.compressed).value, 0, header.height, header.width * Channels(header.colorType).value)
  }

  lemma StreamReadExactly(inflate: Inflate, stream: Stream)
    ensures DecodeStream(inflate, stream).Ok? <==> ReadableStream(inflate, stream)
  {
    var header := stream.header;
    if header.bitDepth == 8 && Channels(header.colorType).Some? && inflate(stream.compressed).Some? {
      var channels := Channels(header.colorType).value;
      RowReadExactly(channels);
      RasterReadExactly(Decoder(channels), inflate(stream.compressed).value, 0, header.height,
                        Zeros(header.width * channels));
    }
  }

  predicate ReadableFile(inflate: Inflate, data: ByteString, stream: Result<Stream, ChunkError>) {
    Slice(data, 0, 8) == SIGNATURE && stream.Ok? && ReadableStream(inflate, stream.value)
  }

  /** A file is read exactly if it has the signature, its chunks can be read and its stream is readable. */
  lemma DecodedExactly(inflate: Inflate, data: ByteString, stream: Result<Stream, ChunkError>)
    requires stream == ParseChunks(ChunksOf(data), |data|, 8, EMPTY_STREAM)
    ensures Decode(inflate, data).Ok? <==> ReadableFile(inflate, data, stream)
  {
    if stream.Ok? {
      StreamReadExactly(inflate, stream.value);
    }
  }

  /** Why a file is not read: the first of signature, chunks, format, stream and raster that is at fault. */
  lemma DecodeRefused(inflate: Inflate, data: ByteString, stream: Result<Stream, ChunkError>)
    requires stream == ParseChunks(ChunksOf(data), |data|, 8, EMPTY_STREAM)
    ensures var r := Decode(inflate, data);
            && (Slice(data, 0, 8) != SIGNATURE ==> r == Err(NotAPng))
            && (Slice(data, 0, 8) == SIGNATURE && stream.Err? ==> r == Err(BadChunk(stream.error)))
            && (Slice(data, 0, 8) == SIGNATURE && stream.Ok? ==> r == DecodeStream(inflate, stream.value))
  {
  }

  lemma StreamRefused(inflate: Inflate, stream: Stream) returns (y: nat)
    requires DecodeStream(inflate, stream).Err?
    ensures var header, error := stream.header, DecodeStream(inflate, stream).error;
            if header.bitDepth != 8 || header.colorType !in {2, 6} then
              error == UnsupportedFormat(header.bitDepth, header.colorType)
            else if inflate(stream.compressed).None? then error == CorruptStream
            else
              && error.BadRaster? && y < header.height
              && FailsFirst(inflate(stream.compressed).value, 0,
                            header.width * (if header.colorType == 2 then 3 else 4), y, error.raster)
  {
    var header := stream.header;
    y := 0;
    if header.bitDepth == 8 && header.colorType in {2, 6} && inflate(stream.compressed).Some? {
      var channels := Channels(header.colorType).value;
      RowReadExactly(channels);
      DecoderNamesRefused(channels);
      y := RasterRefused(Decoder(channels), inflate(stream.compressed).value, 0, header.height,
                         Zeros(header.width * channels));
    }
  }

  // ---------------------------------------------------------------------------------------------
  // Round trip

  /** An 8-bit RGB or RGBA image as a writer sees it, with the filter type it chooses for each row. */
  datatype Source = Source(width: nat, height: nat, colorType: Byte, rows: seq<ByteString>, filters: ByteString) {
    predicate Valid() {
      && width < 0x1_0000_0000 && height < 0x1_0000_0000
      && (colorType == 2 || colorType == 6)
      && |rows| == |filters| == height && Supported(filters)
      && Uniform(rows, width * Depth())
    }

    function Depth(): nat {
      if colorType == 2 then 3 else 4
    }

    /** What is compressed. */
    function Raster(): ByteString
      requires Valid()
    {
      FilterRows(Encoder(Depth()), rows, filters, Zeros(width * Depth()))
    }
  }

  lemma RowsReadBack(source: Source)
    requires source.Valid()
    ensures UnfilterRows(Decoder(source.Depth()), source.Raster(), 0, source.height,
                         Zeros(source.width * source.Depth()))
         == Ok(source.rows)
  {
    var channels := source.Depth();
    var previous := Zeros(source.width * channels);
    RowRoundTrip(channels, |previous|);
    var raw := source.Raster();
    assert raw == [] + raw + [];
    UnfilterFilterRows(Decoder(channels), Encoder(channels), raw, [], source.rows, source.filters, previous, []);
  }

  lemma RasterReadBack(inflate: Inflate, source: Source, stream: Stream)
    requires source.Valid() && stream.header == Header(source.width, source.height, 8, source.colorType as nat)
    requires inflate(stream.compressed) == Some(source.Raster())
    ensures DecodeStream(inflate, stream)
         == Ok(Image(source.width, source.height, Flatten(source.rows, source.Depth(), source.width)))
  {
    RowsReadBack(source);
    assert Channels(stream.header.colorType) == Some(source.Depth());
  }

  /**
    The full round trip. For every 8-bit RGB or RGBA image, every filter choice per row, every split
    of the compressed stream over IDAT chunks with other chunks in between, any check bytes and any
    bytes after IEND, the reader returns the extent and the pixels of the image.
   */
  lemma RoundTrip(deflate: ByteString -> ByteString, inflate: Inflate, source: Source, ignored: ByteString,
                  f: File, data: ByteString)
    requires source.Valid() && inflate(deflate(source.Raster())) == Some(source.Raster())
    requires f.WellFormed() && data == f.Bytes(Serialize)
    requires f.header.raw.body == HeaderBody(source.width, source.height, source.colorType, ignored)
    requires IdatBytes(f.before) + IdatBytes(f.after) == deflate(source.Raster())
    ensures var r := Decode(inflate, data);
            && r.Ok? && r.value.width == source.width && r.value.height == source.height
            && ShowsRows(r.value.pixels, source.rows, source.Depth(), source.width)
  {
    ParseFile(f, data);
    HeaderReadBack(source.width, source.height, source.colorType, ignored);
    var stream := Stream(Header(source.width, source.height, 8, source.colorType as nat), deflate(source.Raster()));
    assert Decode(inflate, data) == DecodeStream(inflate, stream);
    RasterReadBack(inflate, source, stream);
    FlattenShowsRows(source.rows, source.Depth(), source.width);
  }

  /** So a plain writer that cuts the compressed raster into parts at will has the reader for its inverse. */
  lemma WrittenIsRead(inflate: Inflate, source: Source, parts: seq<ByteString>)
    requires source.Valid() && inflate(Join(parts)) == Some(source.Raster())
    requires forall i :: 0 <= i < |parts| ==> |parts[i]| < 0x1_0000_0000
    ensures var f := PlainFile(HeaderBody(source.width, source.height, source.colorType, Zeros(3)), parts);
            var r := Decode(inflate, f.Bytes(Serialize));
            && r.Ok? && r.value.width == source.width && r.value.height == source.height
            && ShowsRows(r.value.pixels, source.rows, source.Depth(), source.width)
  {
    var body := HeaderBody(source.width, source.height, source.colorType, Zeros(3));
    var f := PlainFile(body, parts);
    assert |body| == 13;
    PlainFileWellFormed(body, parts);
    RoundTrip((_: ByteString) => Join(parts), inflate, source, Zeros(3), f, f.Bytes(Serialize));
  }

  /** A file of one pixel whose raster is nothing but a filter byte, of whatever type, is read as a black pixel. */
  lemma CutFilePasses(inflate: Inflate, compressed: ByteString, filter: Byte)
    requires |compressed| < 0x1_0000_0000 && inflate(compressed) == Some([filter])
    ensures Decode(inflate, PlainFile(HeaderBody(1, 1, 2, Zeros(3)), [compressed]).Bytes(Serialize))
            == Ok(Image(1, 1, [Pixel(0, 0, 0)]))
  {
    var body := HeaderBody(1, 1, 2, Zeros(3));
    var f := PlainFile(body, [compressed]);
    JoinOne(compressed);
    PlainFileWellFormed(body, [compressed]);
    ParseFile(f, f.Bytes(Serialize));
    HeaderReadBack(1, 1, 2, Zeros(3));
    BlackPixel(inflate, Stream(Header(1, 1, 8, 2), compressed), filter);
  }

  lemma JoinOne(part: ByteString)
    ensures Join([part]) == part
  {
    assert [part][1..] == [];
  }

  lemma BlackPixel(inflate: Inflate, stream: Stream, filter: Byte)
    requires stream.header == Header(1, 1, 8, 2) && inflate(stream.compressed) == Some([filter])
    ensures DecodeStream(inflate, stream) == Ok(Image(1, 1, [Pixel(0, 0, 0)]))
  {
    CutRasterPasses(3, 3, filter);
    var rows := [Zeros(3)];
    FlattenAt(rows, 3, 1, 0, 0);
    FlattenLength(rows, 3, 1);
    assert Flatten(rows, 3, 1) == [Pixel(0, 0, 0)];
  }
}
