/** A small PNG file, byte by byte, and what the reader makes of it. */
module PngSample {
  import opened Bytes
  import opened Outcomes
  import opened PngChunks
  import opened PngFilters
  import opened PngReader

  const MAGIC: ByteString := [137, 80, 78, 71, 13, 10, 26, 10]
  const HEADER_BODY: ByteString := [0, 0, 0, 2, 0, 0, 0, 1, 8, 2, 0, 0, 0]
  const HEADER_CHUNK: ByteString :=
    [0, 0, 0, 13, 73, 72, 68, 82, 0, 0, 0, 2, 0, 0, 0, 1, 8, 2, 0, 0, 0, 123, 64, 232, 221]
  const TEXT_CHUNK: ByteString := [0, 0, 0, 1, 116, 69, 88, 116, 65, 1, 2, 3, 4]
  const FIRST_CHUNK: ByteString := [0, 0, 0, 1, 73, 68, 65, 84, 120, 0, 0, 0, 0]
  const SECOND_CHUNK: ByteString := [0, 0, 0, 2, 73, 68, 65, 84, 156, 99, 0, 0, 0, 0]
  const END_CHUNK: ByteString := [0, 0, 0, 0, 73, 69, 78, 68, 174, 66, 96, 130]

  /** Two pixels, of which the second is stored as its difference from the first. */
  const RASTER: ByteString := [1, 10, 20, 30, 5, 5, 5]

  const SAMPLE: ByteString := MAGIC + HEADER_CHUNK + TEXT_CHUNK + FIRST_CHUNK + SECOND_CHUNK + END_CHUNK

  lemma NumberBytes(n: nat)
    requires n < 256
    ensures WriteBE32(n) == [0, 0, 0, n as Byte]
  {
    assert n / 256 == 0 && n % 256 == n;
  }

  function ChunkWith(kind: ChunkKind, tag: ByteString, body: ByteString, crc: ByteString): Chunk {
    Chunk(RawChunk(|body|, kind, body), tag, crc)
  }

  const HEADER := ChunkWith(HeaderChunk, [73, 72, 68, 82], HEADER_BODY, [123, 64, 232, 221])
  const TEXT := ChunkWith(OtherChunk, [116, 69, 88, 116], [65], [1, 2, 3, 4])
  const FIRST := ChunkWith(DataChunk, [73, 68, 65, 84], [120], [0, 0, 0, 0])
  const SECOND := ChunkWith(DataChunk, [73, 68, 65, 84], [156, 99], [0, 0, 0, 0])
  const END := ChunkWith(EndChunk, [73, 69, 78, 68], [], [174, 66, 96, 130])

  lemma HeaderBytes()
    ensures HEADER.WellFormed() && Serialize(HEADER) == HEADER_CHUNK
  {
    NumberBytes(13);
    HeaderParts();
  }

  lemma HeaderParts()
    ensures [0, 0, 0, 13] + [73, 72, 68, 82] + HEADER_BODY + [123, 64, 232, 221] == HEADER_CHUNK
  {
  }

  lemma InnerBytes()
    ensures TEXT.WellFormed() && TEXT.Inner() && Serialize(TEXT) == TEXT_CHUNK
    ensures FIRST.WellFormed() && FIRST.Inner() && Serialize(FIRST) == FIRST_CHUNK
    ensures SECOND.WellFormed() && SECOND.Inner() && Serialize(SECOND) == SECOND_CHUNK
  {
    TextBytes();
    FirstBytes();
    SecondBytes();
  }

  lemma TextBytes()
    ensures TEXT.WellFormed() && TEXT.Inner() && Serialize(TEXT) == TEXT_CHUNK
  {
    NumberBytes(1);
  }

  lemma FirstBytes()
    ensures FIRST.WellFormed() && FIRST.Inner() && Serialize(FIRST) == FIRST_CHUNK
  {
    NumberBytes(1);
  }

  lemma SecondBytes()
    ensures SECOND.WellFormed() && SECOND.Inner() && Serialize(SECOND) == SECOND_CHUNK
  {
    NumberBytes(2);
  }

  lemma EndBytes()
    ensures END.WellFormed() && Serialize(END) == END_CHUNK
  {
    NumberBytes(0);
  }

  lemma InnerSerialized()
    ensures SerializeAll(Serialize, [TEXT, FIRST, SECOND]) == TEXT_CHUNK + FIRST_CHUNK + SECOND_CHUNK
    ensures IdatBytes([TEXT, FIRST, SECOND]) == [120, 156, 99]
  {
    InnerBytes();
    var all, two, one := [TEXT, FIRST, SECOND], [FIRST, SECOND], [SECOND];
    assert all[1..] == two && two[1..] == one && one[1..] == [];
    SerializedCons(all, two);
    SerializedCons(two, one);
    SerializedCons(one, []);
    ThreeParts(TEXT_CHUNK, FIRST_CHUNK, SECOND_CHUNK);
    assert [120] + ([156, 99] + []) == [120, 156, 99];
  }

  lemma SerializedCons(chunks: seq<Chunk>, rest: seq<Chunk>)
    requires chunks != [] && rest == chunks[1..]
    ensures SerializeAll(Serialize, chunks) == Serialize(chunks[0]) + SerializeAll(Serialize, rest)
    ensures chunks[0].raw.kind.DataChunk? ==> IdatBytes(chunks) == chunks[0].raw.body + IdatBytes(rest)
    ensures !chunks[0].raw.kind.DataChunk? ==> IdatBytes(chunks) == IdatBytes(rest)
  {
    assert [] + IdatBytes(rest) == IdatBytes(rest);
  }

  lemma ThreeParts(a: ByteString, b: ByteString, c: ByteString)
    ensures a + (b + (c + [])) == a + b + c
  {
  }

  lemma SampleStream()
    ensures Slice(SAMPLE, 0, 8) == SIGNATURE
    ensures ParseChunks(ChunksOf(SAMPLE), |SAMPLE|, 8, EMPTY_STREAM) == Ok(Stream(Header(2, 1, 8, 2), [120, 156, 99]))
  {
    var f := File([], HEADER, [TEXT, FIRST, SECOND], END, []);
    SampleFile(f);
    InnerSerialized();
    SampleHeader();
    FileStream(f, SAMPLE, Header(2, 1, 8, 2), [120, 156, 99]);
  }

  lemma FileStream(f: File, data: ByteString, header: Header, compressed: ByteString)
    requires f.WellFormed() && data == f.Bytes(Serialize) && ReadHeader(f.header.raw.body) == header
    requires f.before == [] && IdatBytes(f.after) == compressed
    ensures Slice(data, 0, 8) == SIGNATURE
    ensures ParseChunks(ChunksOf(data), |data|, 8, EMPTY_STREAM) == Ok(Stream(header, compressed))
  {
    ParseFile(f, data);
    assert [] + compressed == compressed;
  }

  lemma SampleFile(f: File)
    requires f == File([], HEADER, [TEXT, FIRST, SECOND], END, [])
    ensures f.WellFormed() && f.Bytes(Serialize) == SAMPLE
  {
    HeaderBytes();
    InnerBytes();
    EndBytes();
    InnerSerialized();
    SampleBytes(f);
  }

  lemma SampleBytes(f: File)
    requires f == File([], HEADER, [TEXT, FIRST, SECOND], END, [])
    requires Serialize(HEADER) == HEADER_CHUNK && Serialize(END) == END_CHUNK
    requires SerializeAll(Serialize, [TEXT, FIRST, SECOND]) == TEXT_CHUNK + FIRST_CHUNK + SECOND_CHUNK
    ensures f.Bytes(Serialize) == SAMPLE
  {
    assert SerializeAll(Serialize, f.before) == [];
    assert SIGNATURE == MAGIC;
    FiveParts(MAGIC, HEADER_CHUNK, TEXT_CHUNK, FIRST_CHUNK, SECOND_CHUNK, END_CHUNK);
  }

  lemma FiveParts(a: ByteString, b: ByteString, c: ByteString, d: ByteString, e: ByteString, f: ByteString)
    ensures a + [] + b + (c + d + e) + f + [] == a + b + c + d + e + f
  {
  }

  lemma SampleHeader()
    ensures |HEADER_BODY| >= 10 && ReadHeader(HEADER_BODY) == Header(2, 1, 8, 2)
  {
    NumberBytes(2);
    NumberBytes(1);
    assert Slice(HEADER_BODY, 0, 4) == WriteBE32(2) && Slice(HEADER_BODY, 4, 8) == WriteBE32(1);
  }

  lemma SampleRow(row: ByteString)
    requires UnfilterRow(1, [10, 20, 30, 5, 5, 5], Zeros(6), 3) == Ok(row)
    ensures row == [10, 20, 30, 15, 25, 35]
  {
    var source: ByteString := [10, 20, 30, 5, 5, 5];
    DecodedBytes(1, source, Zeros(6), 3, 0);
    DecodedBytes(1, source, Zeros(6), 3, 1);
    DecodedBytes(1, source, Zeros(6), 3, 2);
    DecodedBytes(1, source, Zeros(6), 3, 3);
    DecodedBytes(1, source, Zeros(6), 3, 4);
    DecodedBytes(1, source, Zeros(6), 3, 5);
  }

  /** The file, with an ancillary chunk and two data chunks, is read as its two pixels. */
  lemma SampleDecoded(inflate: Inflate)
    requires inflate([120, 156, 99]) == Some(RASTER)
    ensures Decode(inflate, SAMPLE) == Ok(Image(2, 1, [Pixel(10, 20, 30), Pixel(15, 25, 35)]))
  {
    SampleStream();
    SamplePixels(inflate, Stream(Header(2, 1, 8, 2), [120, 156, 99]));
  }

  lemma SamplePixels(inflate: Inflate, stream: Stream)
    requires stream.header == Header(2, 1, 8, 2) && inflate(stream.compressed) == Some(RASTER)
    ensures DecodeStream(inflate, stream) == Ok(Image(2, 1, [Pixel(10, 20, 30), Pixel(15, 25, 35)]))
  {
    SampleReadable(inflate, stream);
    var channels, rows := DecodedRows(inflate, stream);
    SampleRows(rows);
    var pixels := DecodeStream(inflate, stream).value.pixels;
    TwoPixels(pixels, rows);
  }

  lemma SampleReadable(inflate: Inflate, stream: Stream)
    requires stream.header == Header(2, 1, 8, 2) && inflate(stream.compressed) == Some(RASTER)
    ensures DecodeStream(inflate, stream).Ok?
  {
    assert Passes(RASTER, 0, 6);
    assert Readable(RASTER, 7, 0, 6);
    assert Readable(RASTER, 0, 1, 6);
    StreamReadExactly(inflate, stream);
  }

  lemma SampleRows(rows: seq<ByteString>)
    requires |rows| == 1 && RowsReadFrom(RASTER, 6, 3, rows)
    ensures rows[0] == [10, 20, 30, 15, 25, 35]
  {
    assert RowReadAt(RASTER, 6, 3, rows, 0);
    assert RowStart(0, 0, 6) == 0;
    assert Slice(RASTER, 1, 7) == [10, 20, 30, 5, 5, 5];
    SampleRow(rows[0]);
  }

  lemma TwoPixels(pixels: seq<Pixel>, rows: seq<ByteString>)
    requires |rows| == 1 && rows[0] == [10, 20, 30, 15, 25, 35] && ShowsRows(pixels, rows, 3, 2)
    ensures pixels == [Pixel(10, 20, 30), Pixel(15, 25, 35)]
  {
    assert ShowsPixel(pixels, 2, 0, 0, rows[0], 3);
    assert ShowsPixel(pixels, 2, 0, 1, rows[0], 3);
    assert |pixels| == 2;
  }
}
