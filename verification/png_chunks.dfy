/**
  The chunk loop of the capture reader (chunk layout: section 3.2 of RFC 2083).

  The loop sees a file as the chunk found at each offset. `ParseChunks` says what it collects,
  `ReadChunks` is the loop, and `ParseFile` reads back every file a writer can lay out.
 */
module PngChunks {
  import opened Bytes
  import opened Outcomes

  const SIGNATURE: ByteString := [0x89, 0x50, 0x4E, 0x47, 0x0D, 0x0A, 0x1A, 0x0A]
  const IHDR: ByteString := [0x49, 0x48, 0x44, 0x52]
  const IDAT: ByteString := [0x49, 0x44, 0x41, 0x54]
  const IEND: ByteString := [0x49, 0x45, 0x4E, 0x44]

  datatype ChunkKind = HeaderChunk | DataChunk | EndChunk | OtherChunk

  function KindOf(kind: ByteString): ChunkKind {
    if kind == IHDR then HeaderChunk
    else if kind == IDAT then DataChunk
    else if kind == IEND then EndChunk
    else OtherChunk
  }

  /** A chunk as the reader sees it: the length it declares and what it could slice for the body. */
  datatype RawChunk = RawChunk(length: nat, kind: ChunkKind, body: ByteString)

  datatype ChunkError = TruncatedLength | TruncatedHeader

  /** The chunk at `offset`; none if fewer than four bytes are left for its length. */
  function ChunkAt(data: ByteString, offset: nat): Option<RawChunk> {
    var lengthBytes := Slice(data, offset, offset + 4);
    if |lengthBytes| < 4 then None
    else
      var length := ReadBE32(lengthBytes);
      Some(RawChunk(length, KindOf(Slice(data, offset + 4, offset + 8)), Slice(data, offset + 8, offset + 8 + length)))
  }

  type ChunkSource = nat -> Option<RawChunk>

  function ChunksOf(data: ByteString): ChunkSource {
    (offset: nat) => ChunkAt(data, offset)
  }

  datatype Header = Header(width: nat, height: nat, bitDepth: nat, colorType: nat)
  datatype Stream = Stream(header: Header, compressed: ByteString)

  const EMPTY_STREAM := Stream(Header(0, 0, 0, 0), [])

  function ReadHeader(body: ByteString): Header
    requires |body| >= 10
  {
    Header(ReadBE32(Slice(body, 0, 4)), ReadBE32(Slice(body, 4, 8)), body[8] as nat, body[9] as nat)
  }

  /** What one chunk adds to the header and the compressed bytes collected so far. */
  function Absorb(stream: Stream, c: RawChunk): Stream {
    match c.kind
    case HeaderChunk => if |c.body| < 10 then stream else stream.(header := ReadHeader(c.body))
    case DataChunk => stream.(compressed := stream.compressed + c.body)
    case _ => stream
  }

  function ParseChunks(source: ChunkSource, size: nat, offset: nat, stream: Stream): Result<Stream, ChunkError>
    decreases size - offset
  {
    if offset >= size then Ok(stream)
    else
      match source(offset)
      case None => Err(TruncatedLength)
      case Some(c) =>
        if c.kind.EndChunk? then Ok(stream)
        else if c.kind.HeaderChunk? && |c.body| < 10 then Err(TruncatedHeader)
        else ParseChunks(source, size, offset + 12 + c.length, Absorb(stream, c))
  }

  method ReadChunks(source: ChunkSource, size: nat) returns (r: Result<Stream, ChunkError>)
    ensures r == ParseChunks(source, size, 8, EMPTY_STREAM)
  {
    var offset, stream := 8, EMPTY_STREAM;
    while offset < size
      invariant offset >= 8
      invariant ParseChunks(source, size, offset, stream) == ParseChunks(source, size, 8, EMPTY_STREAM)
    {
      var found := source(offset);
      if found.None? {
        return Err(TruncatedLength);
      }
      var RawChunk(length, kind, body) := found.value;
      offset := offset + 12 + length;
      if kind.HeaderChunk? {
        if |body| < 10 {
          return Err(TruncatedHeader);
        }
        stream := stream.(header := ReadHeader(body));
      } else if kind.DataChunk? {
        stream := stream.(compressed := stream.compressed + body);
      } else if kind.EndChunk? {
        break;
      }
    }
    return Ok(stream);
  }

  // ---------------------------------------------------------------------------------------------
  // Files as a writer lays them out

  /** One chunk as it is written: four tag bytes of its kind, and check bytes the reader never looks at. */
  datatype Chunk = Chunk(raw: RawChunk, tag: ByteString, crc: ByteString) {
    predicate WellFormed() {
      && |tag| == 4 && KindOf(tag) == raw.kind && |crc| == 4
      && raw.length == |raw.body| < 0x1_0000_0000
    }

    /** Neither the header nor the end of the image: an IDAT chunk or one the reader skips. */
    predicate Inner() {
      !raw.kind.HeaderChunk? && !raw.kind.EndChunk?
    }
  }

  /** How chunks are turned into bytes. */
  type Writer = Chunk -> ByteString

  function Serialize(c: Chunk): ByteString {
    WriteBE32(|c.raw.body|) + c.tag + c.raw.body + c.crc
  }

  function SerializeAll(write: Writer, chunks: seq<Chunk>): ByteString {
    if chunks == [] then [] else write(chunks[0]) + SerializeAll(write, chunks[1..])
  }

  /** The compressed stream a list of chunks carries: its IDAT bodies, joined in order. */
  function IdatBytes(chunks: seq<Chunk>): ByteString {
    if chunks == [] then []
    else (if chunks[0].raw.kind.DataChunk? then chunks[0].raw.body else []) + IdatBytes(chunks[1..])
  }

  /** The chunk `c`, wherever it is written into `data`, is found there by `source` and has the length it declares. */
  ghost predicate Finds(write: Writer, source: ChunkSource, data: ByteString, c: Chunk) {
    && |write(c)| == 12 + c.raw.length
    && forall before, after :: data == before + write(c) + after ==> source(|before|) == Some(c.raw)
  }

  lemma SerializedIsFound(data: ByteString, c: Chunk)
    requires c.WellFormed()
    ensures Finds(Serialize, ChunksOf(data), data, c)
  {
    forall before, after | data == before + Serialize(c) + after
      ensures ChunkAt(data, |before|) == Some(c.raw)
    {
      SerializedChunkAt(before, c, after);
    }
  }

  /** A serialized chunk is read back exactly where it stands, whatever surrounds it. */
  lemma SerializedChunkAt(before: ByteString, c: Chunk, after: ByteString)
    requires c.WellFormed()
    ensures ChunkAt(before + Serialize(c) + after, |before|) == Some(c.raw)
  {
    SliceParts(before, WriteBE32(|c.raw.body|), c.tag, c.raw.body, c.crc, after);
  }

  lemma SliceParts(before: ByteString, length: ByteString, tag: ByteString, body: ByteString, crc: ByteString,
                   after: ByteString)
    requires |length| == |tag| == 4
    ensures var data, n := before + (length + tag + body + crc) + after, |before|;
            && Slice(data, n, n + 4) == length
            && Slice(data, n + 4, n + 8) == tag
            && Slice(data, n + 8, n + 8 + |body|) == body
  {
  }

  /** The chunks stand one after the other from `offset` up to `end`. */
  predicate Follow(source: ChunkSource, size: nat, offset: nat, chunks: seq<Chunk>, end: nat)
    decreases |chunks|
  {
    if chunks == [] then offset == end
    else
      && offset < size && source(offset) == Some(chunks[0].raw)
      && Follow(source, size, offset + 12 + chunks[0].raw.length, chunks[1..], end)
  }

  lemma {:induction false} SerializedFollow(write: Writer, source: ChunkSource, data: ByteString,
                                            before: ByteString, chunks: seq<Chunk>, after: ByteString)
    requires data == before + SerializeAll(write, chunks) + after
    requires forall i :: 0 <= i < |chunks| ==> Finds(write, source, data, chunks[i])
    ensures Follow(source, |data|, |before|, chunks, |before| + |SerializeAll(write, chunks)|)
    decreases |chunks|
  {
    if chunks != [] {
      var c, rest := chunks[0], SerializeAll(write, chunks[1..]);
      Regroup(before, write(c), rest, after);
      assert Finds(write, source, data, c);
      SerializedFollow(write, source, data, before + write(c), chunks[1..], after);
    }
  }

  lemma Regroup(a: ByteString, b: ByteString, c: ByteString, d: ByteString)
    ensures a + (b + c) + d == a + b + (c + d) == (a + b) + c + d
  {
  }

  function Collect(stream: Stream, chunks: seq<Chunk>): Stream {
    Stream(stream.header, stream.compressed + IdatBytes(chunks))
  }

  lemma CollectStep(stream: Stream, chunks: seq<Chunk>)
    requires chunks != [] && chunks[0].Inner()
    ensures Collect(Absorb(stream, chunks[0].raw), chunks[1..]) == Collect(stream, chunks)
  {
    var own := if chunks[0].raw.kind.DataChunk? then chunks[0].raw.body else [];
    assert stream.compressed + own + IdatBytes(chunks[1..]) == stream.compressed + (own + IdatBytes(chunks[1..]));
    assert stream.compressed + [] == stream.compressed;
  }

  lemma {:induction false} ParseInner(source: ChunkSource, size: nat, offset: nat, chunks: seq<Chunk>, end: nat,
                                      stream: Stream)
    requires forall i :: 0 <= i < |chunks| ==> chunks[i].Inner()
    requires Follow(source, size, offset, chunks, end)
    ensures ParseChunks(source, size, offset, stream) == ParseChunks(source, size, end, Collect(stream, chunks))
    decreases |chunks|
  {
    if chunks == [] {
      assert stream.compressed + IdatBytes(chunks) == stream.compressed;
    } else {
      var c := chunks[0];
      ParseInner(source, size, offset + 12 + c.raw.length, chunks[1..], end, Absorb(stream, c.raw));
      CollectStep(stream, chunks);
    }
  }

  /** Every file a writer can lay out around one IHDR chunk. */
  datatype File = File(before: seq<Chunk>, header: Chunk, after: seq<Chunk>, end: Chunk, trailing: ByteString) {
    predicate WellFormed() {
      && (forall i :: 0 <= i < |before| ==> before[i].WellFormed() && before[i].Inner())
      && header.WellFormed() && header.raw.kind.HeaderChunk? && |header.raw.body| >= 10
      && (forall i :: 0 <= i < |after| ==> after[i].WellFormed() && after[i].Inner())
      && end.WellFormed() && end.raw.kind.EndChunk?
    }

    function Bytes(write: Writer): ByteString {
      SIGNATURE + SerializeAll(write, before) + write(header) + SerializeAll(write, after) + write(end) + trailing
    }
  }

  /** Where the parts of a laid-out file stand, as the reader's chunk source finds them. */
  predicate LaidOut(f: File, source: ChunkSource, size: nat, n1: nat, n3: nat) {
    && Follow(source, size, 8, f.before, n1)
    && n1 < size && source(n1) == Some(f.header.raw)
    && Follow(source, size, n1 + 12 + f.header.raw.length, f.after, n3)
    && n3 < size && source(n3) == Some(f.end.raw)
  }

  lemma FileLayout(f: File, write: Writer, source: ChunkSource) returns (n1: nat, n3: nat)
    requires forall i :: 0 <= i < |f.before| ==> Finds(write, source, f.Bytes(write), f.before[i])
    requires forall i :: 0 <= i < |f.after| ==> Finds(write, source, f.Bytes(write), f.after[i])
    requires Finds(write, source, f.Bytes(write), f.header) && Finds(write, source, f.Bytes(write), f.end)
    ensures LaidOut(f, source, |f.Bytes(write)|, n1, n3)
    ensures Slice(f.Bytes(write), 0, 8) == SIGNATURE
  {
    var a, b, c, d, e :=
      SIGNATURE, SerializeAll(write, f.before), write(f.header), SerializeAll(write, f.after), write(f.end);
    var data := f.Bytes(write);
    SixParts(a, b, c, d, e, f.trailing);
    n1 := PartLayout(write, source, data, a, f.before, f.header, d + e + f.trailing);
    var front := a + b + c;
    assert |front| == n1 + 12 + f.header.raw.length;
    n3 := PartLayout(write, source, data, front, f.after, f.end, f.trailing);
  }

  /** Chunks, and one more behind them. */
  lemma PartLayout(write: Writer, source: ChunkSource, data: ByteString, before: ByteString, chunks: seq<Chunk>,
                   c: Chunk, after: ByteString) returns (n: nat)
    requires forall i :: 0 <= i < |chunks| ==> Finds(write, source, data, chunks[i])
    requires Finds(write, source, data, c) && data == before + SerializeAll(write, chunks) + write(c) + after
    ensures n == |before| + |SerializeAll(write, chunks)|
    ensures Follow(source, |data|, |before|, chunks, n) && n < |data| && source(n) == Some(c.raw)
  {
    var serialized := SerializeAll(write, chunks);
    n := |before| + |serialized|;
    Regroup(before, serialized, write(c), after);
    SerializedFollow(write, source, data, before, chunks, write(c) + after);
    FoundAt(write, source, data, before + serialized, c, after);
  }

  lemma FoundAt(write: Writer, source: ChunkSource, data: ByteString, before: ByteString, c: Chunk, after: ByteString)
    requires Finds(write, source, data, c) && data == before + write(c) + after
    ensures source(|before|) == Some(c.raw) && |before| < |data|
  {
  }

  lemma SixParts(a: ByteString, b: ByteString, c: ByteString, d: ByteString, e: ByteString, t: ByteString)
    ensures var data := a + b + c + d + e + t;
            && Slice(data, 0, |a|) == a
            && data == a + b + c + (d + e + t)
            && data == (a + b + c) + d + e + t
  {
  }

  lemma ParseOne(source: ChunkSource, size: nat, offset: nat, c: RawChunk, stream: Stream)
    requires offset < size && source(offset) == Some(c) && (c.kind.HeaderChunk? ==> |c.body| >= 10)
    ensures c.kind.EndChunk? ==> ParseChunks(source, size, offset, stream) == Ok(stream)
    ensures !c.kind.EndChunk? ==>
              ParseChunks(source, size, offset, stream)
                == ParseChunks(source, size, offset + 12 + c.length, Absorb(stream, c))
  {
  }

  lemma ParseLaidOut(f: File, source: ChunkSource, size: nat, n1: nat, n3: nat, header: Header)
    requires forall i :: 0 <= i < |f.before| ==> f.before[i].Inner()
    requires forall i :: 0 <= i < |f.after| ==> f.after[i].Inner()
    requires f.header.raw.kind.HeaderChunk? && |f.header.raw.body| >= 10 && header == ReadHeader(f.header.raw.body)
    requires f.end.raw.kind.EndChunk?
    requires LaidOut(f, source, size, n1, n3)
    ensures ParseChunks(source, size, 8, EMPTY_STREAM) == Ok(Stream(header, IdatBytes(f.before) + IdatBytes(f.after)))
  {
    var stream := Stream(header, IdatBytes(f.before));
    calc {
      ParseChunks(source, size, 8, EMPTY_STREAM);
      { ParseInner(source, size, 8, f.before, n1, EMPTY_STREAM); }
      ParseChunks(source, size, n1, Collect(EMPTY_STREAM, f.before));
      { assert [] + IdatBytes(f.before) == IdatBytes(f.before);
        ParseOne(source, size, n1, f.header.raw, Collect(EMPTY_STREAM, f.before)); }
      ParseChunks(source, size, n1 + 12 + f.header.raw.length, stream);
      { ParseInner(source, size, n1 + 12 + f.header.raw.length, f.after, n3, stream); }
      ParseChunks(source, size, n3, Collect(stream, f.after));
      { ParseOne(source, size, n3, f.end.raw, Collect(stream, f.after)); }
      Ok(Collect(stream, f.after));
    }
  }

  /** Reading back a laid-out file finds its header and joins its IDAT bodies, wherever they stand. */
  lemma ParseFile(f: File, data: ByteString)
    requires f.WellFormed() && data == f.Bytes(Serialize)
    ensures Slice(data, 0, 8) == SIGNATURE
    ensures ParseChunks(ChunksOf(data), |data|, 8, EMPTY_STREAM)
         == Ok(Stream(ReadHeader(f.header.raw.body), IdatBytes(f.before) + IdatBytes(f.after)))
  {
    forall i | 0 <= i < |f.before| ensures Finds(Serialize, ChunksOf(data), data, f.before[i]) {
      SerializedIsFound(data, f.before[i]);
    }
    forall i | 0 <= i < |f.after| ensures Finds(Serialize, ChunksOf(data), data, f.after[i]) {
      SerializedIsFound(data, f.after[i]);
    }
    SerializedIsFound(data, f.header);
    SerializedIsFound(data, f.end);
    var n1, n3 := FileLayout(f, Serialize, ChunksOf(data));
    ParseLaidOut(f, ChunksOf(data), |data|, n1, n3, ReadHeader(f.header.raw.body));
  }

  /** The IHDR body of an 8-bit image; what follows the first ten bytes is not read. */
  function HeaderBody(width: nat, height: nat, colorType: Byte, rest: ByteString): ByteString
    requires width < 0x1_0000_0000 && height < 0x1_0000_0000
  {
    WriteBE32(width) + WriteBE32(height) + [8, colorType] + rest
  }

  lemma HeaderReadBack(width: nat, height: nat, colorType: Byte, rest: ByteString)
    requires width < 0x1_0000_0000 && height < 0x1_0000_0000
    ensures var body := HeaderBody(width, height, colorType, rest);
            |body| >= 10 && ReadHeader(body) == Header(width, height, 8, colorType as nat)
  {
    var body := HeaderBody(width, height, colorType, rest);
    assert Slice(body, 0, 4) == WriteBE32(width) && Slice(body, 4, 8) == WriteBE32(height);
  }

  // ---------------------------------------------------------------------------------------------
  // A plain writer

  function Join(parts: seq<ByteString>): ByteString {
    if parts == [] then [] else parts[0] + Join(parts[1..])
  }

  function ChunkOf(kind: ChunkKind, tag: ByteString, body: ByteString): Chunk {
    Chunk(RawChunk(|body|, kind, body), tag, Zeros(4))
  }

  function DataChunks(parts: seq<ByteString>): (chunks: seq<Chunk>)
    ensures |chunks| == |parts|
  {
    if parts == [] then [] else [ChunkOf(DataChunk, IDAT, parts[0])] + DataChunks(parts[1..])
  }

  lemma {:induction false} DataChunksJoin(parts: seq<ByteString>)
    requires forall i :: 0 <= i < |parts| ==> |parts[i]| < 0x1_0000_0000
    ensures IdatBytes(DataChunks(parts)) == Join(parts)
    ensures forall i :: 0 <= i < |parts| ==> DataChunks(parts)[i].WellFormed() && DataChunks(parts)[i].Inner()
  {
    if parts != [] {
      DataChunksJoin(parts[1..]);
      assert DataChunks(parts)[0].WellFormed();
      assert DataChunks(parts)[1..] == DataChunks(parts[1..]);
      assert IdatBytes(DataChunks(parts)) == parts[0] + IdatBytes(DataChunks(parts)[1..]);
      forall i | 0 < i < |parts|
        ensures DataChunks(parts)[i].WellFormed() && DataChunks(parts)[i].Inner()
      {
        assert DataChunks(parts)[i] == DataChunks(parts[1..])[i - 1];
      }
    }
  }

  /** A file with the given IHDR body and compressed stream, in parts. */
  function PlainFile(headerBody: ByteString, parts: seq<ByteString>): File {
    File([], ChunkOf(HeaderChunk, IHDR, headerBody), DataChunks(parts), ChunkOf(EndChunk, IEND, []), [])
  }

  lemma PlainFileWellFormed(headerBody: ByteString, parts: seq<ByteString>)
    requires 10 <= |headerBody| < 0x1_0000_0000
    requires forall i :: 0 <= i < |parts| ==> |parts[i]| < 0x1_0000_0000
    ensures var f := PlainFile(headerBody, parts);
            f.WellFormed() && f.header.raw.body == headerBody && IdatBytes(f.before) + IdatBytes(f.after) == Join(parts)
  {
    DataChunksJoin(parts);
    assert [] + Join(parts) == Join(parts);
    assert ChunkOf(HeaderChunk, IHDR, headerBody).WellFormed();
    assert ChunkOf(EndChunk, IEND, []).WellFormed();
  }
}
