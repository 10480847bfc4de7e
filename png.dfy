/**
  `save_as_png`: the PNG byte stream written for an image read by `read_ppm`
  (ISO/IEC 15948): the signature, an IHDR chunk for 8-bit RGB without
  interlacing, one IDAT chunk holding the compressed scanlines (each led by
  filter type 0, "None"), and an empty IEND chunk.

  `zlib.crc32` and `zlib.compress` are not part of this model: they are the
  functions `crc32` and `compress` the caller supplies. A failure part way
  leaves the bytes written so far in the file; the outcome records them.
 */
module Png {
  import opened Vectors
  import opened Ppm

  const Two32: int := 0x1_0000_0000

  /** The range `struct.pack('>I', n)` accepts; outside it raises `struct.error`. */
  predicate IsU32(n: int)
  {
    0 <= n < Two32
  }

  /** `struct.pack('>I', n)`: four bytes, most significant first. */
  function U32BE(n: int): (b: seq<byte>)
    requires IsU32(n)
    ensures |b| == 4
  {
    var q1 := n / 256;
    var q2 := q1 / 256;
    [q2 / 256, q2 % 256, q1 % 256, n % 256]
  }

  /** `struct.unpack('>I', b)`. */
  function DecodeU32BE(b: seq<byte>): (n: int)
    requires |b| == 4
    ensures IsU32(n)
  {
    var b0: int, b1: int, b2: int, b3: int := b[0], b[1], b[2], b[3];
    ((b0 * 256 + b1) * 256 + b2) * 256 + b3
  }

  /** Division by 256 of a number written as quotient and remainder. */
  lemma DivMod256(k: int, q: int, r: int)
    requires 0 <= r < 256 && k == q * 256 + r
    ensures k / 256 == q && k % 256 == r
  {
  }

  /** Decoding undoes the packing. */
  lemma DecodeU32BEOfU32BE(n: int)
    requires IsU32(n)
    ensures DecodeU32BE(U32BE(n)) == n
  {
    var q1 := n / 256;
    var q2 := q1 / 256;
    assert n == q1 * 256 + n % 256;
    assert q1 == q2 * 256 + q1 % 256;
    assert q2 == q2 / 256 * 256 + q2 % 256;
  }

  /** Packing undoes the decoding: every four bytes are the packing of exactly one number. */
  lemma U32BEOfDecodeU32BE(b: seq<byte>)
    requires |b| == 4
    ensures U32BE(DecodeU32BE(b)) == b
  {
    var b0: int, b1: int, b2: int, b3: int := b[0], b[1], b[2], b[3];
    var n := DecodeU32BE(b);
    DivMod256(n, (b0 * 256 + b1) * 256 + b2, b3);
    DivMod256((b0 * 256 + b1) * 256 + b2, b0 * 256 + b1, b2);
    DivMod256(b0 * 256 + b1, b0, b1);
    DivMod256(b0, 0, b0);
  }

  /** The 8-byte PNG signature (section 5.2 of ISO/IEC 15948). */
  const Signature: seq<byte> := [0x89, 0x50, 0x4E, 0x47, 0x0D, 0x0A, 0x1A, 0x0A]

  /** The chunk type codes, in ASCII. */
  const IhdrType: seq<byte> := [0x49, 0x48, 0x44, 0x52]
  const IdatType: seq<byte> := [0x49, 0x44, 0x41, 0x54]
  const IendType: seq<byte> := [0x49, 0x45, 0x4E, 0x44]

  /** `zlib.crc32`: any integer; the writer keeps its low 32 bits. */
  type Crc32 = seq<byte> -> int

  /** `zlib.compress(data, level=9)`. */
  type Compress = seq<byte> -> seq<byte>

  /** `crc32(b) & 0xffffffff`, which for Python's integers is the value modulo 2^32. */
  function MaskedCrc(crc32: Crc32, b: seq<byte>): (c: int)
    ensures IsU32(c)
  {
    crc32(b) % Two32
  }

  /**
    A chunk (section 5.3): the data length as four big-endian bytes, the
    type, the data, and the CRC of type and data.
   */
  function Chunk(kind: seq<byte>, data: seq<byte>, crc32: Crc32): (c: seq<byte>)
    requires |kind| == 4 && IsU32(|data|)
    ensures |c| == 12 + |data|
  {
    U32BE(|data|) + kind + data + U32BE(MaskedCrc(crc32, kind + data))
  }

  /** What a reader finds in one chunk. */
  datatype ChunkView = ChunkView(kind: seq<byte>, data: seq<byte>)

  /**
    Reads one chunk from the front of `bytes`: None when the bytes are too
    short for the announced length or the CRC does not match.
   */
  function ParseChunk(bytes: seq<byte>, crc32: Crc32): Option<(ChunkView, seq<byte>)>
  {
    if |bytes| < 12 then None
    else
      var length := DecodeU32BE(bytes[..4]);
      if |bytes| < 12 + length then None
      else
        var kind, data := bytes[4..8], bytes[8..8 + length];
        if DecodeU32BE(bytes[8 + length..12 + length]) != MaskedCrc(crc32, kind + data) then None
        else Some((ChunkView(kind, data), bytes[12 + length..]))
  }

  /** Reads chunks until the bytes run out. */
  function ParseChunks(bytes: seq<byte>, crc32: Crc32): Option<seq<ChunkView>>
    decreases |bytes|
  {
    if |bytes| == 0 then Some([])
    else match ParseChunk(bytes, crc32)
      case None => None
      case Some((c, rest)) =>
        if |rest| >= |bytes| then None
        else match ParseChunks(rest, crc32)
          case None => None
          case Some(cs) => Some([c] + cs)
  }

  /** A PNG reader's view: the signature, then the chunks. */
  function ParsePng(bytes: seq<byte>, crc32: Crc32): Option<seq<ChunkView>>
  {
    if |bytes| >= 8 && bytes[..8] == Signature then ParseChunks(bytes[8..], crc32) else None
  }

  /** A chunk, and whatever follows it, reads back as its type and data and leaves the rest. */
  lemma ParseChunkOfChunk(kind: seq<byte>, data: seq<byte>, rest: seq<byte>, crc32: Crc32)
    requires |kind| == 4 && IsU32(|data|)
    ensures ParseChunk(Chunk(kind, data, crc32) + rest, crc32) == Some((ChunkView(kind, data), rest))
  {
    var c := Chunk(kind, data, crc32);
    var bytes := c + rest;
    var n := |data|;
    assert bytes[..4] == U32BE(n);
    DecodeU32BEOfU32BE(n);
    assert bytes[4..8] == kind;
    assert bytes[8..8 + n] == data;
    assert bytes[8 + n..12 + n] == U32BE(MaskedCrc(crc32, kind + data));
    DecodeU32BEOfU32BE(MaskedCrc(crc32, kind + data));
    assert bytes[12 + n..] == rest;
  }

  /** A chunk in front of bytes that read as chunks `cs` reads as that chunk followed by `cs`. */
  lemma ParseChunksOfChunk(kind: seq<byte>, data: seq<byte>, rest: seq<byte>, cs: seq<ChunkView>, crc32: Crc32)
    requires |kind| == 4 && IsU32(|data|) && ParseChunks(rest, crc32) == Some(cs)
    ensures ParseChunks(Chunk(kind, data, crc32) + rest, crc32) == Some([ChunkView(kind, data)] + cs)
  {
    ParseChunkOfChunk(kind, data, rest, crc32);
  }

  /** Writing a chunk's four fields one after the other appends the chunk. */
  lemma AppendChunkFields(png: seq<byte>, kind: seq<byte>, data: seq<byte>, crc32: Crc32)
    requires |kind| == 4 && IsU32(|data|)
    ensures png + U32BE(|data|) + kind + data + U32BE(MaskedCrc(crc32, kind + data)) == png + Chunk(kind, data, crc32)
  {
    var length, crc := U32BE(|data|), U32BE(MaskedCrc(crc32, kind + data));
    assert png + length + kind + data + crc == png + (length + kind + data + crc);
  }

  /** `struct.pack('>IIBBBBB', width, height, 8, 2, 0, 0, 0)`: 8-bit truecolour, no interlace. */
  function IhdrData(width: int, height: int): (d: seq<byte>)
    requires IsU32(width) && IsU32(height)
    ensures |d| == 13
  {
    U32BE(width) + U32BE(height) + [8, 2, 0, 0, 0]
  }

  /**
    The IHDR data (section 11.2.2) gives back the width and the height and
    declares bit depth 8, colour type 2, and compression, filter and
    interlace methods 0.
   */
  lemma IhdrFields(width: int, height: int)
    requires IsU32(width) && IsU32(height)
    ensures var d := IhdrData(width, height);
      && DecodeU32BE(d[..4]) == width && DecodeU32BE(d[4..8]) == height
      && d[8] == 8 && d[9] == 2 && d[10] == 0 && d[11] == 0 && d[12] == 0
  {
    var d := IhdrData(width, height);
    assert d[..4] == U32BE(width);
    assert d[4..8] == U32BE(height);
    DecodeU32BEOfU32BE(width);
    DecodeU32BEOfU32BE(height);
  }

  function Min(a: int, b: int): int
  {
    if a < b then a else b
  }

  /**
    `raw_data` of `save_as_png`: the pixel bytes cut into consecutive
    slices of `stride` bytes (the last may be shorter), each led by a 0
    filter byte.
   */
  function Scanlines(data: seq<byte>, stride: int): seq<byte>
    requires stride > 0
    decreases |data|
  {
    if |data| == 0 then []
    else
      var n := Min(stride, |data|);
      [0] + data[..n] + Scanlines(data[n..], stride)
  }

  /**
    A decoder's view of the raw data: slices of up to `stride` bytes, each
    of which must be led by filter type 0 (None); any other filter byte is
    not handled here.
   */
  function Unfilter(raw: seq<byte>, stride: int): Option<seq<byte>>
    requires stride > 0
    decreases |raw|
  {
    if |raw| == 0 then Some([])
    else if raw[0] != 0 then None
    else
      var n := Min(stride, |raw| - 1);
      match Unfilter(raw[1 + n..], stride)
      case None => None
      case Some(rest) => Some(raw[1..1 + n] + rest)
  }

  /** The number of slices `range(0, n, stride)` yields. */
  function SliceCount(n: int, stride: int): (c: nat)
    requires stride > 0
    decreases n
  {
    if n <= 0 then 0 else 1 + SliceCount(n - stride, stride)
  }

  /** The number of slices is the length over the stride, rounded up. */
  lemma {:induction false} SliceCountCeiling(n: nat, stride: int)
    requires stride > 0
    ensures (SliceCount(n, stride) - 1) * stride < n <= SliceCount(n, stride) * stride
    decreases n
  {
    if n > stride {
      SliceCountCeiling(n - stride, stride);
    }
  }

  /** The raw data is one filter byte longer per slice than the pixel bytes. */
  lemma {:induction false} ScanlinesLength(data: seq<byte>, stride: int)
    requires stride > 0
    ensures |Scanlines(data, stride)| == |data| + SliceCount(|data|, stride)
    decreases |data|
  {
    if |data| > 0 {
      var n := Min(stride, |data|);
      ScanlinesLength(data[n..], stride);
    }
  }

  /** A sequence is its prefix followed by its suffix. */
  lemma SplitAt(data: seq<byte>, n: int)
    requires 0 <= n <= |data|
    ensures data[..n] + data[n..] == data
  {
  }

  /** One slice led by filter byte 0, then further raw data: unfiltering takes off the slice. */
  lemma UnfilterSlice(piece: seq<byte>, tail: seq<byte>, stride: int, rest: seq<byte>)
    requires 0 < |piece| <= stride && (|piece| < stride ==> tail == [])
    requires Unfilter(tail, stride) == Some(rest)
    ensures Unfilter([0] + piece + tail, stride) == Some(piece + rest)
  {
    var raw := [0] + piece + tail;
    assert raw[0] == 0;
    assert Min(stride, |raw| - 1) == |piece|;
    assert raw[1..1 + |piece|] == piece;
    assert raw[1 + |piece|..] == tail;
  }

  /** Every slice is led by filter type 0: removing the filter bytes gives back the pixel bytes. */
  lemma {:induction false} UnfilterScanlines(data: seq<byte>, stride: int)
    requires stride > 0
    ensures Unfilter(Scanlines(data, stride), stride) == Some(data)
    decreases |data|
  {
    if |data| > 0 {
      var n := Min(stride, |data|);
      var piece, rest := data[..n], data[n..];
      var tail := Scanlines(rest, stride);
      assert Scanlines(data, stride) == [0] + piece + tail;
      if n < stride {
        assert |rest| == 0;
      }
      UnfilterScanlines(rest, stride);
      UnfilterSlice(piece, tail, stride, rest);
      SplitAt(data, n);
    }
  }

  /** Why writing stopped. */
  datatype PngError =
    | StructError   // `struct.pack` got a value outside 0 .. 2^32 - 1
    | ZeroStep      // `range` with step 0: the width is 0
    | TypeMismatch  // bytes joined with the text of a P6 file

  datatype Outcome =
    | ReadFailed(ppmError: PpmError)
    | Aborted(error: PngError, written: seq<byte>)
    | Saved(png: seq<byte>)

  /**
    The raw scanlines for the pixel data with `stride` bytes per row: P3
    bytes are sliced; P6 text cannot be joined with bytes unless the range
    of slices is empty.
   */
  function RawData(pixels: PixelData, stride: int): Option<seq<byte>>
    requires stride > 0
  {
    match pixels
    case Bytes(data) => Some(Scanlines(data, stride))
    case Text(text) => if |text| == 0 then Some([]) else None
  }

  /** The signature and the IHDR chunk. */
  function Head(width: int, height: int, crc32: Crc32): seq<byte>
    requires IsU32(width) && IsU32(height)
  {
    Signature + Chunk(IhdrType, IhdrData(width, height), crc32)
  }

  /** The writes of `save_as_png` after the read, in order, up to the first failure. */
  function Encode(image: Image, crc32: Crc32, compress: Compress): (o: Outcome)
    ensures !o.ReadFailed?
  {
    var width, height := image.width, image.height;
    if !IsU32(width) || !IsU32(height) then Aborted(StructError, Signature)
    else EncodePixels(image.pixels, width, Head(width, height, crc32), crc32, compress)
  }

  /** The writes after the IHDR chunk, given what has been written so far. */
  function EncodePixels(pixels: PixelData, width: int, head: seq<byte>, crc32: Crc32, compress: Compress): (o: Outcome)
    requires width >= 0
    ensures !o.ReadFailed?
  {
    if width == 0 then Aborted(ZeroStep, head)
    else match RawData(pixels, width * 3)
      case None => Aborted(TypeMismatch, head)
      case Some(raw) =>
        var idat := compress(raw);
        if !IsU32(|idat|) then Aborted(StructError, head)
        else Saved(head + Chunk(IdatType, idat, crc32) + Chunk(IendType, [], crc32))
  }

  /** `save_as_png` as a whole: a failed read writes nothing. */
  function SavePng(lines: seq<string>, crc32: Crc32, compress: Compress): Outcome
  {
    match ParsePpm(lines)
    case Err(e) => ReadFailed(e)
    case Ok(image) => Encode(image, crc32, compress)
  }

  /**
    `save_as_png`: read the PPM, then append the signature, the IHDR chunk,
    the IDAT chunk and the IEND chunk to the output, stopping at the first
    failing pack, range or join with what has been written so far.
   */
  method SaveAsPng(lines: seq<string>, crc32: Crc32, compress: Compress) returns (outcome: Outcome)
    ensures outcome == SavePng(lines, crc32, compress)
  {
    var read := ReadPpm(lines);
    if read.Err? {
      return ReadFailed(read.error);
    }
    outcome := WritePng(read.value, crc32, compress);
  }

  /** The writes of `save_as_png` once the PPM has been read. */
  method WritePng(image: Image, crc32: Crc32, compress: Compress) returns (outcome: Outcome)
    ensures outcome == Encode(image, crc32, compress)
  {
    var width, height, pixelData := image.width, image.height, image.pixels;
    var png: seq<byte> := [];
    png := png + Signature;
    if !IsU32(width) || !IsU32(height) {
      return Aborted(StructError, png);
    }
    var ihdrData := IhdrData(width, height);
    png := png + U32BE(|ihdrData|);
    png := png + IhdrType;
    png := png + ihdrData;
    png := png + U32BE(MaskedCrc(crc32, IhdrType + ihdrData));
    AppendChunkFields(Signature, IhdrType, ihdrData, crc32);
    ghost var head := png;
    assert head == Head(width, height, crc32);
    if width * 3 == 0 {
      return Aborted(ZeroStep, png);
    }
    var rawData: seq<byte>;
    match pixelData {
      case Bytes(data) =>
        rawData := Scanlines(data, width * 3);
      case Text(text) =>
        if |text| > 0 {
          return Aborted(TypeMismatch, png);
        }
        rawData := [];
    }
    assert RawData(pixelData, width * 3) == Some(rawData);
    var compressedData := compress(rawData);
    if !IsU32(|compressedData|) {
      return Aborted(StructError, png);
    }
    png := png + U32BE(|compressedData|);
    png := png + IdatType;
    png := png + compressedData;
    png := png + U32BE(MaskedCrc(crc32, IdatType + compressedData));
    AppendChunkFields(head, IdatType, compressedData, crc32);
    ghost var withIdat := png;
    png := png + U32BE(0);
    png := png + IendType;
    png := png + U32BE(MaskedCrc(crc32, IendType));
    assert IendType + [] == IendType;
    assert png == withIdat + Chunk(IendType, [], crc32);
    return Saved(png);
  }

  /** Whatever happens after a successful read, the file starts with the signature. */
  lemma SignatureFirst(image: Image, crc32: Crc32, compress: Compress)
    ensures var o := Encode(image, crc32, compress);
      var written := if o.Saved? then o.png else o.written;
      |written| >= 8 && written[..8] == Signature
  {
  }

  /** An IDAT chunk followed by an empty IEND chunk reads back as those two chunks. */
  lemma ParseIdatIend(idat: seq<byte>, crc32: Crc32)
    requires IsU32(|idat|)
    ensures ParseChunks(Chunk(IdatType, idat, crc32) + Chunk(IendType, [], crc32), crc32)
      == Some([ChunkView(IdatType, idat), ChunkView(IendType, [])])
  {
    var iend := Chunk(IendType, [], crc32);
    assert ParseChunks([], crc32) == Some([]);
    ParseChunksOfChunk(IendType, [], [], [], crc32);
    assert iend + [] == iend;
    assert [ChunkView(IendType, [])] + [] == [ChunkView(IendType, [])];
    ParseChunksOfChunk(IdatType, idat, iend, [ChunkView(IendType, [])], crc32);
    assert [ChunkView(IdatType, idat)] + [ChunkView(IendType, [])] == [ChunkView(IdatType, idat), ChunkView(IendType, [])];
  }

  /** The signature in front of bytes that read as chunks `cs` makes a file that reads as `cs`. */
  lemma ParsePngOfSignature(body: seq<byte>, cs: seq<ChunkView>, crc32: Crc32)
    requires ParseChunks(body, crc32) == Some(cs)
    ensures ParsePng(Signature + body, crc32) == Some(cs)
  {
    assert (Signature + body)[..8] == Signature;
    assert (Signature + body)[8..] == body;
  }

  /** The signature followed by an IHDR, an IDAT and an empty IEND chunk reads back as those three chunks. */
  lemma ParsePngOfThreeChunks(ihdrData: seq<byte>, idat: seq<byte>, crc32: Crc32)
    requires IsU32(|ihdrData|) && IsU32(|idat|)
    ensures ParsePng(Signature + Chunk(IhdrType, ihdrData, crc32) + Chunk(IdatType, idat, crc32)
                     + Chunk(IendType, [], crc32), crc32)
      == Some([ChunkView(IhdrType, ihdrData), ChunkView(IdatType, idat), ChunkView(IendType, [])])
  {
    var ihdr, idatChunk, iend := Chunk(IhdrType, ihdrData, crc32), Chunk(IdatType, idat, crc32), Chunk(IendType, [], crc32);
    var cs := [ChunkView(IdatType, idat), ChunkView(IendType, [])];
    ParseIdatIend(idat, crc32);
    ParseChunksOfChunk(IhdrType, ihdrData, idatChunk + iend, cs, crc32);
    assert [ChunkView(IhdrType, ihdrData)] + cs == [ChunkView(IhdrType, ihdrData), ChunkView(IdatType, idat), ChunkView(IendType, [])];
    ParsePngOfSignature(ihdr + (idatChunk + iend), [ChunkView(IhdrType, ihdrData)] + cs, crc32);
    ConcatAssoc(Signature, ihdr, idatChunk, iend);
  }

  /** A saved file reads back as exactly three chunks: IHDR with the image header, IDAT, and an empty IEND. */
  lemma SavedChunks(image: Image, crc32: Crc32, compress: Compress)
    requires Encode(image, crc32, compress).Saved?
    ensures IsU32(image.width) && IsU32(image.height) && image.width > 0
    ensures RawData(image.pixels, image.width * 3).Some?
    ensures ParsePng(Encode(image, crc32, compress).png, crc32) == Some([
      ChunkView(IhdrType, IhdrData(image.width, image.height)),
      ChunkView(IdatType, compress(RawData(image.pixels, image.width * 3).value)),
      ChunkView(IendType, [])])
  {
    var raw := RawData(image.pixels, image.width * 3).value;
    ParsePngOfThreeChunks(IhdrData(image.width, image.height), compress(raw), crc32);
  }

  /**
    Round trip for P3 input: a saved file's IHDR gives back the width and
    height, and undoing the compression and the filtering of its IDAT data
    gives back every pixel byte that was read.
   */
  lemma SavedPixels(image: Image, crc32: Crc32, compress: Compress, decompress: Compress)
    requires Encode(image, crc32, compress).Saved? && image.pixels.Bytes?
    requires forall raw :: decompress(compress(raw)) == raw
    ensures var chunks := ParsePng(Encode(image, crc32, compress).png, crc32);
      && chunks.Some? && |chunks.value| == 3
      && DecodeU32BE(chunks.value[0].data[..4]) == image.width
      && DecodeU32BE(chunks.value[0].data[4..8]) == image.height
      && Unfilter(decompress(chunks.value[1].data), image.width * 3) == Some(image.pixels.data)
  {
    SavedChunks(image, crc32, compress);
    IhdrFields(image.width, image.height);
    UnfilterScanlines(image.pixels.data, image.width * 3);
  }

  /** The IEND chunk announces length 0. */
  lemma IendEmpty(crc32: Crc32)
    ensures Chunk(IendType, [], crc32)[..4] == [0, 0, 0, 0]
    ensures Chunk(IendType, [], crc32)[4..8] == IendType
  {
  }

  /**
    A width of 0 passes the IHDR packing and then stops the writer at the
    step-0 range, after the signature and the IHDR chunk are written.
   */
  lemma ZeroWidthAborts(image: Image, crc32: Crc32, compress: Compress)
    requires image.width == 0 && IsU32(image.height)
    ensures Encode(image, crc32, compress) == Aborted(ZeroStep, Head(0, image.height, crc32))
  {
  }

  /**
    Text read from a P6 file cannot be joined with bytes: with a positive
    width, a non-empty body always aborts after the IHDR chunk.
   */
  lemma P6TextAborts(image: Image, crc32: Crc32, compress: Compress)
    requires image.pixels.Text? && |image.pixels.text| > 0
    requires IsU32(image.width) && IsU32(image.height) && image.width > 0
    ensures Encode(image, crc32, compress) == Aborted(TypeMismatch, Head(image.width, image.height, crc32))
  {
  }

  /** A width or height outside the unsigned 32-bit range aborts right after the signature. */
  lemma OutOfRangeDimensionsAbort(image: Image, crc32: Crc32, compress: Compress)
    requires !IsU32(image.width) || !IsU32(image.height)
    ensures Encode(image, crc32, compress) == Aborted(StructError, Signature)
  {
  }
}
