/**
 * The two pipelines of the program, `compress_file_multithreaded` and
 * `decompress_file_multithreaded`, with files as byte sequences: read the
 * input into chunks or records, transform every slot, write the results in
 * slot order.  The main theorem is that decompressing what compression
 * wrote gives back the input, for every input, the empty one included,
 * under the codec laws of `Codec`.
 */
module Pipeline {
  import opened Bytes
  import opened Outcomes
  import opened Codec
  import opened Chunking
  import opened Slots
  import opened Container

  /** The work one compression thread does on its chunk. */
  function Compressor(z: Zlib): seq<byte> -> Result<seq<byte>> {
    (data: seq<byte>) => CompressChunk(z, data)
  }

  /** The work one decompression thread does on its record. */
  function Decompressor(z: Zlib): Record -> Result<seq<byte>> {
    (r: Record) => DecompressChunk(z, r.payload, r.originalSize)
  }

  /** The container compression writes for `input`, or the codec's failure. */
  function CompressSpec(z: Zlib, input: seq<byte>): Result<seq<byte>> {
    var chunks := Split(input);
    match MapAll(Compressor(z), chunks)
    case Failure(e) => Failure(e)
    case Success(compressed) => Success(Frame(Records(chunks, compressed)))
  }

  /** The file decompression writes for `container`, or why it writes none. */
  function DecompressSpec(z: Zlib, container: seq<byte>): Result<seq<byte>> {
    match ParseFrom(container)
    case Indeterminate => Failure(UndefinedHeader)
    case Done(records) =>
      match MapAll(Decompressor(z), records)
      case Failure(e) => Failure(e)
      case Success(chunks) => Success(Flatten(chunks))
  }

  method CompressFile(z: Zlib, input: seq<byte>) returns (r: Result<seq<byte>>)
    ensures r == CompressSpec(z, input)
  {
    var chunks := ReadChunks(input);
    var compressed := FillSlots(Compressor(z), chunks);
    if compressed.Failure? {
      return Failure(compressed.error);
    }
    var out := WriteContainer(chunks, compressed.value);
    r := Success(out);
  }

  method DecompressFile(z: Zlib, container: seq<byte>) returns (r: Result<seq<byte>>)
    ensures r == DecompressSpec(z, container)
  {
    var parsed := ReadContainer(container);
    if parsed.Indeterminate? {
      return Failure(UndefinedHeader);
    }
    var decompressed := FillSlots(Decompressor(z), parsed.records);
    if decompressed.Failure? {
      return Failure(decompressed.error);
    }
    var out := WriteChunks(decompressed.value);
    r := Success(out);
  }

  /**
   * A successful compression writes one record per chunk, ceil(n /
   * CHUNK_SIZE) of them, record `i` holding the length of chunk `i` and its
   * compressed bytes, and the container is read back as exactly those
   * records.
   */
  lemma CompressedContainer(z: Zlib, input: seq<byte>)
    requires HonoursBuffers(z) && BoundFitsU32(z, CHUNK_SIZE)
    requires CompressSpec(z, input).Success?
    ensures var chunks := Split(input);
            var compressed := MapAll(Compressor(z), chunks).value;
            && |compressed| == |chunks| == (|input| + CHUNK_SIZE - 1) / CHUNK_SIZE
            && (forall i :: 0 <= i < |chunks| ==> Success(compressed[i]) == CompressChunk(z, chunks[i]))
            && AllFit(Records(chunks, compressed))
            && ParseFrom(CompressSpec(z, input).value) == Done(Records(chunks, compressed))
            && |CompressSpec(z, input).value| == FramedLength(Records(chunks, compressed))
  {
    var chunks := Split(input);
    var compressed := MapAll(Compressor(z), chunks).value;
    SplitCount(input);
    SplitShape(input);
    MapAllSlots(Compressor(z), chunks);
    var rs := Records(chunks, compressed);
    forall i | 0 <= i < |rs| ensures Fits(rs[i]) {
      assert CompressChunk(z, chunks[i]).Success?;
      assert |chunks[i]| <= CHUNK_SIZE;
    }
    ParseFrame(rs);
    FrameLength(rs);
  }

  /**
   * Compression followed by decompression reproduces the input exactly,
   * whenever compression succeeds, given zlib's law on the raw calls and a
   * zlib that keeps to its buffers.
   */
  lemma RoundTrip(z: Zlib, input: seq<byte>)
    requires HonoursBuffers(z) && BoundFitsU32(z, CHUNK_SIZE) && RawRoundTrips(z)
    ensures CompressSpec(z, input).Success? ==>
              DecompressSpec(z, CompressSpec(z, input).value) == Success(input)
  {
    if CompressSpec(z, input).Success? {
      AdaptersRoundTrip(z);
      var chunks := Split(input);
      var compressed := MapAll(Compressor(z), chunks).value;
      var rs := Records(chunks, compressed);
      CompressedContainer(z, input);
      forall i | 0 <= i < |rs| ensures Decompressor(z)(rs[i]) == Success(chunks[i]) {
        assert CompressChunk(z, chunks[i]) == Success(compressed[i]);
      }
      MapAllSlots(Decompressor(z), rs);
      assert MapAll(Decompressor(z), rs).value == chunks;
      SplitFlatten(input);
    }
  }

  /** With a `compressBound` buffer always large enough, compression never fails. */
  lemma CompressSucceeds(z: Zlib, input: seq<byte>)
    requires BoundSuffices(z)
    ensures CompressSpec(z, input).Success?
  {
    MapAllSlots(Compressor(z), Split(input));
  }

  /** Under all the codec laws, every input survives compression and decompression. */
  lemma RoundTripTotal(z: Zlib, input: seq<byte>)
    requires HonoursBuffers(z) && BoundFitsU32(z, CHUNK_SIZE) && BoundSuffices(z) && RawRoundTrips(z)
    ensures CompressSpec(z, input).Success?
    ensures DecompressSpec(z, CompressSpec(z, input).value) == Success(input)
  {
    CompressSucceeds(z, input);
    RoundTrip(z, input);
  }

  /** The empty file compresses to the empty container, which decompresses to the empty file. */
  lemma EmptyFile(z: Zlib)
    ensures CompressSpec(z, []) == Success([])
    ensures DecompressSpec(z, []) == Success([])
  {
  }
}
