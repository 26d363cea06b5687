/**
 * The codec adapters `compress_chunk` and `decompress_chunk` over an
 * abstract zlib.  zlib itself is not modelled: it is a value of type `Zlib`
 * holding `compressBound`, `compress` and `uncompress`, and what the adapters
 * need from it is stated as predicates (`HonoursBuffers`, `BoundFitsU32`,
 * `BoundSuffices`, `RawRoundTrips`) that the theorems about the pipeline
 * take as hypotheses.
 */
module Codec {
  import opened Bytes
  import opened Outcomes

  /** zlib's status codes, as far as the adapters look at them. */
  const Z_OK: int := 0
  const Z_BUF_ERROR: int := -5

  /**
   * What a call `compress(dest, &destLen, source, sourceLen)` (or
   * `uncompress`) leaves behind: its status, the contents of the destination
   * buffer afterwards, and the value written back through `destLen`.
   */
  datatype ZCall = ZCall(status: int, dest: seq<byte>, destLen: nat)

  /**
   * The three zlib entry points the program calls.  `compress` and
   * `uncompress` take the source bytes and the capacity of the destination
   * buffer (the value `destLen` holds on entry); the buffer itself is always
   * a fresh zero-filled vector of that capacity, so these two arguments
   * determine the call.
   */
  datatype Zlib = Zlib(
    compressBound: nat -> nat,
    compress: (seq<byte>, nat) -> ZCall,
    uncompress: (seq<byte>, nat) -> ZCall)

  /**
   * zlib writes inside the buffer it is given and, on success, reports a
   * length that fits in it.
   */
  ghost predicate HonoursBuffers(z: Zlib) {
    && (forall src, cap :: |z.compress(src, cap).dest| == cap
          && (z.compress(src, cap).status == Z_OK ==> z.compress(src, cap).destLen <= cap))
    && (forall src, cap :: |z.uncompress(src, cap).dest| == cap
          && (z.uncompress(src, cap).status == Z_OK ==> z.uncompress(src, cap).destLen <= cap))
  }

  /** `compressBound` of every input of at most `maxInput` bytes fits in a `uint32_t`. */
  ghost predicate BoundFitsU32(z: Zlib, maxInput: nat) {
    forall n: nat :: n <= maxInput ==> z.compressBound(n) < U32_LIMIT
  }

  /**
   * `compress_chunk`: a buffer of `compressBound(|data|)` bytes, one call to
   * `compress`, an exception on any status other than Z_OK, and otherwise
   * the buffer cut down to the reported length.
   */
  function CompressChunk(z: Zlib, data: seq<byte>): (r: Result<seq<byte>>)
    ensures r.Failure? <==> z.compress(data, z.compressBound(|data|)).status != Z_OK
    ensures r.Failure? ==> r.error == CompressionFailed
    ensures r.Success? ==> |r.value| == z.compress(data, z.compressBound(|data|)).destLen
    ensures HonoursBuffers(z) && r.Success? ==>
              |r.value| <= z.compressBound(|data|)
              && r.value == z.compress(data, z.compressBound(|data|)).dest[..|r.value|]
  {
    var call := z.compress(data, z.compressBound(|data|));
    if call.status != Z_OK then Failure(CompressionFailed)
    else Success(Resize(call.dest, call.destLen))
  }

  /**
   * `decompress_chunk`: a buffer of `originalSize` bytes, one call to
   * `uncompress`, an exception on any status other than Z_OK, and otherwise
   * the buffer cut down to the reported length.  The reported length is not
   * compared with `originalSize`: a shorter result is returned as it is.
   */
  function DecompressChunk(z: Zlib, compressed: seq<byte>, originalSize: nat): (r: Result<seq<byte>>)
    ensures r.Failure? <==> z.uncompress(compressed, originalSize).status != Z_OK
    ensures r.Failure? ==> r.error == DecompressionFailed
    ensures r.Success? ==> |r.value| == z.uncompress(compressed, originalSize).destLen
    ensures HonoursBuffers(z) && r.Success? ==>
              |r.value| <= originalSize
              && r.value == z.uncompress(compressed, originalSize).dest[..|r.value|]
  {
    var call := z.uncompress(compressed, originalSize);
    if call.status != Z_OK then Failure(DecompressionFailed)
    else Success(Resize(call.dest, call.destLen))
  }

  /**
   * zlib's compression law, stated on the raw calls: a buffer of
   * `compressBound(|x|)` bytes that `compress` filled successfully, cut to
   * the length it reported and handed to `uncompress` with a buffer of `|x|`
   * bytes, inflates successfully to exactly `|x|` bytes, and those bytes are
   * `x`.
   */
  ghost predicate RawRoundTrips(z: Zlib) {
    forall x :: z.compress(x, z.compressBound(|x|)).status == Z_OK ==>
      var c := z.compress(x, z.compressBound(|x|));
      && c.destLen <= |c.dest|
      && var u := z.uncompress(c.dest[..c.destLen], |x|);
         && u.status == Z_OK
         && u.destLen == |x| <= |u.dest|
         && u.dest[..|x|] == x
  }

  /**
   * zlib's documented guarantee that a destination of `compressBound`
   * bytes is always large enough, so that `compress` only fails for want of
   * memory, which the model does not consider.
   */
  ghost predicate BoundSuffices(z: Zlib) {
    forall x :: z.compress(x, z.compressBound(|x|)).status == Z_OK
  }

  /**
   * The round trip the program depends on, stated on the adapters: what
   * `compress_chunk` produced, handed to `decompress_chunk` with the
   * original length, is the original.
   */
  ghost predicate RoundTrips(z: Zlib) {
    forall data :: CompressChunk(z, data).Success? ==>
      DecompressChunk(z, CompressChunk(z, data).value, |data|) == Success(data)
  }

  /**
   * The adapters add nothing that breaks zlib's law: cutting the
   * `compressBound` buffer to the reported length, then inflating into an
   * `original_size` buffer and cutting that to the reported length, gives
   * the original back.
   */
  lemma AdaptersRoundTrip(z: Zlib)
    requires HonoursBuffers(z) && RawRoundTrips(z)
    ensures RoundTrips(z)
  {
    forall data | CompressChunk(z, data).Success?
      ensures DecompressChunk(z, CompressChunk(z, data).value, |data|) == Success(data)
    {
      var c := z.compress(data, z.compressBound(|data|));
      assert CompressChunk(z, data).value == c.dest[..c.destLen];
      var u := z.uncompress(c.dest[..c.destLen], |data|);
      assert DecompressChunk(z, c.dest[..c.destLen], |data|) == Success(u.dest[..|data|]);
    }
  }

  /**
   * A codec that stores its input uncompressed.  It shows that the laws
   * above can hold together.
   */
  function Store(src: seq<byte>, cap: nat): ZCall {
    if |src| <= cap then ZCall(Z_OK, src + Zeros(cap - |src|), |src|)
    else ZCall(Z_BUF_ERROR, Zeros(cap), cap)
  }

  function StoredCodec(): Zlib {
    Zlib(n => n, Store, Store)
  }

  lemma StoredCodecIsLawful()
    ensures HonoursBuffers(StoredCodec())
    ensures BoundFitsU32(StoredCodec(), U32_LIMIT - 1)
    ensures BoundSuffices(StoredCodec())
    ensures RawRoundTrips(StoredCodec())
  {
    var z := StoredCodec();
    forall x
      ensures Store(x, |x|) == ZCall(Z_OK, x, |x|)
    {
      assert x + Zeros(0) == x;
    }
    forall x | z.compress(x, z.compressBound(|x|)).status == Z_OK
      ensures z.compress(x, z.compressBound(|x|)).destLen <= |z.compress(x, z.compressBound(|x|)).dest|
      ensures var c := z.compress(x, z.compressBound(|x|));
              var u := z.uncompress(c.dest[..c.destLen], |x|);
              u.status == Z_OK && u.destLen == |x| <= |u.dest| && u.dest[..|x|] == x
    {
      assert z.compress(x, z.compressBound(|x|)) == ZCall(Z_OK, x, |x|);
      assert x[..|x|] == x;
    }
  }
}
