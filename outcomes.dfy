/**
 * The ways a run can stop without producing its output.
 */
module Outcomes {

  datatype Error =
    | CompressionFailed    // `compress_chunk` threw: the codec did not return Z_OK
    | DecompressionFailed  // `decompress_chunk` threw: the codec did not return Z_OK
    | UndefinedHeader      // a 5-7 byte container tail: `chunk_size` is read half-initialised

  datatype Result<+T> = Success(value: T) | Failure(error: Error)
}
