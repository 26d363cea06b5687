# Chunked zlib compressor: a Dafny model

`task2.cpp` compresses a file by cutting it into 1 MiB chunks. It deflates
each chunk on its own thread with zlib and writes a container of records
`original_size:u32 || compressed_size:u32 || payload`. Decompression reads
the records back, inflates each one on its own thread, and writes the
results one after the other. This project models that pipeline with files
as byte sequences. It proves that compressing and then decompressing
returns the input exactly, for every input including the empty file,
provided zlib obeys the laws listed under `Codec` below
(`RoundTripTotal`). Without the law that a `compressBound` buffer is
always large enough, the round trip holds for every input whose
compression succeeds (`RoundTrip`).

Modules, leaf first:

- `Bytes` (`bytes.dfy`): bytes, the `uint32_t` truncation, the 4-byte
  size fields, `std::vector<char>::resize`, and concatenation.
- `Outcomes` (`outcomes.dfy`): the errors that stop a run, and `Result`.
- `Codec` (`codec.dfy`): `compress_chunk` and `decompress_chunk` over an
  abstract zlib. A `Zlib` value holds `compressBound`, `compress` and
  `uncompress`. A call returns the status, the destination buffer after
  the call, and the length written back through `destLen`. The laws the
  proofs assume are predicates:
  - `HonoursBuffers`: zlib stays inside its buffer.
  - `BoundFitsU32`: `compressBound` of a chunk fits in a `uint32_t`.
  - `BoundSuffices`: `compress` into a `compressBound` buffer returns Z_OK.
  - `RawRoundTrips`: on the raw calls, `uncompress` of what `compress`
    wrote, into a buffer of |x| bytes, yields exactly x.

  `AdaptersRoundTrip` derives from these the round trip of
  `compress_chunk` and `decompress_chunk` themselves (`RoundTrips`).
  `StoredCodecIsLawful` shows that all the laws can hold together.
- `Chunking` (`chunking.dfy`): the chunk-reading loop, proved against
  `Split`.
- `Slots` (`slots.dfy`): the pre-sized result vector filled by index. This
  is the threads' work, done in sequence. It is proved against `MapAll`.
- `Container` (`container.dfy`): the record writer (proved against
  `Frame`), the record reader (proved against `ParseFrom`), and the plain
  concatenation that writes the decompressed file.
- `Pipeline` (`pipeline.dfy`): both modes end to end, plus the round-trip
  theorem.

The record sizes are written in host byte order. The model fixes that order
as little-endian, the order of an x86 host.

Some behaviour of the code that the model reproduces as it is:

- `decompress_chunk` does not compare the inflated length with
  `original_size`; it only cuts the buffer to the length zlib reports
  (task2.cpp:39). So `DecompressChunk` promises at most `original_size`
  bytes, not exactly that many.
- The payload read at task2.cpp:129 is not checked. A short payload leaves
  the record with the zero bytes its vector was created with, and the loop
  ends. `TruncatedPayloadZeroFilled` states this.
- A container tail of at most 4 bytes ends the reader loop silently
  (`ShortTailIgnored`). A tail of 5 to 7 bytes leaves `chunk_size` partly
  uninitialised, and the model stops there with `UndefinedHeader`.
- There is one thread per chunk, and a codec exception escaping a thread
  ends the process. The model runs the slots in index order and stops
  with the first failing slot's error.

## Model

| member | source | states |
|---|---|---|
| `Bytes.Wrap32` | task2.cpp:88-89 | the value stored in a `uint32_t` is below 2^32, at most the original, and equal to it when it fits |
| `Bytes.Dec32Enc32` | task2.cpp:123-125 | a size field written as 4 host-order bytes reads back as the same value, for every value below 2^32 |
| `Bytes.Enc32Dec32` | task2.cpp:90-91 | every 4 bytes are the encoding of the value they decode to, so the size encoding is a bijection |
| `Bytes.Resize` | task2.cpp:28 | resizing a buffer keeps its first bytes, zero-fills any growth, and gives exactly the requested length |
| `Codec.CompressChunk` | task2.cpp:22-30 | fails with CompressionFailed exactly when `compress` does not return Z_OK; otherwise returns the first destLen bytes of the buffer, at most compressBound(input length) bytes when zlib keeps to its buffer |
| `Codec.DecompressChunk` | task2.cpp:33-41 | fails with DecompressionFailed exactly when `uncompress` does not return Z_OK; otherwise returns the first destLen bytes of the buffer, at most original_size of them, with no check that it is exactly original_size |
| `Codec.AdaptersRoundTrip` | task2.cpp:22-41 | given zlib's round trip on the raw calls and a zlib that keeps to its buffers, the adapters round-trip too: cutting the `compressBound` buffer to the reported length, inflating into an `original_size` buffer and cutting that gives the original back |
| `Codec.StoredCodecIsLawful` | task2.cpp:22-41 | the codec laws that the pipeline theorems assume can all hold at once, shown with a stored-mode codec |
| `Chunking.ReadChunks` | task2.cpp:64-71 | the read loop, including the extra empty read after a file that ends on a chunk boundary, yields exactly `Split(input)` |
| `Chunking.SplitFlatten` | task2.cpp:64-71 | the chunks concatenate back to the input: nothing lost, added or reordered |
| `Chunking.SplitShape` | task2.cpp:64-71 | no chunk is empty or longer than CHUNK_SIZE, and every chunk but the last is exactly CHUNK_SIZE bytes |
| `Chunking.SplitCount` | task2.cpp:64-71 | there are ceil(n / CHUNK_SIZE) chunks, so the empty input gives none and a multiple of CHUNK_SIZE gives no empty trailing chunk |
| `Chunking.SplitUnique` | task2.cpp:64-71 | any split with those properties that concatenates to the input is the reader's split |
| `Slots.MapAll` | task2.cpp:73-84 | a successful transform of all slots has one result per input |
| `Slots.MapAllSlots` | task2.cpp:73-84 | success exactly when every slot's transform succeeds; then slot i holds the transform of input i; otherwise the error is that of the first failing index |
| `Slots.FillSlots` | task2.cpp:135-146 | filling a pre-sized array slot by slot gives slot i the transform of input i (output order equals input order), or the first failure in index order |
| `Container.EncodeRecord` | task2.cpp:88-92 | when both sizes fit in 32 bits, a record is 8 bytes plus the payload length |
| `Container.WriteContainer` | task2.cpp:87-93 | the writer loop's output is the in-order concatenation of the records, with both sizes truncated to 32 bits and only stored-size payload bytes written |
| `Container.FrameLength` | task2.cpp:87-93 | when every size fits, the container is Σ(8 + len(c_i)) bytes long |
| `Container.ReadEnd` | task2.cpp:123-126 | with at most 4 bytes left the reader stops cleanly with no further record; with 5 to 7 bytes left the result is indeterminate |
| `Container.ParseRecord` | task2.cpp:123-132 | a complete record is read as itself, and reading continues right after it |
| `Container.ReadContainer` | task2.cpp:122-133 | the reader loop, with stream position and state explicit, returns exactly `ParseFrom(s)` |
| `Container.ParseAfterFrame` | task2.cpp:122-133 | after a run of complete records, reading goes on as it would from their end |
| `Container.ParseFrame` | task2.cpp:122-133 | the container of any records whose sizes fit reads back as the same records in the same order; the empty container reads as no records |
| `Container.ShortTailIgnored` | task2.cpp:123-126 | up to 4 stray bytes after the last record are dropped without an error |
| `Container.TruncatedPayloadZeroFilled` | task2.cpp:128-132 | a last record that lost k payload bytes is read without an error, keeping its stated size and ending in k zero bytes |
| `Container.FrameComplete` | task2.cpp:87-93 | the writer's container is well formed: a sequence of complete records |
| `Container.CompleteParses` | task2.cpp:122-133 | a well-formed container is read completely, and re-framing the records read gives back exactly the input |
| `Container.CompleteIffFramed` | task2.cpp:122-133 | the well-formed containers are exactly the concatenations of complete records |
| `Container.WriteChunks` | task2.cpp:149-151 | the decompression writer outputs the in-order concatenation of the decompressed chunks |
| `Pipeline.CompressFile` | task2.cpp:59-93 | read chunks, compress every slot, write records: the result is `CompressSpec(z, input)` |
| `Pipeline.DecompressFile` | task2.cpp:116-151 | read records, decompress every slot, concatenate: the result is `DecompressSpec(z, container)` |
| `Pipeline.CompressedContainer` | task2.cpp:64-93 | a successful compression writes ceil(n / CHUNK_SIZE) records; record i holds the length of chunk i and compress_chunk(chunk i); every size fits in 32 bits; the container reads back as those records and is Σ(8 + len(c_i)) long |
| `Pipeline.RoundTrip` | task2.cpp:60-151 | when compression succeeds, and zlib keeps to its buffers, has a 32-bit `compressBound` for a chunk and round-trips on the raw calls, decompressing the container that compression wrote reproduces the input exactly |
| `Pipeline.CompressSucceeds` | task2.cpp:22-30 | when a `compressBound` buffer is always large enough, compressing a file never fails |
| `Pipeline.RoundTripTotal` | task2.cpp:60-151 | under all the codec laws, every input compresses successfully and decompresses back to itself |
| `Pipeline.EmptyFile` | task2.cpp:64-151 | the empty file compresses to the empty container, and that container decompresses to the empty file |

## Left out

- zlib's deflate, inflate and `compressBound`: these are foreign library calls. They are fields of an abstract `Zlib` value. What the proofs need from them is stated as the predicates `HonoursBuffers`, `BoundFitsU32`, `BoundSuffices` and `RawRoundTrips`, which the theorems take as hypotheses. `BoundSuffices` sets aside the Z_MEM_ERROR that `compress` returns when memory runs out.
- Threads (`std::thread`, `join`, task2.cpp:76-84 and 138-146): concurrency is not modelled. Each thread writes only its own slot and all are joined before any slot is read, so a loop over the slots in order gives the same result.
- How an exception ends the run: a codec exception escaping a thread calls `std::terminate`. The model ends the run with a `Failure` carrying the first failing slot's error. Which thread fails first is not modelled, and neither is the output file: it has already been opened and truncated (task2.cpp:51, 108), and since nothing is written before the join it is left empty.
- File opening and its `cerr` messages (task2.cpp:45-55, 102-112): this is I/O. Input and output are byte sequences, and a file that cannot be opened is not modelled.
- Timing with `chrono` and the elapsed-time printout (task2.cpp:57, 95-97, 114, 153-155): this is wall-clock I/O and floating point.
- `main`'s argument count and mode dispatch (task2.cpp:159-179): this is the command-line wrapper around the two pipelines.
- A container tail of 5 to 7 bytes: the code then reads a `chunk_size` whose high bytes are uninitialised. The model reports `UndefinedHeader` instead of guessing a value.
- Allocation failure: `std::bad_alloc` from a vector sized by a stored `chunk_size` of up to 4 GiB is not modelled.
- `size_t`/`uLong` widths: lengths are unbounded naturals. The only truncation modelled is the conversion of sizes to `uint32_t` in the record writer.
- Byte order: the size fields are modelled as little-endian. On a big-endian host the code would write the other order.
