/**
 * The container: one record per chunk, each `original_size:u32`,
 * `compressed_size:u32` (host order, little-endian here), then the
 * compressed payload; no header, no count, no checksum.  The writer loop of
 * `compress_file_multithreaded`, the reader loop of
 * `decompress_file_multithreaded`, and the plain concatenation that writes
 * the decompressed file.
 */
module Container {
  import opened Bytes

  /** One record: the chunk's original length and its compressed bytes. */
  datatype Record = Record(originalSize: nat, payload: seq<byte>)

  /** Both sizes of the record can be stored in a `uint32_t`. */
  predicate Fits(r: Record) {
    r.originalSize < U32_LIMIT && |r.payload| < U32_LIMIT
  }

  predicate AllFit(rs: seq<Record>) {
    forall i :: 0 <= i < |rs| ==> Fits(rs[i])
  }

  /**
   * The bytes written for one record.  Both sizes pass through a
   * `uint32_t`, and only as many payload bytes as the stored size says are
   * written.
   */
  function EncodeRecord(r: Record): (b: seq<byte>)
    ensures Fits(r) ==> |b| == 8 + |r.payload|
  {
    var size := Wrap32(|r.payload|);
    Enc32(Wrap32(r.originalSize)) + Enc32(size) + r.payload[..size]
  }

  /** The container for a sequence of records, in index order. */
  function Frame(rs: seq<Record>): seq<byte>
  {
    if rs == [] then [] else EncodeRecord(rs[0]) + Frame(rs[1..])
  }

  lemma {:induction false} FrameSnoc(rs: seq<Record>, r: Record)
    ensures Frame(rs + [r]) == Frame(rs) + EncodeRecord(r)
  {
    if rs == [] {
      assert [] + [r] == [r];
    } else {
      assert (rs + [r])[1..] == rs[1..] + [r];
      FrameSnoc(rs[1..], r);
    }
  }

  /** Σ (8 + |payload|) over the records. */
  function FramedLength(rs: seq<Record>): nat
  {
    if rs == [] then 0 else 8 + |rs[0].payload| + FramedLength(rs[1..])
  }

  /** When every size fits, the container holds exactly 8 + |payload| bytes per record. */
  lemma {:induction false} FrameLength(rs: seq<Record>)
    requires AllFit(rs)
    ensures |Frame(rs)| == FramedLength(rs)
  {
    if rs != [] {
      assert Fits(rs[0]);
      assert AllFit(rs[1..]) by {
        forall i | 0 <= i < |rs[1..]| ensures Fits(rs[1..][i]) {
          assert rs[1..][i] == rs[i + 1];
        }
      }
      FrameLength(rs[1..]);
    }
  }

  /** Record `i` pairs the length of chunk `i` with compressed chunk `i`. */
  function Records(chunks: seq<seq<byte>>, compressed: seq<seq<byte>>): seq<Record>
    requires |compressed| <= |chunks|
  {
    seq(|compressed|, i requires 0 <= i < |compressed| => Record(|chunks[i]|, compressed[i]))
  }

  /**
   * The writer loop: for each compressed chunk in order, its original
   * size (found from the chunk at the same index), its compressed size and
   * its bytes.
   */
  method WriteContainer(chunks: seq<seq<byte>>, compressed: seq<seq<byte>>) returns (out: seq<byte>)
    requires |compressed| <= |chunks|
    ensures out == Frame(Records(chunks, compressed))
  {
    var rs := Records(chunks, compressed);
    out := [];
    for i := 0 to |compressed|
      invariant out == Frame(rs[..i])
    {
      var chunkSize := Wrap32(|compressed[i]|);
      var originalSize := Wrap32(|chunks[i]|);
      out := out + Enc32(originalSize);
      out := out + Enc32(chunkSize);
      out := out + compressed[i][..chunkSize];
      assert rs[..i + 1] == rs[..i] + [rs[i]];
      FrameSnoc(rs[..i], rs[i]);
    }
    assert rs[..|compressed|] == rs;
  }

  /**
   * What the reader loop produces: the records read, or `Indeterminate`
   * when the input ends 5 to 7 bytes into a header, so that `chunk_size`
   * is only partly read and its other bytes are uninitialised.
   */
  datatype Parse = Done(records: seq<Record>) | Indeterminate

  function Prepend(rs: seq<Record>, p: Parse): Parse {
    match p
    case Done(qs) => Done(rs + qs)
    case Indeterminate => Indeterminate
  }

  /**
   * The reader loop on the bytes still unread.  The loop ends when the
   * read of `chunk_size` extracts nothing: at end of input, and also when
   * at most 4 bytes remain (a short or full `original_size` read and an
   * empty `chunk_size` read).  A payload shorter than `chunk_size` is not
   * detected: the record keeps the zero bytes the vector was created with,
   * and the failed read ends the loop.
   */
  function ParseFrom(s: seq<byte>): Parse
    decreases |s|
  {
    if |s| <= 4 then Done([])
    else if |s| < 8 then Indeterminate
    else
      var originalSize := Dec32(s[..4]);
      var chunkSize := Dec32(s[4..8]);
      var rest := s[8..];
      if chunkSize <= |rest| then
        Prepend([Record(originalSize, rest[..chunkSize])], ParseFrom(rest[chunkSize..]))
      else
        Done([Record(originalSize, rest + Zeros(chunkSize - |rest|))])
  }

  lemma PrependPrepend(rs: seq<Record>, qs: seq<Record>, p: Parse)
    ensures Prepend(rs, Prepend(qs, p)) == Prepend(rs + qs, p)
  {
  }

  /** Fewer than 8 bytes left at `start`: no further record. */
  lemma ReadEnd(s: seq<byte>, start: nat)
    requires start <= |s| < start + 8
    ensures ParseFrom(s[start..]) == if |s| - start <= 4 then Done([]) else Indeterminate
  {
  }

  /**
   * One record read at `start`: its header, then `got` of the `chunkSize`
   * payload bytes it announces.
   */
  lemma ReadStep(s: seq<byte>, start: nat, got: nat)
    requires start + 8 <= |s|
    requires got == Min(Dec32(s[start + 4..start + 8]), |s| - start - 8)
    ensures var chunkSize := Dec32(s[start + 4..start + 8]);
            var record := Record(Dec32(s[start..start + 4]),
                                 s[start + 8..start + 8 + got] + Zeros(chunkSize - got));
            ParseFrom(s[start..]) ==
              if got < chunkSize then Done([record])
              else Prepend([record], ParseFrom(s[start + 8 + got..]))
  {
    var t := s[start..];
    assert t[..4] == s[start..start + 4];
    assert t[4..8] == s[start + 4..start + 8];
    assert t[8..] == s[start + 8..];
    assert t[8..][..got] == s[start + 8..start + 8 + got];
    assert t[8..][got..] == s[start + 8 + got..];
    var chunkSize := Dec32(s[start + 4..start + 8]);
    var originalSize := Dec32(s[start..start + 4]);
    if got < chunkSize {
      assert t[8..] == s[start + 8..start + 8 + got];
      assert ParseFrom(t) == Done([Record(originalSize, t[8..] + Zeros(chunkSize - |t[8..]|))]);
    } else {
      assert chunkSize <= |t[8..]|;
      assert ParseFrom(t) ==
        Prepend([Record(originalSize, t[8..][..chunkSize])], ParseFrom(t[8..][chunkSize..]));
      assert Zeros(0) == [];
      assert s[start + 8..start + 8 + got] + Zeros(chunkSize - got) == t[8..][..chunkSize];
    }
  }

  /**
   * The reader loop, with the stream's position and state made explicit:
   * `while (in_file)` runs while no read has come back short.
   */
  method ReadContainer(s: seq<byte>) returns (p: Parse)
    ensures p == ParseFrom(s)
  {
    var records: seq<Record> := [];
    var pos := 0;
    var good := true;
    while good
      invariant 0 <= pos <= |s|
      invariant good ==> ParseFrom(s) == Prepend(records, ParseFrom(s[pos..]))
      invariant !good ==> ParseFrom(s) == Done(records)
      decreases |s| - pos + (if good then 1 else 0)
    {
      ghost var start := pos;
      // Read the 4 bytes of the original size, or as many as are left.
      var got := Min(4, |s| - pos);
      var originalSize := if got == 4 then Dec32(s[pos..pos + 4]) else 0;
      pos := pos + got;
      // Read the 4 bytes of the compressed size; a stream that has already
      // failed extracts nothing.
      got := if got == 4 then Min(4, |s| - pos) else 0;
      if got == 0 {
        // The size read extracted nothing: the loop breaks.
        ReadEnd(s, start);
        assert records + [] == records;
        good := false;
      } else if got < 4 {
        ReadEnd(s, start);
        return Indeterminate;
      } else {
        var chunkSize := Dec32(s[pos..pos + 4]);
        pos := pos + 4;
        // Read up to the stated number of payload bytes into a zero-filled buffer.
        got := Min(chunkSize, |s| - pos);
        var payload := s[pos..pos + got] + Zeros(chunkSize - got);
        var record := Record(originalSize, payload);
        ReadStep(s, pos - 8, got);
        if got < chunkSize {
          assert records + [record] == records + [record] + [];
          good := false;
        } else {
          PrependPrepend(records, [record], ParseFrom(s[pos + got..]));
        }
        records := records + [record];
        pos := pos + got;
      }
    }
    p := Done(records);
  }

  /**
   * A well-formed container: a sequence of complete records, each header
   * followed by at least as many bytes as its compressed size, ending
   * exactly at the end of the input.
   */
  predicate Complete(s: seq<byte>)
    decreases |s|
  {
    s == [] || (8 <= |s| && 8 + Dec32(s[4..8]) <= |s| && Complete(s[8 + Dec32(s[4..8])..]))
  }

  /** The fields of a header followed by `rest`. */
  lemma Header(s: seq<byte>, a: nat, b: nat, rest: seq<byte>)
    requires a < U32_LIMIT && b < U32_LIMIT
    requires s == Enc32(a) + Enc32(b) + rest
    ensures |s| >= 8 && Dec32(s[..4]) == a && Dec32(s[4..8]) == b && s[8..] == rest
  {
    assert s[..4] == Enc32(a);
    assert s[4..8] == Enc32(b);
    Dec32Enc32(a);
    Dec32Enc32(b);
  }

  /** A complete record is read as itself, and reading goes on right after it. */
  lemma ParseRecord(r: Record, u: seq<byte>)
    requires Fits(r)
    ensures ParseFrom(EncodeRecord(r) + u) == Prepend([r], ParseFrom(u))
  {
    var s := EncodeRecord(r) + u;
    Header(s, r.originalSize, |r.payload|, r.payload + u);
    assert (r.payload + u)[..|r.payload|] == r.payload;
    assert (r.payload + u)[|r.payload|..] == u;
  }

  lemma AllFitTail(rs: seq<Record>)
    requires AllFit(rs) && rs != []
    ensures Fits(rs[0]) && AllFit(rs[1..])
  {
  }

  /** Reading continues after a run of complete records exactly as it would from their end. */
  lemma {:induction false} ParseAfterFrame(rs: seq<Record>, u: seq<byte>)
    requires AllFit(rs)
    ensures ParseFrom(Frame(rs) + u) == Prepend(rs, ParseFrom(u))
  {
    if rs == [] {
      assert Frame(rs) + u == u;
      assert ParseFrom(u).Done? ==> [] + ParseFrom(u).records == ParseFrom(u).records;
    } else {
      AllFitTail(rs);
      var tail := Frame(rs[1..]) + u;
      assert Frame(rs) + u == EncodeRecord(rs[0]) + tail;
      ParseRecord(rs[0], tail);
      ParseAfterFrame(rs[1..], u);
      assert [rs[0]] + rs[1..] == rs;
      PrependPrepend([rs[0]], rs[1..], ParseFrom(u));
    }
  }

  /** Every record of a container built from fitting records is read back as it was written. */
  lemma ParseFrame(rs: seq<Record>)
    requires AllFit(rs)
    ensures ParseFrom(Frame(rs)) == Done(rs)
  {
    ParseAfterFrame(rs, []);
    assert Frame(rs) + [] == Frame(rs);
    assert rs + [] == rs;
  }

  /**
   * Up to four stray bytes after the last complete record are dropped
   * without an error: the read of `chunk_size` extracts nothing.
   */
  lemma ShortTailIgnored(rs: seq<Record>, t: seq<byte>)
    requires AllFit(rs) && |t| <= 4
    ensures ParseFrom(Frame(rs) + t) == Done(rs)
  {
    ParseAfterFrame(rs, t);
    assert rs + [] == rs;
  }

  /**
   * A container whose last record `r` lost its final `k` payload bytes is
   * read without an error: that record keeps its stated size and ends in
   * `k` zero bytes.
   */
  lemma TruncatedPayloadZeroFilled(rs: seq<Record>, r: Record, k: nat)
    requires AllFit(rs) && Fits(r) && 0 < k <= |r.payload|
    ensures ParseFrom(Frame(rs) + EncodeRecord(r)[..8 + |r.payload| - k]) ==
              Done(rs + [Record(r.originalSize, r.payload[..|r.payload| - k] + Zeros(k))])
  {
    var n := |r.payload|;
    var cut := EncodeRecord(r)[..8 + n - k];
    ParseAfterFrame(rs, cut);
    Header(cut, r.originalSize, n, r.payload[..n - k]);
  }

  /** A container built from fitting records is well-formed. */
  lemma {:induction false} FrameComplete(rs: seq<Record>)
    requires AllFit(rs)
    ensures Complete(Frame(rs))
  {
    if rs != [] {
      AllFitTail(rs);
      var r := rs[0];
      var tail := Frame(rs[1..]);
      Header(Frame(rs), r.originalSize, |r.payload|, r.payload + tail);
      assert Frame(rs)[8 + |r.payload|..] == tail;
      FrameComplete(rs[1..]);
    }
  }

  /**
   * Conversely, a well-formed container is read completely and is exactly
   * the container of the records read from it.
   */
  lemma {:induction false} CompleteParses(s: seq<byte>)
    requires Complete(s)
    ensures ParseFrom(s).Done?
    ensures AllFit(ParseFrom(s).records)
    ensures Frame(ParseFrom(s).records) == s
    decreases |s|
  {
    if s != [] {
      var n := Dec32(s[4..8]);
      var r := Record(Dec32(s[..4]), s[8..8 + n]);
      var more := s[8 + n..];
      assert s == EncodeRecord(r) + more by {
        Enc32Dec32(s[..4]);
        Enc32Dec32(s[4..8]);
        assert s == s[..4] + s[4..8] + s[8..8 + n] + more;
      }
      ParseRecord(r, more);
      CompleteParses(more);
      var qs := ParseFrom(more).records;
      assert ParseFrom(s) == Done([r] + qs);
      assert AllFit([r] + qs) by {
        forall i | 0 <= i < |[r] + qs| ensures Fits(([r] + qs)[i]) {
          if i > 0 { assert ([r] + qs)[i] == qs[i - 1]; }
        }
      }
      assert ([r] + qs)[1..] == qs;
    }
  }

  /** The well-formed containers are exactly the containers of fitting records. */
  lemma CompleteIffFramed(s: seq<byte>)
    ensures Complete(s) <==> exists rs :: AllFit(rs) && Frame(rs) == s
  {
    if Complete(s) {
      CompleteParses(s);
      assert AllFit(ParseFrom(s).records) && Frame(ParseFrom(s).records) == s;
    }
    forall rs | AllFit(rs) && Frame(rs) == s ensures Complete(s) {
      FrameComplete(rs);
    }
  }

  /**
   * The writer of `decompress_file_multithreaded`: the decompressed chunks
   * one after the other, with no framing.
   */
  method WriteChunks(chunks: seq<seq<byte>>) returns (out: seq<byte>)
    ensures out == Flatten(chunks)
  {
    out := [];
    for i := 0 to |chunks|
      invariant out == Flatten(chunks[..i])
    {
      out := out + chunks[i];
      assert chunks[..i + 1] == chunks[..i] + [chunks[i]];
      FlattenSnoc(chunks[..i], chunks[i]);
    }
    assert chunks[..|chunks|] == chunks;
  }
}
