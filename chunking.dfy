/**
 * The chunk reader of `compress_file_multithreaded`: the input is read
 * `CHUNK_SIZE` bytes at a time until a read comes back short, and every
 * non-empty read becomes the next chunk.
 */
module Chunking {
  import opened Bytes

  /** 1 MiB. */
  const CHUNK_SIZE: nat := 1024 * 1024

  /** The chunks of `data`, front to back. */
  function Split(data: seq<byte>): seq<seq<byte>>
    decreases |data|
  {
    if data == [] then []
    else
      var n := Min(|data|, CHUNK_SIZE);
      [data[..n]] + Split(data[n..])
  }

  /**
   * The reading loop.  `pos` is the stream position and `good` is the
   * stream's state as `while (in_file)` tests it: a read that extracts fewer
   * than `CHUNK_SIZE` bytes sets eofbit and failbit, so the loop runs once
   * more after a read that ends exactly at end of file, and that last read
   * yields an empty chunk, which is dropped.
   */
  method ReadChunks(input: seq<byte>) returns (chunks: seq<seq<byte>>)
    ensures chunks == Split(input)
  {
    chunks := [];
    var pos := 0;
    var good := true;
    while good
      invariant 0 <= pos <= |input|
      invariant good ==> chunks + Split(input[pos..]) == Split(input)
      invariant !good ==> chunks == Split(input)
      decreases |input| - pos + (if good then 1 else 0)
    {
      // Read up to CHUNK_SIZE bytes and keep what was extracted.
      var got := Min(CHUNK_SIZE, |input| - pos);
      var chunk := input[pos..pos + got];
      SplitStep(input, pos, chunks);
      if chunk != [] {
        chunks := chunks + [chunk];
      }
      good := got == CHUNK_SIZE;
      pos := pos + got;
    }
  }

  /**
   * One read at `pos`, after `done` has been collected: the chunk it yields,
   * if any, is the first of the chunks of what is left, and a short read
   * leaves nothing.
   */
  lemma SplitStep(input: seq<byte>, pos: nat, done: seq<seq<byte>>)
    requires pos <= |input|
    ensures var got := Min(CHUNK_SIZE, |input| - pos);
            var next := if got == 0 then done else done + [input[pos..pos + got]];
            && (got < CHUNK_SIZE ==> input[pos + got..] == [])
            && done + Split(input[pos..]) == next + Split(input[pos + got..])
  {
    var got := Min(CHUNK_SIZE, |input| - pos);
    var t := input[pos..];
    if t != [] {
      assert t[..got] == input[pos..pos + got];
      assert t[got..] == input[pos + got..];
      assert done + ([t[..got]] + Split(t[got..])) == done + [t[..got]] + Split(t[got..]);
    } else {
      assert done + [] == done;
    }
  }

  /** Nothing is lost, reordered or added: the chunks concatenate to the input. */
  lemma {:induction false} SplitFlatten(data: seq<byte>)
    ensures Flatten(Split(data)) == data
    decreases |data|
  {
    if data != [] {
      var n := Min(|data|, CHUNK_SIZE);
      SplitFlatten(data[n..]);
      assert Split(data)[1..] == Split(data[n..]);
      assert data[..n] + data[n..] == data;
    }
  }

  /**
   * No chunk is empty, none is longer than `CHUNK_SIZE`, and all but the
   * last are exactly `CHUNK_SIZE` long.
   */
  lemma {:induction false} SplitShape(data: seq<byte>)
    ensures forall i :: 0 <= i < |Split(data)| ==> 0 < |Split(data)[i]| <= CHUNK_SIZE
    ensures forall i :: 0 <= i < |Split(data)| - 1 ==> |Split(data)[i]| == CHUNK_SIZE
    decreases |data|
  {
    if data != [] {
      var n := Min(|data|, CHUNK_SIZE);
      SplitShape(data[n..]);
      var cs := Split(data);
      assert cs[1..] == Split(data[n..]);
      forall i | 0 <= i < |cs| - 1
        ensures |cs[i]| == CHUNK_SIZE
      {
        if i == 0 {
          assert data[n..] != [];
        } else {
          assert cs[i] == cs[1..][i - 1];
        }
      }
      forall i | 0 <= i < |cs|
        ensures 0 < |cs[i]| <= CHUNK_SIZE
      {
        if i > 0 {
          assert cs[i] == cs[1..][i - 1];
        }
      }
    }
  }

  /**
   * There are ceil(n / CHUNK_SIZE) chunks: none for the empty input, and no
   * empty trailing chunk when n is a multiple of `CHUNK_SIZE`.
   */
  lemma {:induction false} SplitCount(data: seq<byte>)
    ensures |Split(data)| == (|data| + CHUNK_SIZE - 1) / CHUNK_SIZE
    decreases |data|
  {
    if data != [] {
      var n := Min(|data|, CHUNK_SIZE);
      SplitCount(data[n..]);
      if |data| <= CHUNK_SIZE {
        assert data[n..] == [];
      } else {
        assert |data| + CHUNK_SIZE - 1 == (|data| - CHUNK_SIZE + CHUNK_SIZE - 1) + CHUNK_SIZE;
      }
    }
  }

  /**
   * The chunking is the only one with these properties: any sequence of
   * non-empty pieces of at most `CHUNK_SIZE` bytes, all but the last full,
   * that concatenates to `data` is `Split(data)`.
   */
  lemma {:induction false} SplitUnique(data: seq<byte>, cs: seq<seq<byte>>)
    requires Flatten(cs) == data
    requires forall i :: 0 <= i < |cs| ==> 0 < |cs[i]| <= CHUNK_SIZE
    requires forall i :: 0 <= i < |cs| - 1 ==> |cs[i]| == CHUNK_SIZE
    ensures cs == Split(data)
    decreases |cs|
  {
    if cs != [] {
      var n := Min(|data|, CHUNK_SIZE);
      assert data == cs[0] + Flatten(cs[1..]);
      if |cs| == 1 {
        assert Flatten(cs[1..]) == [];
        assert data[n..] == [];
      } else {
        assert |cs[0]| == CHUNK_SIZE;
        assert |cs[1]| > 0;
        assert Flatten(cs[1..]) == cs[1..][0] + Flatten(cs[1..][1..]);
        assert n == CHUNK_SIZE;
      }
      assert data[..n] == cs[0];
      assert data[n..] == Flatten(cs[1..]);
      forall i | 0 <= i < |cs[1..]| ensures 0 < |cs[1..][i]| <= CHUNK_SIZE {
        assert cs[1..][i] == cs[i + 1];
      }
      forall i | 0 <= i < |cs[1..]| - 1 ensures |cs[1..][i]| == CHUNK_SIZE {
        assert cs[1..][i] == cs[i + 1];
      }
      SplitUnique(data[n..], cs[1..]);
    }
  }
}
