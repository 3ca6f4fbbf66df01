/**
 * The response body as the transport delivers it: a sequence of chunks in
 * arrival order. What the download loop builds from them is stated here.
 */
module Chunks {
  import opened Common

  /** The bytes of all chunks, in arrival order. */
  function Concat(chunks: seq<seq<uint8>>): seq<uint8> {
    if chunks == [] then [] else Concat(chunks[..|chunks| - 1]) + chunks[|chunks| - 1]
  }

  /** The sum of the chunk lengths: what the progress counter is advanced by. */
  function TotalLength(chunks: seq<seq<uint8>>): nat {
    if chunks == [] then 0 else TotalLength(chunks[..|chunks| - 1]) + |chunks[|chunks| - 1]|
  }

  /** `vec![0; n]`. */
  function Zeros(n: nat): (z: seq<uint8>)
    ensures |z| == n && forall k :: 0 <= k < n ==> z[k] == 0
  {
    seq(n, _ => 0)
  }

  /** The bytes a download has buffered after the chunks `chunks`, with a zero prefix of `prefix` bytes. */
  function Buffered(prefix: nat, chunks: seq<seq<uint8>>): seq<uint8> {
    Zeros(prefix) + Concat(chunks)
  }

  /** Every received byte is counted once: the concatenation is as long as the chunk lengths add up to. */
  lemma {:induction false} ConcatLength(chunks: seq<seq<uint8>>)
    ensures |Concat(chunks)| == TotalLength(chunks)
    decreases |chunks|
  {
    if chunks != [] {
      ConcatLength(chunks[..|chunks| - 1]);
    }
  }

  /** Taking one more chunk appends exactly that chunk. */
  lemma ConcatSnoc(chunks: seq<seq<uint8>>, i: nat)
    requires i < |chunks|
    ensures Concat(chunks[..i + 1]) == Concat(chunks[..i]) + chunks[i]
    ensures TotalLength(chunks[..i + 1]) == TotalLength(chunks[..i]) + |chunks[i]|
  {
    assert chunks[..i + 1][..i] == chunks[..i];
  }

  /** Concatenation distributes over splitting the chunk sequence. */
  lemma {:induction false} ConcatAppend(a: seq<seq<uint8>>, b: seq<seq<uint8>>)
    ensures Concat(a + b) == Concat(a) + Concat(b)
    decreases |b|
  {
    if b == [] {
      assert a + b == a;
    } else {
      var init := b[..|b| - 1];
      assert (a + b)[..|a + b| - 1] == a + init;
      assert (a + b)[|a + b| - 1] == b[|b| - 1];
      ConcatAppend(a, init);
      assert Concat(a + b) == Concat(a + init) + b[|b| - 1];
      assert Concat(b) == Concat(init) + b[|b| - 1];
    }
  }

  /**
   * No chunk is dropped, duplicated or reordered: chunk `i` sits in the
   * concatenation right after the bytes of the chunks before it.
   */
  lemma ChunkPlacement(chunks: seq<seq<uint8>>, i: nat)
    requires i < |chunks|
    ensures var start := TotalLength(chunks[..i]);
            start + |chunks[i]| <= |Concat(chunks)| &&
            Concat(chunks)[start..start + |chunks[i]|] == chunks[i]
  {
    assert chunks == chunks[..i + 1] + chunks[i + 1..];
    ConcatAppend(chunks[..i + 1], chunks[i + 1..]);
    ConcatSnoc(chunks, i);
    ConcatLength(chunks[..i]);
  }

  /** In a buffer, chunk `i` sits right after the prefix and the chunks before it. */
  lemma BufferedChunkPlacement(prefix: nat, chunks: seq<seq<uint8>>, i: nat)
    requires i < |chunks|
    ensures var start := prefix + TotalLength(chunks[..i]);
            start + |chunks[i]| <= |Buffered(prefix, chunks)| &&
            Buffered(prefix, chunks)[start..start + |chunks[i]|] == chunks[i]
  {
    var start := TotalLength(chunks[..i]);
    ChunkPlacement(chunks, i);
    assert Buffered(prefix, chunks)[prefix + start..prefix + start + |chunks[i]|] == Concat(chunks)[start..start + |chunks[i]|];
  }

  /**
   * Bytes already buffered never change: the buffer after the first `i`
   * chunks is a prefix of the buffer after the first `j`, for `i <= j`.
   */
  lemma BufferOnlyGrows(prefix: nat, chunks: seq<seq<uint8>>, i: nat, j: nat)
    requires i <= j <= |chunks|
    ensures Buffered(prefix, chunks[..i]) <= Buffered(prefix, chunks[..j])
  {
    assert chunks[..j] == chunks[..i] + chunks[i..j];
    ConcatAppend(chunks[..i], chunks[i..j]);
  }
}
