/** How the relay cuts what one client read returned into QISEND payloads:
    consecutive slices of at most MAX_CHUNK_SIZE bytes, taken from offset 0
    until the offset reaches the end of the data. */
module Chunking {
  import opened Wire

  /** The largest payload handed to one `AT+QISEND`. */
  const MAX_CHUNK_SIZE: nat := 1024
  /** The most bytes one read from the client socket returns. */
  const RECV_SIZE: nat := 4096

  function Min(a: nat, b: nat): nat {
    if a <= b then a else b
  }

  /** The slices `data[offset:offset+size]` the loop produces, in order. */
  function Chunks(data: seq<byte>, size: nat): seq<seq<byte>>
    requires size > 0
    decreases |data|
  {
    if data == [] then []
    else
      var n := Min(size, |data|);
      [data[..n]] + Chunks(data[n..], size)
  }

  /** The loop's step: the chunks from `offset` on are the slice at `offset`
      followed by the chunks after it. */
  lemma ChunksFrom(data: seq<byte>, size: nat, offset: nat)
    requires size > 0 && offset < |data|
    ensures var n := Min(size, |data| - offset);
      Chunks(data[offset..], size) == [data[offset..offset + n]] + Chunks(data[offset + n..], size)
  {
    var n := Min(size, |data| - offset);
    assert data[offset..][..n] == data[offset..offset + n];
    assert data[offset..][n..] == data[offset + n..];
  }

  /** Sending the chunks in order sends exactly the data. */
  lemma {:induction false} ChunksFlatten(data: seq<byte>, size: nat)
    requires size > 0
    ensures Flatten(Chunks(data, size)) == data
    decreases |data|
  {
    if data != [] {
      var n := Min(size, |data|);
      ChunksFlatten(data[n..], size);
      assert data == data[..n] + data[n..];
    }
  }

  /** No chunk is empty or longer than `size`, and only the last may be shorter. */
  lemma {:induction false} ChunkSizes(data: seq<byte>, size: nat, i: nat)
    requires size > 0 && i < |Chunks(data, size)|
    ensures 0 < |Chunks(data, size)[i]| <= size
    ensures i < |Chunks(data, size)| - 1 ==> |Chunks(data, size)[i]| == size
    decreases |data|
  {
    var n := Min(size, |data|);
    if i > 0 {
      ChunkSizes(data[n..], size, i - 1);
    } else if n < size {
      assert Chunks(data[n..], size) == [];
    }
  }

  /** The loop runs ceil(|data| / size) times. */
  lemma {:induction false} ChunkCount(data: seq<byte>, size: nat)
    requires size > 0
    ensures |Chunks(data, size)| == (|data| + size - 1) / size
    decreases |data|
  {
    if data != [] {
      var n := Min(size, |data|);
      ChunkCount(data[n..], size);
      var q := (|data| - n + size - 1) / size;
      DivBounds(|data| - n + size - 1, size);
      DivUnique(|data| + size - 1, size, q + 1);
    }
  }

  lemma DivBounds(x: nat, d: nat)
    requires d > 0
    ensures (x / d) * d <= x < (x / d + 1) * d
  {
  }

  lemma DivUnique(x: nat, d: nat, q: nat)
    requires d > 0 && q * d <= x < (q + 1) * d
    ensures x / d == q
  {
    DivBounds(x, d);
  }

  /** One client read turns into at most four QISEND exchanges. */
  lemma RecvFitsFourChunks(data: seq<byte>)
    requires |data| <= RECV_SIZE
    ensures |Chunks(data, MAX_CHUNK_SIZE)| <= 4
  {
    ChunkCount(data, MAX_CHUNK_SIZE);
  }
}
