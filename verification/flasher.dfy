/** The upload loop of the flasher: the firmware image cut into fixed-size
    chunks, each handed to the serial port's writer in turn. A write is
    modelled as appending the chunk to a trace; the pause between writes
    has no effect on what is written and is not modelled. */
module Flasher {
  import opened Hex
  import opened Seqs
  import IntelHex

  /** Bytes per `writer.write` call. */
  const ChunkSize: nat := 64

  /** `data.slice(begin, end)` on a `Uint8Array`, for non-negative bounds:
      both bounds are clamped to the length, and a range that ends before
      it begins is empty. */
  function Slice(data: seq<byte>, begin: nat, end: nat): (r: seq<byte>)
    ensures var b, e := Min(begin, |data|), Min(end, |data|);
      |r| == (if e <= b then 0 else e - b)
      && forall k :: 0 <= k < |r| ==> r[k] == data[b + k]
  {
    var b, e := Min(begin, |data|), Min(end, |data|);
    if e <= b then [] else data[b..e]
  }

  /** The reference cut: full chunks of `size` bytes from the front, and
      whatever remains as a last, shorter chunk. */
  function Chunks(data: seq<byte>, size: nat): seq<seq<byte>>
    requires size > 0
    decreases |data|
  {
    if |data| == 0 then []
    else if |data| <= size then [data]
    else [data[..size]] + Chunks(data[size..], size)
  }

  /** The chunks put back together are the data. */
  lemma {:induction false} ChunksFlatten(data: seq<byte>, size: nat)
    requires size > 0
    ensures Flatten(Chunks(data, size)) == data
    decreases |data|
  {
    if |data| == 0 {
    } else if |data| <= size {
      FlattenCons(data, []);
      assert [data] + [] == [data];
    } else {
      ChunksFlatten(data[size..], size);
      FlattenCons(data[..size], Chunks(data[size..], size));
      assert data[..size] + data[size..] == data;
    }
  }

  /** There are `ceil(|data| / size)` chunks. */
  lemma {:induction false} ChunksCount(data: seq<byte>, size: nat)
    requires size > 0
    ensures |Chunks(data, size)| == (|data| + size - 1) / size
    decreases |data|
  {
    if |data| == 0 {
      assert (size - 1) / size == 0;
    } else if |data| <= size {
      DivUnique(|data| + size - 1, size, 1, |data| - 1);
    } else {
      ChunksCount(data[size..], size);
      DivStep(|data| + size - 1, size);
    }
  }

  /** No chunk is empty or longer than `size`, and all but the last are
      exactly `size` long. */
  lemma {:induction false} ChunksSizes(data: seq<byte>, size: nat)
    requires size > 0
    ensures forall k :: 0 <= k < |Chunks(data, size)| ==> 0 < |Chunks(data, size)[k]| <= size
    ensures forall k :: 0 <= k < |Chunks(data, size)| - 1 ==> |Chunks(data, size)[k]| == size
    decreases |data|
  {
    if |data| > size {
      var cs, rest := Chunks(data, size), Chunks(data[size..], size);
      ChunksSizes(data[size..], size);
      assert forall k :: 1 <= k < |cs| ==> cs[k] == rest[k - 1];
    }
  }

  lemma DivStep(n: nat, size: nat)
    requires size > 0 && n >= size
    ensures n / size == 1 + (n - size) / size
  {
    var q, r := (n - size) / size, (n - size) % size;
    assert n - size == q * size + r;
    assert n == (q + 1) * size + r;
    DivUnique(n, size, q + 1, r);
  }

  /** The quotient is the only `q` with `n == q * d + r` and `0 <= r < d`. */
  lemma DivUnique(n: int, d: int, q: int, r: int)
    requires d > 0 && 0 <= r < d && n == q * d + r
    ensures n / d == q
  {
    var q', r' := n / d, n % d;
    assert n == q' * d + r';
    assert (q - q') * d == r' - r;
    if q > q' {
      MulAtLeast(q - q', d);
    } else if q < q' {
      MulAtLeast(q' - q, d);
    }
  }

  lemma MulAtLeast(a: int, d: int)
    requires a >= 1 && d > 0
    ensures a * d >= d
  {
  }

  /** The first chunk of non-empty data is its first `size` bytes, or all of
      it; the rest is the cut of what follows. */
  lemma ChunksStep(data: seq<byte>, size: nat)
    requires size > 0 && |data| > 0
    ensures Chunks(data, size)
      == [data[..Min(size, |data|)]] + Chunks(data[Min(size, |data|)..], size)
  {
    if |data| <= size {
      assert data[..|data|] == data;
      assert data[|data|..] == [];
    }
  }

  /** The loop of `flashFirmware`: from offset 0 in steps of `ChunkSize`
      while the offset is inside the image, write the slice that starts
      there. The trace is the reference cut of the image, so it
      concatenates back to the image, has `ceil(length / 64)` writes (none
      for an empty image), and every write but a short last one is exactly
      64 bytes; write `k` starts at byte `64 k`. */
  method FlashFirmware(firmware: seq<byte>) returns (writes: seq<seq<byte>>)
    ensures writes == Chunks(firmware, ChunkSize)
    ensures Flatten(writes) == firmware
    ensures |writes| == (|firmware| + ChunkSize - 1) / ChunkSize
    ensures |firmware| == 0 ==> writes == []
    ensures forall k :: 0 <= k < |writes| ==> 0 < |writes[k]| <= ChunkSize
    ensures forall k :: 0 <= k < |writes| - 1 ==> |writes[k]| == ChunkSize
    ensures forall k :: 0 <= k < |writes| ==>
              writes[k] == Slice(firmware, k * ChunkSize, k * ChunkSize + ChunkSize)
  {
    writes := [];
    var i: nat := 0;
    while i < |firmware|
      invariant writes + Chunks(firmware[Min(i, |firmware|)..], ChunkSize) == Chunks(firmware, ChunkSize)
      decreases |firmware| - i
    {
      var chunk := Slice(firmware, i, i + ChunkSize);
      ChunksFrom(firmware, i, ChunkSize);
      writes := writes + [chunk];
      i := i + ChunkSize;
    }
    assert firmware[|firmware|..] == [];
    ChunkTrace(firmware, writes);
  }

  /** What the reference cut promises of a trace, with chunks of `ChunkSize`. */
  lemma ChunkTrace(firmware: seq<byte>, writes: seq<seq<byte>>)
    requires writes == Chunks(firmware, ChunkSize)
    ensures Flatten(writes) == firmware
    ensures |writes| == (|firmware| + ChunkSize - 1) / ChunkSize
    ensures |firmware| == 0 ==> writes == []
    ensures forall k :: 0 <= k < |writes| ==> 0 < |writes[k]| <= ChunkSize
    ensures forall k :: 0 <= k < |writes| - 1 ==> |writes[k]| == ChunkSize
    ensures forall k :: 0 <= k < |writes| ==>
              writes[k] == Slice(firmware, k * ChunkSize, k * ChunkSize + ChunkSize)
  {
    ChunksFlatten(firmware, ChunkSize);
    ChunksCount(firmware, ChunkSize);
    ChunksSizes(firmware, ChunkSize);
    ChunksAreSlices(firmware, ChunkSize);
  }

  /** Chunk `k` is the slice starting at `k * size`, for every `k`. */
  lemma ChunksAreSlices(data: seq<byte>, size: nat)
    requires size > 0
    ensures forall k :: 0 <= k < |Chunks(data, size)| ==>
              Chunks(data, size)[k] == Slice(data, k * size, k * size + size)
  {
    forall k | 0 <= k < |Chunks(data, size)|
      ensures Chunks(data, size)[k] == Slice(data, k * size, k * size + size)
    {
      ChunkAt(data, size, k);
    }
  }

  /** Chunk `k` is the slice starting at `k * size`. */
  lemma {:induction false} ChunkAt(data: seq<byte>, size: nat, k: nat)
    requires size > 0 && k < |Chunks(data, size)|
    ensures Chunks(data, size)[k] == Slice(data, k * size, k * size + size)
    decreases k
  {
    if k == 0 {
      ChunksStep(data, size);
    } else {
      ChunksTail(data, size, k);
      ChunkAt(data[size..], size, k - 1);
      MulStep(k, size);
      SliceShift(data, size, (k - 1) * size, k * size);
    }
  }

  lemma ChunksTail(data: seq<byte>, size: nat, k: nat)
    requires size > 0 && 0 < k < |Chunks(data, size)|
    ensures |data| > size
    ensures k - 1 < |Chunks(data[size..], size)|
    ensures Chunks(data, size)[k] == Chunks(data[size..], size)[k - 1]
  {
  }

  lemma MulStep(k: nat, size: nat)
    requires k > 0
    ensures k * size == (k - 1) * size + size
  {
  }

  /** Slicing what follows the first `size` bytes is slicing further along. */
  lemma SliceShift(data: seq<byte>, size: nat, b: nat, c: nat)
    requires |data| >= size && c == b + size
    ensures Slice(data[size..], b, b + size) == Slice(data, c, c + size)
  {
  }

  /** The cut of the data from offset `i` on is the slice at `i`, then the
      cut from the next offset. */
  lemma ChunksFrom(data: seq<byte>, i: nat, size: nat)
    requires size > 0 && i < |data|
    ensures Chunks(data[i..], size)
      == [Slice(data, i, i + size)] + Chunks(data[Min(i + size, |data|)..], size)
  {
    var rest := data[i..];
    ChunksStep(rest, size);
    assert rest[..Min(size, |rest|)] == Slice(data, i, i + size);
    assert rest[Min(size, |rest|)..] == data[Min(i + size, |data|)..];
  }

  /** The flash button: the fetched text is parsed and the image written in
      chunks; the bytes that reach the port, in order, are the parsed image. */
  method FlashHexText(text: string) returns (writes: seq<seq<byte>>)
    ensures Flatten(writes) == IntelHex.ParseIntelHex(text)
    ensures forall k :: 0 <= k < |writes| ==> 0 < |writes[k]| <= ChunkSize
  {
    var firmware := IntelHex.ParseIntelHex(text);
    writes := FlashFirmware(firmware);
  }
}
