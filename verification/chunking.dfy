/** The two 4096-byte loops of the buffered `end`: program the image into the
    erased target partition chunk by chunk, then read every chunk back and compare
    it with the image. Both walk the offsets 0, 4096, 8192, … below the image size. */
module Chunking {
  import opened Base
  import opened EspIdf

  const ChunkSize: nat := 4096

  /** `min(CHUNK_SIZE, buffer_size_ - offset)`: the length of the chunk at `offset`. */
  function ChunkLen(size: nat, offset: nat): (n: nat)
    requires offset < size
    ensures 0 < n <= ChunkSize
    ensures offset + n <= size
    ensures n == ChunkSize || offset + n == size
  {
    Min(ChunkSize, size - offset)
  }

  /** `o` is one of the offsets the loops visit for an image of `size` bytes. */
  predicate IsChunkStart(o: nat, size: nat)
  {
    o < size && o % ChunkSize == 0
  }

  /** Every call the loop makes at or after `offset` returned ESP_OK. */
  predicate ChunkCallsSucceed(errs: nat -> EspErr, size: nat, offset: nat)
  {
    forall o :: offset <= o < size && o % ChunkSize == 0 ==> errs(o) == EspOk
  }

  /** Two distinct chunk boundaries are at least a chunk apart. */
  lemma NextChunkStart(o: nat, offset: nat)
    requires o % ChunkSize == 0 && offset % ChunkSize == 0
    requires offset < o
    ensures offset + ChunkSize <= o
  {
    var q, p := o / ChunkSize, offset / ChunkSize;
    assert o == q * ChunkSize && offset == p * ChunkSize;
    assert p < q;
  }

  datatype Chunk = Chunk(start: nat, len: nat)

  /** The chunks the loops visit from `offset` on, in visiting order. */
  function Chunks(size: nat, offset: nat): seq<Chunk>
    decreases size - offset
  {
    if offset >= size then [] else [Chunk(offset, ChunkLen(size, offset))] + Chunks(size, offset + ChunkSize)
  }

  /** The bytes of `image` the chunks `cs` designate, in order. */
  function Gather(image: seq<byte>, cs: seq<Chunk>): seq<byte>
    requires forall k :: 0 <= k < |cs| ==> cs[k].start + cs[k].len <= |image|
  {
    if |cs| == 0 then [] else image[cs[0].start..cs[0].start + cs[0].len] + Gather(image, cs[1..])
  }

  /** The k-th chunk starts at `offset + k * 4096`, is never empty and never longer than
      4096 bytes, and the last one ends exactly at `size`. */
  lemma {:induction false} ChunksShape(size: nat, offset: nat)
    ensures var cs := Chunks(size, offset);
      && (forall k :: 0 <= k < |cs| ==> cs[k].start == offset + k * ChunkSize)
      && (forall k :: 0 <= k < |cs| ==> cs[k].start < size && cs[k].len == Min(ChunkSize, size - cs[k].start))
      && (forall k :: 0 <= k < |cs| ==> 0 < cs[k].len)
      && (forall k :: 0 <= k < |cs| ==> cs[k].start + cs[k].len <= size)
      && (|cs| > 0 ==> cs[|cs| - 1].start + cs[|cs| - 1].len == size)
      && (|cs| == 0 <==> size <= offset)
    decreases size - offset
  {
    if offset < size {
      ChunksShape(size, offset + ChunkSize);
      var cs := Chunks(size, offset);
      var rest := Chunks(size, offset + ChunkSize);
      assert cs == [Chunk(offset, ChunkLen(size, offset))] + rest;
      forall k | 0 < k < |cs|
        ensures cs[k].start == offset + k * ChunkSize
      {
        assert cs[k] == rest[k - 1];
      }
    }
  }

  /** The chunks tile the image: gathered in visiting order they give back the image
      from `offset` on, so together they cover `[offset, size)` exactly once. */
  lemma {:induction false} ChunksTile(image: seq<byte>, offset: nat)
    requires offset <= |image|
    ensures forall k :: 0 <= k < |Chunks(|image|, offset)| ==>
              Chunks(|image|, offset)[k].start + Chunks(|image|, offset)[k].len <= |image|
    ensures Gather(image, Chunks(|image|, offset)) == image[offset..]
    decreases |image| - offset
  {
    ChunksShape(|image|, offset);
    if offset < |image| {
      var len := ChunkLen(|image|, offset);
      var cs := Chunks(|image|, offset);
      if offset + ChunkSize >= |image| {
        assert Chunks(|image|, offset + ChunkSize) == [];
        assert cs == [Chunk(offset, len)];
        assert len == |image| - offset;
      } else {
        ChunksTile(image, offset + ChunkSize);
        assert cs[1..] == Chunks(|image|, offset + ChunkSize);
        assert image[offset..] == image[offset..offset + len] + image[offset + ChunkSize..];
      }
    }
  }

  /** The flash contents after the write loop, and ESP_OK or the first error it met. */
  datatype Written = Written(region: seq<byte>, err: EspErr)

  /** The write loop from `offset` on: each chunk of `image` goes to the same offset of the
      partition; the loop stops at the first failing `esp_partition_write`. */
  function WriteChunks(region: seq<byte>, image: seq<byte>, offset: nat,
                       writeErr: nat -> EspErr, stuck: nat -> Option<byte>): (w: Written)
    decreases |image| - offset
    ensures |w.region| == |region|
  {
    if offset >= |image| then Written(region, EspOk)
    else
      var len := ChunkLen(|image|, offset);
      match PartitionWrite(region, offset, image[offset..offset + len], writeErr(offset), stuck)
      case Failure(e) => Written(region, e)
      case Success(next) => WriteChunks(next, image, offset + ChunkSize, writeErr, stuck)
  }

  /** Peeling the first chunk off the "every call succeeded" condition. */
  lemma CallsSucceedStep(errs: nat -> EspErr, size: nat, offset: nat)
    requires offset % ChunkSize == 0 && offset < size
    ensures ChunkCallsSucceed(errs, size, offset) <==>
              errs(offset) == EspOk && ChunkCallsSucceed(errs, size, offset + ChunkSize)
  {
    forall o | offset < o < size && o % ChunkSize == 0
      ensures offset + ChunkSize <= o
    {
      NextChunkStart(o, offset);
    }
  }

  /** The write loop succeeds exactly when the image fits in the partition and every chunk
      write is accepted. */
  lemma {:induction false} WriteChunksSucceedIff(region: seq<byte>, image: seq<byte>, offset: nat,
                                                  writeErr: nat -> EspErr, stuck: nat -> Option<byte>)
    requires offset % ChunkSize == 0
    ensures WriteChunks(region, image, offset, writeErr, stuck).err == EspOk <==>
              offset >= |image| || (|image| <= |region| && ChunkCallsSucceed(writeErr, |image|, offset))
    decreases |image| - offset
  {
    if offset < |image| {
      var len := ChunkLen(|image|, offset);
      CallsSucceedStep(writeErr, |image|, offset);
      var pw := PartitionWrite(region, offset, image[offset..offset + len], writeErr(offset), stuck);
      if pw.Success? {
        WriteChunksSucceedIff(pw.value, image, offset + ChunkSize, writeErr, stuck);
      }
    }
  }

  /** After a successful write loop every image byte has been programmed at its own offset
      and the rest of the partition is untouched. */
  lemma {:induction false} WriteChunksContents(region: seq<byte>, image: seq<byte>, offset: nat,
                                                writeErr: nat -> EspErr, stuck: nat -> Option<byte>)
    requires WriteChunks(region, image, offset, writeErr, stuck).err == EspOk
    ensures var w := WriteChunks(region, image, offset, writeErr, stuck);
      forall i :: 0 <= i < |region| ==>
        w.region[i] == (if offset <= i < |image| then Landed(stuck, i, image[i]) else region[i])
    decreases |image| - offset
  {
    if offset < |image| {
      var len := ChunkLen(|image|, offset);
      var pw := PartitionWrite(region, offset, image[offset..offset + len], writeErr(offset), stuck);
      var next := pw.value;
      WriteChunksContents(next, image, offset + ChunkSize, writeErr, stuck);
    }
  }

  /** The verify loop from `offset` on: read each chunk back and compare it with the image;
      the loop stops at the first read error or difference. */
  function VerifyChunks(region: seq<byte>, image: seq<byte>, offset: nat, readErr: nat -> EspErr): bool
    decreases |image| - offset
  {
    if offset >= |image| then true
    else
      var len := ChunkLen(|image|, offset);
      match PartitionRead(region, offset, len, readErr(offset))
      case Failure(_) => false
      case Success(data) =>
        data == image[offset..offset + len] && VerifyChunks(region, image, offset + ChunkSize, readErr)
  }

  /** The verify loop passes exactly when every read succeeds and the partition holds
      the image byte for byte from `offset` up to the image size. */
  lemma {:induction false} VerifyChunksSpec(region: seq<byte>, image: seq<byte>, offset: nat,
                                             readErr: nat -> EspErr)
    requires offset % ChunkSize == 0
    ensures VerifyChunks(region, image, offset, readErr) <==>
      offset >= |image| ||
        (&& |image| <= |region|
         && (forall i :: offset <= i < |image| ==> region[i] == image[i])
         && ChunkCallsSucceed(readErr, |image|, offset))
    decreases |image| - offset
  {
    if offset < |image| {
      var len := ChunkLen(|image|, offset);
      assert IsChunkStart(offset, |image|);
      var pr := PartitionRead(region, offset, len, readErr(offset));
      if pr.Success? {
        VerifyChunksSpec(region, image, offset + ChunkSize, readErr);
        forall o | offset < o && IsChunkStart(o, |image|)
          ensures offset + ChunkSize <= o
        {
          NextChunkStart(o, offset);
        }
        if offset + ChunkSize >= |image| {
          assert len == |image| - offset;
        }
        if forall i :: offset <= i < offset + len ==> region[i] == image[i] {
          assert pr.value == image[offset..offset + len];
        } else {
          var i :| offset <= i < offset + len && region[i] != image[i];
          assert pr.value[i - offset] != image[offset..offset + len][i - offset];
        }
      }
    }
  }

  // ---------------------------------------------------------------- the loops walk `Chunks`

  /** Writing an explicit list of chunks in order: each chunk's bytes of `image` go to its
      start, and the walk stops at the first failing `esp_partition_write`. */
  function WriteEach(region: seq<byte>, image: seq<byte>, cs: seq<Chunk>,
                     writeErr: nat -> EspErr, stuck: nat -> Option<byte>): (w: Written)
    requires forall k :: 0 <= k < |cs| ==> cs[k].start + cs[k].len <= |image|
    ensures |w.region| == |region|
    decreases |cs|
  {
    if |cs| == 0 then Written(region, EspOk)
    else
      var c := cs[0];
      match PartitionWrite(region, c.start, Gather(image, [c]), writeErr(c.start), stuck)
      case Failure(e) => Written(region, e)
      case Success(next) => WriteEach(next, image, cs[1..], writeErr, stuck)
  }

  /** Reading back an explicit list of chunks in order, comparing each with the chunk's
      bytes of `image`. */
  function VerifyEach(region: seq<byte>, image: seq<byte>, cs: seq<Chunk>, readErr: nat -> EspErr): bool
    requires forall k :: 0 <= k < |cs| ==> cs[k].start + cs[k].len <= |image|
    decreases |cs|
  {
    |cs| == 0 ||
      match PartitionRead(region, cs[0].start, cs[0].len, readErr(cs[0].start))
      case Failure(_) => false
      case Success(data) => data == Gather(image, [cs[0]]) && VerifyEach(region, image, cs[1..], readErr)
  }

  /** The write and read-back loops visit exactly the chunks `Chunks(|image|, offset)`, in
      order, with the bytes `Gather` designates for each; and those chunks together
      carry the image from `offset` on. */
  lemma {:induction false} LoopsFollowChunks(region: seq<byte>, image: seq<byte>, offset: nat,
                                             writeErr: nat -> EspErr, stuck: nat -> Option<byte>,
                                             readErr: nat -> EspErr)
    requires offset <= |image|
    ensures forall k :: 0 <= k < |Chunks(|image|, offset)| ==>
              Chunks(|image|, offset)[k].start + Chunks(|image|, offset)[k].len <= |image|
    ensures Gather(image, Chunks(|image|, offset)) == image[offset..]
    ensures WriteChunks(region, image, offset, writeErr, stuck)
              == WriteEach(region, image, Chunks(|image|, offset), writeErr, stuck)
    ensures VerifyChunks(region, image, offset, readErr)
              == VerifyEach(region, image, Chunks(|image|, offset), readErr)
    decreases |image| - offset
  {
    ChunksTile(image, offset);
    if offset < |image| {
      var len := ChunkLen(|image|, offset);
      var cs := Chunks(|image|, offset);
      assert cs[0] == Chunk(offset, len);
      assert cs[1..] == Chunks(|image|, offset + ChunkSize);
      assert Gather(image, [cs[0]]) == image[offset..offset + len];
      if offset + ChunkSize <= |image| {
        var w := PartitionWrite(region, offset, image[offset..offset + len], writeErr(offset), stuck);
        if w.Success? {
          LoopsFollowChunks(w.value, image, offset + ChunkSize, writeErr, stuck, readErr);
        }
        LoopsFollowChunks(region, image, offset + ChunkSize, writeErr, stuck, readErr);
      } else {
        assert Chunks(|image|, offset + ChunkSize) == [];
      }
    }
  }
}
