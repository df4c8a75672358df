/** compress.py: split the input file into 1 MiB chunks, compress each, and
    write the compressed chunks as framed records in submission order. */
module Compress {
  import opened Common
  import opened Files
  import opened Chunking
  import opened Container

  /** `CHUNK_SIZE`: the fixed read size, 1 MiB. */
  const CHUNK_SIZE: nat := 1024 * 1024

  /** `compress_chunk`: one chunk through the codec. */
  function CompressChunk(codec: Codec<byte>, chunk: seq<byte>): (payload: seq<byte>)
    ensures Lossless(codec) ==> codec.decompress(payload) == Some(chunk)
  {
    codec.compress(chunk)
  }

  /** `split_and_compress`, with the input file's contents as `input` and the
      output file's final contents as `output`. The pool's futures are taken
      in submission order, so the pool is the sequential map over the chunks.
      `err` is the OverflowError of a header write, if one raised. */
  method SplitAndCompress(codec: Codec<byte>, input: seq<byte>) returns (output: seq<byte>, err: Option<Error>)
    ensures Written(output, err) == Serialise(CompressAll(codec, Split(input, CHUNK_SIZE)))
  {
    var fIn := new Reader(input);
    var fOut := new File([]);
    var futures: seq<seq<byte>> := [];
    ghost var chunks: seq<seq<byte>> := [];
    while true
      invariant fIn.Valid() && fIn.data == input && fOut.contents == []
      invariant chunks + Split(fIn.Rest(), CHUNK_SIZE) == Split(input, CHUNK_SIZE)
      invariant futures == CompressAll(codec, chunks)
      decreases |input| - fIn.pos
    {
      ghost var rest := fIn.Rest();
      var chunk := fIn.Read(CHUNK_SIZE);
      if chunk == [] {
        assert rest == [] && chunks + [] == chunks;
        break;
      }
      assert Split(rest, CHUNK_SIZE) == [chunk] + Split(fIn.Rest(), CHUNK_SIZE);
      SnocShift(chunks, chunk, Split(fIn.Rest(), CHUNK_SIZE));
      CompressAllSnoc(codec, chunks, chunk);
      futures := futures + [CompressChunk(codec, chunk)];
      chunks := chunks + [chunk];
    }
    assert futures == CompressAll(codec, Split(input, CHUNK_SIZE));
    err := WriteFrames(fOut, futures);
    output := fOut.contents;
    assert output == Serialise(futures).bytes;
  }

  /** The read loop never hands an empty chunk to the pool; every chunk has
      at most `CHUNK_SIZE` bytes, every one but the last exactly that many,
      and there are `ceil(|input| / CHUNK_SIZE)` of them. */
  lemma ChunkShape(input: seq<byte>)
    ensures var chunks := Split(input, CHUNK_SIZE);
            |chunks| == CeilDiv(|input|, CHUNK_SIZE) &&
            (forall i :: 0 <= i < |chunks| ==> 0 < |chunks[i]| <= CHUNK_SIZE) &&
            (forall i :: 0 <= i < |chunks| - 1 ==> |chunks[i]| == CHUNK_SIZE)
  {
    SplitCount(input, CHUNK_SIZE);
    SplitSizes(input, CHUNK_SIZE);
  }

  /** An empty input file gives an empty output file: no chunk, no frame. */
  lemma EmptyInput(codec: Codec<byte>)
    ensures Serialise(CompressAll(codec, Split([], CHUNK_SIZE))) == Written([], None)
  {
    assert CompressAll(codec, Split([], CHUNK_SIZE)) == [];
  }
}
