/** pandas_gcsv.py: the in-memory variants. `gcsv_compress_from_memory` slices
    a CSV string into `ceil(len / chunk_size_bytes)` pieces with Python slice
    arithmetic, compresses them on a pool and writes the frames in submission
    order; `_decompress_gcsv_to_memory` reads the frames back into one string. */
module PandasGcsv {
  import opened Common
  import opened Chunking
  import opened Container
  import opened Files

  /** One megabyte as the module counts it: `1024 * 1024` characters. */
  const MEBIBYTE: int := 1024 * 1024

  /** `chunk_size * 1024 * 1024`: the chunk size in megabytes, in characters.
      Nothing checks its sign. */
  function ChunkSizeBytes(chunkSize: int): (size: int)
    ensures size == 0 <==> chunkSize == 0
    ensures chunkSize > 0 ==> size >= MEBIBYTE
    ensures chunkSize < 0 ==> size <= -MEBIBYTE
  {
    chunkSize * 1024 * 1024
  }

  /** Python's `a // b`: the quotient rounded toward negative infinity. */
  function FloorDiv(a: int, b: int): (q: int)
    requires b != 0
    ensures b > 0 ==> b * q <= a < b * q + b
    ensures b < 0 ==> b * q >= a > b * q + b
  {
    if b > 0 then a / b
    else
      var m := -b;
      assert m * ((-a) / m) + (-a) % m == -a;
      (-a) / m
  }

  /** The chunk count `(len(csv_data) + chunk_size_bytes - 1) // chunk_size_bytes`. */
  function NumChunks(len: nat, size: int): (n: int)
    requires size != 0
    ensures size > 0 ==> n >= 0 && size * n - size < len <= size * n
  {
    FloorDiv(len + size - 1, size)
  }

  /** A bound of a Python slice on a sequence of length `n`: a negative
      bound counts from the end, and the result is clamped to `[0, n]`. */
  function SliceBound(i: int, n: nat): (k: nat)
    ensures k <= n
    ensures 0 <= i ==> k == Min(i, n)
    ensures i < 0 ==> k == n - Min(-i, n)
  {
    if i < 0 then (if i + n < 0 then 0 else i + n)
    else if i > n then n
    else i
  }

  /** Python's `s[start:end]`: empty when the normalised bounds cross. */
  function PySlice<T>(s: seq<T>, start: int, end: int): (r: seq<T>)
    ensures |r| <= |s|
    ensures 0 <= start <= end <= |s| ==> r == s[start..end]
    ensures 0 <= start <= |s| <= end ==> r == s[start..]
    ensures 0 <= end <= start ==> r == []
    ensures -|s| <= start < 0 <= end <= |s| ==> r == if |s| + start < end then s[|s| + start..end] else []
    ensures start < -|s| && 0 <= end <= |s| ==> r == s[..end]
  {
    var lo, hi := SliceBound(start, |s|), SliceBound(end, |s|);
    if lo < hi then s[lo..hi] else []
  }

  /** The chunk that iteration `i` of the submission loop slices out:
      `csv_data[i * size : min((i + 1) * size, len(csv_data))]`. */
  function ChunkAt(csvData: seq<char>, size: int, i: int): (chunk: seq<char>)
    ensures size > 0 && 0 <= i && i * size < |csvData| ==> 0 < |chunk| <= size
  {
    PySlice(csvData, i * size, Min((i + 1) * size, |csvData|))
  }

  /** The chunks submitted to the pool, for `i in range(num_chunks)`
      (an empty range when the count is negative). */
  function MemoryChunks(csvData: seq<char>, size: int): (chunks: seq<seq<char>>)
    requires size != 0
    ensures size > 0 ==> size * |chunks| - size < |csvData| <= size * |chunks|
  {
    var n := NumChunks(|csvData|, size);
    seq(if n < 0 then 0 else n, i => ChunkAt(csvData, size, i))
  }

  /** `gcsv_compress_from_memory`, with the output file's final contents as
      `output`. The file is opened with 'wb' before anything else, so it is
      empty when the chunk-count division by a zero chunk size raises, or
      when the pool refuses a worker count that is not positive. Otherwise
      the frames of the compressed chunks follow in submission order, up to
      a header write that raises. */
  method CompressFromMemory(codec: Codec<char>, csvData: seq<char>, chunkSize: int, maxThreads: int)
    returns (output: seq<byte>, err: Option<Error>)
    ensures chunkSize == 0 ==> output == [] && err == Some(ZeroChunkSize)
    ensures chunkSize != 0 && maxThreads <= 0 ==> output == [] && err == Some(InvalidWorkerCount)
    ensures chunkSize != 0 && maxThreads > 0 ==>
              Written(output, err) == Serialise(CompressAll(codec, MemoryChunks(csvData, ChunkSizeBytes(chunkSize))))
  {
    var fOut := new File([]);
    var size := ChunkSizeBytes(chunkSize);
    if size == 0 {
      return fOut.contents, Some(ZeroChunkSize);
    }
    var numChunks := FloorDiv(|csvData| + size - 1, size);
    if maxThreads <= 0 {
      return fOut.contents, Some(InvalidWorkerCount);
    }
    var futures: seq<seq<byte>> := [];
    var i := 0;
    while i < numChunks
      invariant 0 <= i && (i <= numChunks || i == 0)
      invariant |futures| == i
      invariant forall j :: 0 <= j < i ==> futures[j] == codec.compress(ChunkAt(csvData, size, j))
    {
      var start := i * size;
      var end := Min((i + 1) * size, |csvData|);
      var chunk := PySlice(csvData, start, end);
      futures := futures + [codec.compress(chunk)];
      i := i + 1;
    }
    assert futures == CompressAll(codec, MemoryChunks(csvData, size));
    err := WriteFrames(fOut, futures);
    output := fOut.contents;
  }

  /** A negative dividend has a negative quotient. */
  lemma DivNegative(x: int, d: nat)
    requires d > 0 && x < 0
    ensures x / d < 0
  {
    var q := x / d;
    assert d * q + x % d == x;
    if q >= 1 {
      MulAtLeast(d, q);
    }
  }

  /** With a negative chunk size and an input of at least `2 - size`
      characters, the chunk count is negative, so `range(num_chunks)` is
      empty and no slice is taken. */
  lemma NegativeChunkCount(len: nat, size: int)
    requires size < 0 && len >= 2 - size
    ensures NumChunks(len, size) < 0
  {
    var m := -size;
    assert NumChunks(len, size) == (m + 1 - len) / m;
    DivNegative(m + 1 - len, m);
  }

  /** With a positive chunk size the slices are exactly the fixed-size
      chunks of the input, in order. */
  lemma PositiveChunkSize(csvData: seq<char>, size: int)
    requires size > 0
    ensures MemoryChunks(csvData, size) == Split(csvData, size)
  {
    var chunks := MemoryChunks(csvData, size);
    SplitCount(csvData, size);
    assert |chunks| == |Split(csvData, size)|;
    forall i | 0 <= i < |chunks|
      ensures chunks[i] == Split(csvData, size)[i]
    {
      ChunkAtSplit(csvData, size, i);
    }
  }

  /** Slice `i` of the submission loop is chunk `i` of the input. */
  lemma ChunkAtSplit(csvData: seq<char>, size: int, i: nat)
    requires size > 0 && i < |Split(csvData, size)|
    ensures ChunkAt(csvData, size, i) == Split(csvData, size)[i]
  {
    var a, b := i * size, (i + 1) * size;
    assert 0 <= a && b == a + size by {
      MulSucc(i, size);
    }
    assert a < |csvData| && Split(csvData, size)[i] == csvData[a..Min(b, |csvData|)] by {
      SplitSlice(csvData, size, i);
    }
    var e := Min(b, |csvData|);
    assert SliceBound(a, |csvData|) == a && SliceBound(e, |csvData|) == e;
  }

  /** With a negative chunk size the count is one for an input of at most
      one character and not positive otherwise, and the one slice is
      empty: the file holds a single frame of nothing, or no frame at all,
      whatever the input was. */
  lemma NegativeChunkSize(csvData: seq<char>, chunkSize: int)
    requires chunkSize < 0
    ensures MemoryChunks(csvData, ChunkSizeBytes(chunkSize)) == if |csvData| <= 1 then [[]] else []
  {
    var size := ChunkSizeBytes(chunkSize);
    var m, len := -size, |csvData|;
    var x := m + 1 - len;
    assert NumChunks(len, size) == x / m;
    if len <= 1 {
      DivUnique(x, m, 1);
      assert ChunkAt(csvData, size, 0) == [] by {
        assert Min(size, len) == size;
        assert SliceBound(size, len) == 0;
      }
    } else if x >= 0 {
      DivUnique(x, m, 0);
    } else {
      NegativeChunkCount(len, size);
    }
  }

  /** A CSV string written with a positive chunk size and a lossless codec
      reads back unchanged, provided every compressed chunk fits a header. */
  lemma RoundTrip(codec: Codec<char>, csvData: seq<char>, chunkSize: int)
    requires Lossless(codec) && chunkSize > 0
    requires FramesFit(CompressAll(codec, MemoryChunks(csvData, ChunkSizeBytes(chunkSize))))
    ensures var w := Serialise(CompressAll(codec, MemoryChunks(csvData, ChunkSizeBytes(chunkSize))));
            w.error.None? && DecodeFrames(codec, Parse(w.bytes)) == Success(csvData)
  {
    var size := ChunkSizeBytes(chunkSize);
    PositiveChunkSize(csvData, size);
    ReadBackWritten(codec, Split(csvData, size));
    SplitConcat(csvData, size);
  }

  /** `_decompress_gcsv_to_memory`, with the file's contents as `data`: the
      decompressed text of every record in file order, joined, or the
      exception of the first record that does not decompress. */
  method DecompressToMemory(codec: Codec<char>, data: seq<byte>) returns (r: Result<seq<char>>)
    ensures r == DecodeFrames(codec, Parse(data))
  {
    r := DecompressFrames(codec, data);
  }
}
