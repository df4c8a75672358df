/** Values shared by every part of the GCSV model: bytes, the errors the Python
    code raises, the outcome of a sequence of writes, and the abstract codec
    that stands for zlib (composed with UTF-8 for the text variants). */
module Common {

  /** One octet, as found in a Python `bytes` object. */
  type byte = x: int | 0 <= x < 256

  datatype Option<+T> = None | Some(value: T)

  /** The Python exceptions the core can raise, by cause. */
  datatype Error =
    | LengthOverflow          // `int.to_bytes(4, 'big')` on a length of 2^32 or more
    | CorruptPayload          // `zlib.decompress` (or the UTF-8 decode after it) raised
    | MissingChunk(index: nat) // `f_out.write(None)`: a result slot that was never filled
    | ZeroChunkSize           // `//` by a chunk size of zero bytes
    | InvalidWorkerCount      // `ThreadPoolExecutor(max_workers=n)` with n <= 0
    | ClosedBuffer            // an operation on an `io.StringIO` that was already closed

  datatype Result<+T> = Success(value: T) | Failure(error: Error)

  /** What a sequence of writes leaves behind: the bytes written so far and,
      when one of the writes raised, the exception that stopped it. */
  datatype Written = Written(bytes: seq<byte>, error: Option<Error>)

  function Min(a: int, b: int): int {
    if a <= b then a else b
  }

  /** Python's `s[:n]` for `n >= 0`: at most `n` leading elements. */
  function Take<T>(s: seq<T>, n: nat): (r: seq<T>)
    ensures |r| == Min(n, |s|) && r == s[..|r|]
  {
    s[..Min(n, |s|)]
  }

  /** `b''.join(parts)` / `''.join(parts)`. */
  function Concat<T>(parts: seq<seq<T>>): seq<T> {
    if parts == [] then [] else parts[0] + Concat(parts[1..])
  }

  lemma {:induction false} ConcatSnoc<T>(parts: seq<seq<T>>, last: seq<T>)
    ensures Concat(parts + [last]) == Concat(parts) + last
  {
    if parts == [] {
      assert parts + [last] == [last];
    } else {
      assert (parts + [last])[1..] == parts[1..] + [last];
      ConcatSnoc(parts[1..], last);
    }
  }

  /** The compressor the container is built around, left abstract:
      `compress` is total, `decompress` gives None where the Python call
      raises. zlib's compressor never fails; for the text variants the codec
      also holds the UTF-8 step, whose encoder is total on Dafny strings. */
  datatype Codec<!T> = Codec(compress: seq<T> -> seq<byte>, decompress: seq<byte> -> Option<seq<T>>)

  /** The one property the container relies on: decompressing what was
      compressed gives the input back. */
  ghost predicate Lossless<T(!new)>(codec: Codec<T>) {
    forall x: seq<T> :: codec.decompress(codec.compress(x)) == Some(x)
  }

  /** The compressed payloads of `chunks`, in submission order: the sequential
      effect of submitting every chunk to a pool and taking the futures' results
      in the order they were submitted. */
  function CompressAll<T>(codec: Codec<T>, chunks: seq<seq<T>>): seq<seq<byte>> {
    seq(|chunks|, i requires 0 <= i < |chunks| => codec.compress(chunks[i]))
  }

  /** Compressing one more chunk adds its payload at the end. */
  lemma CompressAllSnoc<T>(codec: Codec<T>, chunks: seq<seq<T>>, c: seq<T>)
    ensures CompressAll(codec, chunks + [c]) == CompressAll(codec, chunks) + [codec.compress(c)]
  {
  }

  /** Moving the first of the remaining elements to the end of the ones
      already taken. */
  lemma SnocShift<T>(xs: seq<T>, x: T, more: seq<T>)
    ensures xs + ([x] + more) == (xs + [x]) + more
  {
  }

  lemma AppendAssoc<T>(a: seq<T>, b: seq<T>, c: seq<T>)
    ensures (a + b) + c == a + (b + c)
  {
  }

  /** A prefix one element longer is the shorter prefix and that element. */
  lemma PrefixSnoc<T>(s: seq<T>, i: nat)
    requires i < |s|
    ensures s[..i + 1] == s[..i] + [s[i]]
  {
  }
}
