/** Splitting the uncompressed input into fixed-size chunks, the way both
    writers do it: compress.py by reading `CHUNK_SIZE` bytes at a time until a
    read comes back empty, pandas_gcsv.py by slicing `ceil(len / size)` pieces. */
module Chunking {
  import opened Common

  /** `(a + size - 1) // size`, the chunk count pandas_gcsv.py computes. */
  function CeilDiv(a: nat, size: nat): nat
    requires size > 0
  {
    (a + size - 1) / size
  }

  /** The chunks read from `s` by repeated `read(size)` calls until one
      returns nothing: each read takes at most `size` bytes from the cursor. */
  function Split<T>(s: seq<T>, size: nat): (chunks: seq<seq<T>>)
    requires size > 0
    ensures chunks == [] <==> s == []
    ensures |chunks| <= |s|
    decreases |s|
  {
    if s == [] then []
    else
      var chunk := Take(s, size);
      [chunk] + Split(s[|chunk|..], size)
  }

  /** Joining the chunks in read order gives the input back. */
  lemma {:induction false} SplitConcat<T>(s: seq<T>, size: nat)
    requires size > 0
    ensures Concat(Split(s, size)) == s
  {
    if s != [] {
      var chunk := Take(s, size);
      SplitConcat(s[|chunk|..], size);
      assert s == chunk + s[|chunk|..];
    }
  }

  /** No chunk is empty, none is longer than `size`, and every chunk but the
      last is exactly `size` long. */
  lemma {:induction false} SplitSizes<T>(s: seq<T>, size: nat)
    requires size > 0
    ensures forall i :: 0 <= i < |Split(s, size)| ==> 0 < |Split(s, size)[i]| <= size
    ensures forall i :: 0 <= i < |Split(s, size)| - 1 ==> |Split(s, size)[i]| == size
  {
    if s != [] {
      var chunk := Take(s, size);
      SplitSizes(s[|chunk|..], size);
      var rest := Split(s[|chunk|..], size);
      assert Split(s, size) == [chunk] + rest;
      assert rest != [] ==> |chunk| == size;
    }
  }

  /** A positive multiple of `d` is at least `d`. */
  lemma {:induction false} MulAtLeast(d: nat, k: int)
    requires k >= 1
    ensures d * k >= d
    decreases k
  {
    if k > 1 {
      MulAtLeast(d, k - 1);
      assert d * k == d * (k - 1) + d;
    }
  }

  /** A quotient is fixed by the bounds `d * q <= x < d * q + d`. */
  lemma DivUnique(x: int, d: nat, q: int)
    requires d > 0 && d * q <= x < d * q + d
    ensures x / d == q
  {
    var k := x / d - q;
    assert d * (x / d) + x % d == x;
    assert d * k == d * (x / d) - d * q;
    if k >= 1 {
      MulAtLeast(d, k);
    } else if k <= -1 {
      MulAtLeast(d, -k);
    }
  }

  /** `(x + d) // d == x // d + 1`. */
  lemma DivShift(x: int, d: nat)
    requires d > 0
    ensures (x + d) / d == x / d + 1
  {
    var q := x / d;
    assert d * q + x % d == x;
    assert d * (q + 1) == d * q + d;
    DivUnique(x + d, d, q + 1);
  }

  /** There are `ceil(|s| / size)` chunks. */
  lemma {:induction false} SplitCount<T>(s: seq<T>, size: nat)
    requires size > 0
    ensures |Split(s, size)| == CeilDiv(|s|, size)
  {
    if s == [] {
      DivUnique(size - 1, size, 0);
    } else if |s| <= size {
      assert Take(s, size) == s && s[|s|..] == [];
      assert Split(s, size) == [s] + Split([], size);
      DivUnique(|s| + size - 1, size, 1);
    } else {
      var t := s[size..];
      assert Split(s, size) == [s[..size]] + Split(t, size);
      SplitCount(t, size);
      DivShift(|t| + size - 1, size);
    }
  }

  /** `CeilDiv(a, size)` chunks of `size` elements cover `a` elements. */
  lemma CeilDivCovers(a: nat, size: nat)
    requires size > 0
    ensures CeilDiv(a, size) * size >= a
  {
    var n := CeilDiv(a, size);
    assert size * n + (a + size - 1) % size == a + size - 1;
  }

  /** Chunk `i` is the slice `s[i * size .. min((i + 1) * size, |s|)]`. */
  lemma SplitSlice<T>(s: seq<T>, size: nat, i: nat)
    requires size > 0 && i < |Split(s, size)|
    ensures i * size < |s|
    ensures Split(s, size)[i] == s[i * size .. Min((i + 1) * size, |s|)]
  {
    SplitSliceFrom(s, size, i, i * size);
    MulSucc(i, size);
  }

  /** Chunk `i` starts at `start == i * size` and is at most `size` long;
      the induction steps `start` down by `size` with each chunk. */
  lemma {:induction false} SplitSliceFrom<T>(s: seq<T>, size: nat, i: nat, start: nat)
    requires size > 0 && i < |Split(s, size)| && start == i * size
    ensures start < |s|
    ensures Split(s, size)[i] == s[start .. Min(start + size, |s|)]
  {
    var chunk := Take(s, size);
    var t := s[|chunk|..];
    assert Split(s, size) == [chunk] + Split(t, size);
    if i > 0 {
      assert |chunk| == size;
      MulSucc(i - 1, size);
      SplitSliceFrom(t, size, i - 1, start - size);
      ShiftSlice(s, size, start - size, Min(start, |t|));
    }
  }

  /** `(k + 1) * d == k * d + d`, and neither is negative. */
  lemma MulSucc(k: nat, d: nat)
    ensures (k + 1) * d == k * d + d
    ensures k * d >= 0
  {
  }

  /** A slice of `s[size..]` is the slice of `s` shifted by `size`. */
  lemma ShiftSlice<T>(s: seq<T>, size: nat, a: nat, e: nat)
    requires size <= |s| && a <= e <= |s| - size
    ensures s[size..][a..e] == s[a + size .. e + size]
    ensures Min(e + size, |s|) == e + size
  {
  }

  /** The last chunk holds what the full chunks before it leave over:
      `|s| - (n - 1) * size` elements. */
  lemma LastChunk<T>(s: seq<T>, size: nat)
    requires size > 0 && s != []
    ensures var n := |Split(s, size)|;
            n > 0 && |Split(s, size)[n - 1]| == |s| - (n - 1) * size
  {
    var n := |Split(s, size)|;
    assert n != 0;
    SplitSlice(s, size, n - 1);
    SplitCount(s, size);
    CeilDivCovers(|s|, size);
    var a, b := (n - 1) * size, n * size;
    assert b >= |s|;
    assert Min(b, |s|) == |s|;
    assert Split(s, size)[n - 1] == s[a..];
  }
}
