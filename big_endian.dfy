/** The record header: Python's `int.to_bytes(4, 'big')` and
    `int.from_bytes(b, 'big')`. */
module BigEndian {
  import opened Common

  /** Number of bytes in a record header (`CHUNK_SIZE_BYTES` in decompress.py). */
  const HEADER_SIZE: nat := 4

  /** The first length that does not fit in a header: 2^32. */
  const LENGTH_LIMIT: nat := 0x1_0000_0000

  /** 256 to the power `n`: one more than the largest value `n` bytes hold. */
  function Pow256(n: nat): (p: nat)
    ensures p >= 1
  {
    if n == 0 then 1 else 256 * Pow256(n - 1)
  }

  /** `int.from_bytes(b, 'big')`, for a byte string of any length (the
      empty string decodes to 0). */
  function FromBigEndian(b: seq<byte>): (n: nat)
    ensures n < Pow256(|b|)
    decreases |b|
  {
    if b == [] then 0 else FromBigEndian(b[..|b| - 1]) * 256 + b[|b| - 1]
  }

  /** `n.to_bytes(4, 'big')`: four bytes, most significant first, or
      OverflowError when `n` needs more than four bytes. */
  function ToBigEndian4(n: nat): (r: Result<seq<byte>>)
    ensures r.Failure? <==> n >= LENGTH_LIMIT
    ensures r.Failure? ==> r.error == LengthOverflow
    ensures r.Success? ==> |r.value| == HEADER_SIZE && FromBigEndian(r.value) == n
  {
    if n >= LENGTH_LIMIT then Failure(LengthOverflow)
    else
      var q1 := n / 256;
      var q2 := q1 / 256;
      var q3 := q2 / 256;
      var b: seq<byte> := [q3, q2 % 256, q1 % 256, n % 256];
      assert FromBigEndian(b) == n by {
        assert b[..3][..2] == b[..2] && b[..2][..1] == b[..1] && b[..1][..0] == [];
        assert n == q1 * 256 + n % 256 && q1 == q2 * 256 + q1 % 256 && q2 == q3 * 256 + q2 % 256;
        assert FromBigEndian(b[..1]) == q3;
        assert FromBigEndian(b[..2]) == q2;
        assert FromBigEndian(b[..3]) == q1;
      }
      Success(b)
  }

  /** Decoding is exact on every four-byte header: the encoder of a decoded
      header gives that header back. */
  lemma {:induction false} HeaderRoundTrip(h: seq<byte>)
    requires |h| == HEADER_SIZE
    ensures FromBigEndian(h) < LENGTH_LIMIT
    ensures ToBigEndian4(FromBigEndian(h)) == Success(h)
  {
    assert h[..3][..2] == h[..2] && h[..2][..1] == h[..1] && h[..1][..0] == [];
    var n := FromBigEndian(h);
    var b0, b1, b2, b3: int := h[0], h[1], h[2], h[3];
    assert FromBigEndian(h[..1]) == b0;
    assert FromBigEndian(h[..2]) == b0 * 256 + b1;
    assert FromBigEndian(h[..3]) == (b0 * 256 + b1) * 256 + b2;
    assert n == ((b0 * 256 + b1) * 256 + b2) * 256 + b3;
    DigitSplit(b0 * 256 + b1, b2);
    DigitSplit((b0 * 256 + b1) * 256 + b2, b3);
    DigitSplit(b0, b1);
    assert n / 256 == (b0 * 256 + b1) * 256 + b2 && n % 256 == b3;
    assert n / 256 / 256 == b0 * 256 + b1;
    assert n / 256 / 256 / 256 == b0;
    assert n < LENGTH_LIMIT;
    var r := ToBigEndian4(n).value;
    assert r == [b0, b1, b2, b3];
    assert r == h;
  }

  /** Appending a low-order byte `d` to `x` and dividing by 256 recovers both. */
  lemma DigitSplit(x: nat, d: int)
    requires 0 <= d < 256
    ensures (x * 256 + d) / 256 == x && (x * 256 + d) % 256 == d
  {
  }
}
