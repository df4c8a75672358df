/** The GCSV container: a sequence of records, each a 4-byte big-endian
    payload length followed by the payload. There is no index field; a
    record's position is its chunk index. This module holds the format itself
    and the two loops every variant shares: writing frames in order, and
    reading them back until a header read comes back empty. */
module Container {
  import opened Common
  import opened BigEndian
  import opened Files

  /** One record: `len(payload).to_bytes(4, 'big')` followed by `payload`. */
  function Frame(payload: seq<byte>): (r: Result<seq<byte>>)
    ensures r.Failure? <==> |payload| >= LENGTH_LIMIT
    ensures r.Failure? ==> r.error == LengthOverflow
    ensures r.Success? ==>
              |r.value| == HEADER_SIZE + |payload| && r.value[HEADER_SIZE..] == payload &&
              FromBigEndian(r.value[..HEADER_SIZE]) == |payload|
  {
    match ToBigEndian4(|payload|)
    case Failure(e) => Failure(e)
    case Success(header) =>
      assert (header + payload)[..HEADER_SIZE] == header;
      Success(header + payload)
  }

  /** Every payload's length fits in a header. */
  predicate FramesFit(payloads: seq<seq<byte>>) {
    forall i :: 0 <= i < |payloads| ==> |payloads[i]| < LENGTH_LIMIT
  }

  /** The bytes the writer loops leave in the output file: the frames of
      `payloads` in order, up to the first one whose header write raises. */
  function Serialise(payloads: seq<seq<byte>>): (w: Written)
    ensures w.error.None? <==> FramesFit(payloads)
    ensures w.error.Some? ==> w.error == Some(LengthOverflow)
    ensures payloads == [] ==> w.bytes == []
  {
    if payloads == [] then Written([], None)
    else
      match Frame(payloads[0])
      case Failure(e) => Written([], Some(e))
      case Success(f) =>
        var rest := Serialise(payloads[1..]);
        assert FramesFit(payloads) <==> FramesFit(payloads[1..]) by {
          assert forall i :: 1 <= i < |payloads| ==> payloads[i] == payloads[1..][i - 1];
        }
        Written(f + rest.bytes, rest.error)
  }

  /** Writing one more payload after the others extends the output by its
      frame, unless an earlier header write already raised. */
  lemma {:induction false} SerialiseSnoc(payloads: seq<seq<byte>>, p: seq<byte>)
    ensures Serialise(payloads + [p]) ==
              if Serialise(payloads).error.Some? then Serialise(payloads)
              else match Frame(p)
                   case Failure(e) => Written(Serialise(payloads).bytes, Some(e))
                   case Success(f) => Written(Serialise(payloads).bytes + f, None)
  {
    if payloads == [] {
      assert [] + [p] == [p];
      assert [p][1..] == [];
    } else {
      assert (payloads + [p])[1..] == payloads[1..] + [p];
      SerialiseSnoc(payloads[1..], p);
    }
  }

  /** The payloads the reader loops take from `data`: read a header of up to
      4 bytes, stop if nothing came back, otherwise decode it as an unsigned
      big-endian length and read up to that many bytes. A short header or a
      short payload at the end of the file is taken as it is. */
  function Parse(data: seq<byte>): (payloads: seq<seq<byte>>)
    ensures payloads == [] <==> data == []
    decreases |data|
  {
    if data == [] then []
    else
      var header := Take(data, HEADER_SIZE);
      var rest := data[|header|..];
      var payload := Take(rest, FromBigEndian(header));
      [payload] + Parse(rest[|payload|..])
  }

  /** Every record the reader yields consumes at least one byte of the
      file, so there are never more records than bytes. */
  lemma {:induction false} ParseCount(data: seq<byte>)
    ensures |Parse(data)| <= |data|
    decreases |data|
  {
    if data != [] {
      var header := Take(data, HEADER_SIZE);
      var rest := data[|header|..];
      var payload := Take(rest, FromBigEndian(header));
      var next := rest[|payload|..];
      assert |header| >= 1 && |next| < |data|;
      assert Parse(data) == [payload] + Parse(next);
      ParseCount(next);
    }
  }

  /** One frame is read back as its payload, whatever follows it. */
  lemma ParseFrame(p: seq<byte>, tail: seq<byte>)
    requires |p| < LENGTH_LIMIT
    ensures Parse(Frame(p).value + tail) == [p] + Parse(tail)
  {
    var f := Frame(p).value;
    var data := f + tail;
    assert Take(data, HEADER_SIZE) == f[..HEADER_SIZE];
    var rest := data[HEADER_SIZE..];
    assert rest == p + tail;
    assert Take(rest, |p|) == p;
    assert rest[|p|..] == tail;
  }

  /** A container that serialises without error is the first payload's
      frame followed by the container of the others. */
  lemma SerialiseCons(payloads: seq<seq<byte>>)
    requires FramesFit(payloads) && payloads != []
    ensures |payloads[0]| < LENGTH_LIMIT && FramesFit(payloads[1..])
    ensures Serialise(payloads).bytes == Frame(payloads[0]).value + Serialise(payloads[1..]).bytes
  {
    assert forall i :: 1 <= i < |payloads| ==> payloads[i] == payloads[1..][i - 1];
  }

  /** A serialised sequence of payloads is read back exactly, whatever
      follows it in the file. */
  lemma {:induction false} ParseAppend(payloads: seq<seq<byte>>, tail: seq<byte>)
    requires FramesFit(payloads)
    ensures Parse(Serialise(payloads).bytes + tail) == payloads + Parse(tail)
  {
    if payloads == [] {
      assert [] + tail == tail;
    } else {
      var p, others := payloads[0], payloads[1..];
      var more := Serialise(others).bytes;
      assert Serialise(payloads).bytes + tail == Frame(p).value + (more + tail) by {
        SerialiseCons(payloads);
        AppendAssoc(Frame(p).value, more, tail);
      }
      assert Parse(Frame(p).value + (more + tail)) == [p] + Parse(more + tail) by {
        SerialiseCons(payloads);
        ParseFrame(p, more + tail);
      }
      assert Parse(more + tail) == others + Parse(tail) by {
        SerialiseCons(payloads);
        ParseAppend(others, tail);
      }
      assert [p] + (others + Parse(tail)) == payloads + Parse(tail) by {
        AppendAssoc([p], others, Parse(tail));
        assert payloads == [p] + others;
      }
    }
  }

  /** Parsing what was serialised gives back exactly the payloads written,
      in the order they were written. */
  lemma ParseSerialise(payloads: seq<seq<byte>>)
    requires FramesFit(payloads)
    ensures Parse(Serialise(payloads).bytes) == payloads
  {
    ParseAppend(payloads, []);
    assert Serialise(payloads).bytes + [] == Serialise(payloads).bytes;
  }

  /** A container cut short inside its last record is not rejected: the
      reader yields the records before the cut and then one last payload with
      the bytes of `p` that survived (none when the cut is in the header). */
  lemma ParseTruncated(payloads: seq<seq<byte>>, p: seq<byte>, k: nat)
    requires FramesFit(payloads) && |p| < LENGTH_LIMIT
    requires 0 < k < HEADER_SIZE + |p|
    ensures Parse(Serialise(payloads).bytes + Frame(p).value[..k]) ==
              payloads + [if k <= HEADER_SIZE then [] else p[..k - HEADER_SIZE]]
  {
    var cut := Frame(p).value[..k];
    var last: seq<byte> := if k <= HEADER_SIZE then [] else p[..k - HEADER_SIZE];
    assert Parse(cut) == [last] by {
      var header := Take(cut, HEADER_SIZE);
      var rest := cut[|header|..];
      if k <= HEADER_SIZE {
        assert rest == [];
      } else {
        assert header == Frame(p).value[..HEADER_SIZE];
        assert rest == p[..k - HEADER_SIZE];
        assert FromBigEndian(header) == |p|;
      }
      var payload := Take(rest, FromBigEndian(header));
      assert payload == last && rest[|payload|..] == [];
      assert Parse(cut) == [payload] + Parse([]);
    }
    ParseAppend(payloads, cut);
  }

  /** The file written by the writer loops in compress.py and pandas_gcsv.py:
      for each payload in submission order, its header, then the payload.
      A header that does not fit raises before anything of that frame is
      written; the frames before it stay in the file. */
  method WriteFrames(out: File, payloads: seq<seq<byte>>) returns (err: Option<Error>)
    modifies out
    ensures out.contents == old(out.contents) + Serialise(payloads).bytes
    ensures err == Serialise(payloads).error
  {
    var i := 0;
    while i < |payloads|
      invariant 0 <= i <= |payloads|
      invariant Serialise(payloads[..i]).error.None?
      invariant out.contents == old(out.contents) + Serialise(payloads[..i]).bytes
    {
      var p := payloads[i];
      var header := ToBigEndian4(|p|);
      if header.Failure? {
        assert Serialise(payloads) == Written(Serialise(payloads[..i]).bytes, Some(LengthOverflow)) by {
          SerialiseSnoc(payloads[..i], p);
          PrefixSnoc(payloads, i);
          StopStaysStopped(payloads, i + 1);
        }
        return Some(header.error);
      }
      out.Write(header.value);
      out.Write(p);
      assert Serialise(payloads[..i + 1]) == Written(Serialise(payloads[..i]).bytes + (header.value + p), None) by {
        SerialiseSnoc(payloads[..i], p);
        PrefixSnoc(payloads, i);
      }
      i := i + 1;
    }
    assert payloads[..i] == payloads;
    err := None;
  }

  /** Once a header write has raised, later payloads add nothing. */
  lemma {:induction false} StopStaysStopped(payloads: seq<seq<byte>>, i: nat)
    requires i <= |payloads| && Serialise(payloads[..i]).error.Some?
    ensures Serialise(payloads) == Serialise(payloads[..i])
    decreases |payloads| - i
  {
    if i < |payloads| {
      SerialiseSnoc(payloads[..i], payloads[i]);
      assert payloads[..i + 1] == payloads[..i] + [payloads[i]];
      StopStaysStopped(payloads, i + 1);
    } else {
      assert payloads[..i] == payloads;
    }
  }

  /** One turn of the reader loops: `f.read(4)`; an empty header ends the
      loop; otherwise `int.from_bytes(header, 'big')` bytes more are read. */
  method ReadFrame(f: Reader) returns (payload: Option<seq<byte>>)
    requires f.Valid()
    modifies f
    ensures f.Valid()
    ensures payload.None? <==> old(f.Rest()) == []
    ensures payload.None? ==> f.pos == old(f.pos)
    ensures payload.Some? ==> f.pos > old(f.pos) && Parse(old(f.Rest())) == [payload.value] + Parse(f.Rest())
  {
    var header := f.Read(HEADER_SIZE);
    if header == [] {
      return None;
    }
    var chunk := f.Read(FromBigEndian(header));
    payload := Some(chunk);
  }

  /** What the text readers return for the payloads of a container:
      each decompressed in file order and joined; the first payload that
      does not decompress raises, and nothing is returned. */
  function DecodeFrames<T>(codec: Codec<T>, payloads: seq<seq<byte>>): (r: Result<seq<T>>)
    ensures r.Success? <==> forall i :: 0 <= i < |payloads| ==> codec.decompress(payloads[i]).Some?
    ensures r.Failure? ==> r.error == CorruptPayload
  {
    if payloads == [] then Success([])
    else
      assert forall i :: 1 <= i < |payloads| ==> payloads[i] == payloads[1..][i - 1];
      match codec.decompress(payloads[0])
      case None => Failure(CorruptPayload)
      case Some(text) =>
        match DecodeFrames(codec, payloads[1..])
        case Failure(e) => Failure(e)
        case Success(more) => Success(text + more)
  }

  /** `text` prepended to a successful result. */
  function Prepend<T>(text: seq<T>, r: Result<seq<T>>): Result<seq<T>> {
    match r
    case Failure(e) => Failure(e)
    case Success(more) => Success(text + more)
  }

  /** Decoding a payload list unfolds at its first payload. */
  lemma DecodeStep<T>(codec: Codec<T>, payload: seq<byte>, more: seq<seq<byte>>)
    ensures DecodeFrames(codec, [payload] + more) ==
              match codec.decompress(payload)
              case None => Failure(CorruptPayload)
              case Some(text) => Prepend(text, DecodeFrames(codec, more))
  {
    assert ([payload] + more)[1..] == more;
  }

  lemma PrependTwice<T>(a: seq<T>, b: seq<T>, r: Result<seq<T>>)
    ensures Prepend(a, Prepend(b, r)) == Prepend(a + b, r)
  {
    if r.Success? {
      assert a + (b + r.value) == (a + b) + r.value;
    }
  }

  /** The reader loop of `_decompress_gcsv_to_memory` and
      `GCSVReader._decompress_gcsv`: frame by frame, decompress, append to a
      list, and join the list once the header read comes back empty. */
  method DecompressFrames<T>(codec: Codec<T>, data: seq<byte>) returns (r: Result<seq<T>>)
    ensures r == DecodeFrames(codec, Parse(data))
  {
    var f := new Reader(data);
    var parts: seq<seq<T>> := [];
    ghost var all := DecodeFrames(codec, Parse(data));
    assert all.Success? ==> [] + all.value == all.value;
    while true
      invariant f.Valid() && f.data == data
      invariant DecodeFrames(codec, Parse(data)) == Prepend(Concat(parts), DecodeFrames(codec, Parse(f.Rest())))
      decreases |data| - f.pos
    {
      var payload := ReadFrame(f);
      if payload.None? {
        break;
      }
      var text := codec.decompress(payload.value);
      DecodeStep(codec, payload.value, Parse(f.Rest()));
      if text.None? {
        return Failure(CorruptPayload);
      }
      ConcatSnoc(parts, text.value);
      PrependTwice(Concat(parts), text.value, DecodeFrames(codec, Parse(f.Rest())));
      parts := parts + [text.value];
    }
    assert Concat(parts) + [] == Concat(parts);
    r := Success(Concat(parts));
  }

  /** Compressing chunks, serialising the payloads and reading the container
      back with a lossless codec gives the chunks joined in order. */
  lemma {:induction false} DecodeCompressed<T(!new)>(codec: Codec<T>, chunks: seq<seq<T>>)
    requires Lossless(codec)
    ensures DecodeFrames(codec, CompressAll(codec, chunks)) == Success(Concat(chunks))
  {
    if chunks != [] {
      DecodeCompressed(codec, chunks[1..]);
      assert CompressAll(codec, chunks)[1..] == CompressAll(codec, chunks[1..]);
    }
  }

  /** The round trip of the text variants: a container written from `chunks`
      with a lossless codec reads back as the chunks joined in order. */
  lemma ReadBackWritten<T(!new)>(codec: Codec<T>, chunks: seq<seq<T>>)
    requires Lossless(codec) && FramesFit(CompressAll(codec, chunks))
    ensures DecodeFrames(codec, Parse(Serialise(CompressAll(codec, chunks)).bytes)) == Success(Concat(chunks))
  {
    ParseSerialise(CompressAll(codec, chunks));
    DecodeCompressed(codec, chunks);
  }
}
