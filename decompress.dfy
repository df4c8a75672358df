/** decompress.py: read the framed records with their implicit indices,
    decompress every record on its own thread, collect the results from a
    queue into `results[chunk_index]`, and write the slots in index order. */
module Decompress {
  import opened Common
  import opened Files
  import opened Chunking
  import opened Container
  import Compress

  /** One item yielded by `read_chunks`: a record's position in the file and
      the bytes read for it. */
  datatype Record = Record(index: nat, data: seq<byte>)

  /** The payloads paired with their positions 0, 1, 2, ... */
  function Numbered(payloads: seq<seq<byte>>): seq<Record> {
    seq(|payloads|, i requires 0 <= i < |payloads| => Record(i, payloads[i]))
  }

  lemma NumberedSnoc(payloads: seq<seq<byte>>, p: seq<byte>)
    ensures Numbered(payloads + [p]) == Numbered(payloads) + [Record(|payloads|, p)]
  {
  }

  /** `read_chunks`, with the generator's items collected in yield order:
      the records of the file, numbered 0, 1, 2, ... in file order. */
  method ReadChunks(input: seq<byte>) returns (records: seq<Record>)
    ensures records == Numbered(Parse(input))
  {
    var f := new Reader(input);
    records := [];
    var chunkIndex := 0;
    ghost var payloads: seq<seq<byte>> := [];
    while true
      invariant f.Valid() && f.data == input
      invariant chunkIndex == |payloads|
      invariant Parse(input) == payloads + Parse(f.Rest())
      invariant records == Numbered(payloads)
      decreases |input| - f.pos
    {
      var chunkData := ReadFrame(f);
      if chunkData.None? {
        break;
      }
      SnocShift(payloads, chunkData.value, Parse(f.Rest()));
      NumberedSnoc(payloads, chunkData.value);
      records := records + [Record(chunkIndex, chunkData.value)];
      payloads := payloads + [chunkData.value];
      chunkIndex := chunkIndex + 1;
    }
    assert Parse(input) == payloads by {
      assert Parse(f.Rest()) == [];
    }
  }

  /** The order in which the `n` decompression threads put their results on
      the queue: each chunk index exactly once, in any order. */
  predicate IsArrivalOrder(order: seq<nat>, n: nat) {
    && |order| == n
    && (forall k :: 0 <= k < n ==> order[k] < n)
    && (forall k, l :: 0 <= k < l < n ==> order[k] != order[l])
  }

  /** The indices below `n`. */
  function Below(n: nat): (r: set<nat>)
    ensures forall j: nat :: j in r <==> j < n
    ensures |r| == n
  {
    if n == 0 then {} else Below(n - 1) + {n - 1}
  }

  /** The entries of `s`. */
  function Elements(s: seq<nat>): (r: set<nat>)
    ensures forall x :: x in r <==> x in s
  {
    if s == [] then {} else {s[0]} + Elements(s[1..])
  }

  /** Distinct entries make a set of the same size. */
  lemma {:induction false} ElementsCount(s: seq<nat>)
    requires forall k, l :: 0 <= k < l < |s| ==> s[k] != s[l]
    ensures |Elements(s)| == |s|
  {
    if s != [] {
      assert s[0] !in s[1..];
      ElementsCount(s[1..]);
    }
  }

  /** Pigeonhole: `n` distinct indices below `n` reach every one of the `n`
      slots, so every slot of `results` is filled. */
  lemma ArrivalCoversAll(order: seq<nat>, n: nat)
    requires IsArrivalOrder(order, n)
    ensures forall j :: 0 <= j < n ==> j in order
  {
    var seen, all := Elements(order), Below(n);
    ElementsCount(order);
    assert seen <= all;
    assert |all - seen| == |all| - |seen|;
    assert all - seen == {};
    forall j | 0 <= j < n ensures j in order {
      assert j in all;
    }
  }

  /** Every payload through the codec; None where `zlib.decompress` raises,
      which ends that thread before it puts anything on the queue. */
  function DecompressAll(codec: Codec<byte>, payloads: seq<seq<byte>>): (slots: seq<Option<seq<byte>>>)
    ensures (forall i :: 0 <= i < |slots| ==> slots[i].Some?) <==> DecodeFrames(codec, payloads).Success?
  {
    var slots := seq(|payloads|, i requires 0 <= i < |payloads| => codec.decompress(payloads[i]));
    assert forall i :: 0 <= i < |slots| ==> slots[i] == codec.decompress(payloads[i]);
    slots
  }

  /** What the final loop leaves in the output file: the slots in index
      order, until a slot still holding None makes `f_out.write` raise. */
  function Assemble(slots: seq<Option<seq<byte>>>): (w: Written)
    ensures w.error.None? <==> forall i :: 0 <= i < |slots| ==> slots[i].Some?
    ensures w.error.Some? ==>
              && w.error.value.MissingChunk?
              && w.error.value.index < |slots|
              && slots[w.error.value.index].None?
              && forall i :: 0 <= i < w.error.value.index ==> slots[i].Some?
    decreases |slots|
  {
    if slots == [] then Written([], None)
    else
      var w := Assemble(slots[..|slots| - 1]);
      assert forall i :: 0 <= i < |slots| - 1 ==> slots[..|slots| - 1][i] == slots[i];
      if w.error.Some? then w
      else
        match slots[|slots| - 1]
        case None => Written(w.bytes, Some(MissingChunk(|slots| - 1)))
        case Some(d) => Written(w.bytes + d, None)
  }

  /** Once a slot is missing, later slots add nothing to the file. */
  lemma {:induction false} AssembleStopped(slots: seq<Option<seq<byte>>>, i: nat)
    requires i <= |slots| && Assemble(slots[..i]).error.Some?
    ensures Assemble(slots) == Assemble(slots[..i])
    decreases |slots| - i
  {
    if i < |slots| {
      assert slots[..i + 1][..i] == slots[..i];
      AssembleStopped(slots, i + 1);
    } else {
      assert slots[..i] == slots;
    }
  }

  /** When every slot is filled, the file is the slots' contents joined in
      index order. */
  lemma {:induction false} AssembleAll(parts: seq<seq<byte>>)
    ensures Assemble(seq(|parts|, i requires 0 <= i < |parts| => Some(parts[i]))) == Written(Concat(parts), None)
    decreases |parts|
  {
    var slots := seq(|parts|, i requires 0 <= i < |parts| => Some(parts[i]));
    if parts != [] {
      var init := parts[..|parts| - 1];
      assert slots[..|slots| - 1] == seq(|init|, i requires 0 <= i < |init| => Some(init[i]));
      AssembleAll(init);
      ConcatSnoc(init, parts[|parts| - 1]);
      assert init + [parts[|parts| - 1]] == parts;
    }
  }

  /** The queue drained into `results`, in arrival order: the thread of
      each record that decompressed delivers into that record's slot, and
      the slot of a thread whose `zlib.decompress` raised stays None. */
  method DrainQueue(codec: Codec<byte>, records: seq<Record>, arrival: seq<nat>)
    returns (results: array<Option<seq<byte>>>)
    requires IsArrivalOrder(arrival, |records|)
    requires forall j :: 0 <= j < |records| ==> records[j].index == j
    ensures fresh(results) && results.Length == |records|
    ensures forall j :: 0 <= j < |records| ==> results[j] == codec.decompress(records[j].data)
  {
    var n := |records|;
    results := new Option<seq<byte>>[n](_ => None);
    var k := 0;
    while k < n
      modifies results
      invariant 0 <= k <= n
      invariant forall j :: 0 <= j < n ==>
                  results[j] == if j in arrival[..k] then codec.decompress(records[j].data) else None
    {
      var thread := arrival[k];
      var chunkIndex := records[thread].index;
      assert chunkIndex !in arrival[..k];
      assert results[chunkIndex].None?;  // every slot is filled at most once
      var decompressed := codec.decompress(records[thread].data);
      if decompressed.Some? {
        results[chunkIndex] := decompressed;
      }
      assert arrival[..k + 1] == arrival[..k] + [thread];
      k := k + 1;
    }
    ArrivalCoversAll(arrival, n);
    assert arrival[..n] == arrival;
  }

  /** The final loop of `gcsv_decompress`: the slots written to a new file in
      index order, until writing a slot that is still None raises. */
  method WriteResults(results: seq<Option<seq<byte>>>) returns (output: seq<byte>, err: Option<Error>)
    ensures Written(output, err) == Assemble(results)
  {
    var fOut := new File([]);
    var i := 0;
    while i < |results|
      modifies fOut
      invariant 0 <= i <= |results|
      invariant Assemble(results[..i]) == Written(fOut.contents, None)
    {
      assert results[..i + 1][..i] == results[..i];
      match results[i]
      case None =>
        AssembleStopped(results, i + 1);
        return fOut.contents, Some(MissingChunk(i));
      case Some(decompressedData) =>
        fOut.Write(decompressedData);
      i := i + 1;
    }
    assert results[..i] == results;
    output, err := fOut.contents, None;
  }

  /** `gcsv_decompress`, with the input file's contents as `input` and the
      output file's final contents as `output`. `arrival` is the order in
      which the threads finished, which the model leaves free: the output
      depends on the records alone, whatever that order is. `err` is the
      TypeError raised by writing a slot whose thread failed. */
  method GcsvDecompress(codec: Codec<byte>, input: seq<byte>, arrival: seq<nat>) returns (output: seq<byte>, err: Option<Error>)
    requires IsArrivalOrder(arrival, |Parse(input)|)
    ensures Written(output, err) == Assemble(DecompressAll(codec, Parse(input)))
  {
    var records := ReadChunks(input);
    var results := DrainQueue(codec, records, arrival);
    assert results[..] == DecompressAll(codec, Parse(input));
    output, err := WriteResults(results[..]);
  }

  /** Compressing with compress.py and decompressing with decompress.py
      reproduces the input byte for byte, provided the codec is lossless and
      every compressed chunk's length fits in a header. */
  lemma RoundTrip(codec: Codec<byte>, input: seq<byte>)
    requires Lossless(codec)
    requires FramesFit(CompressAll(codec, Split(input, Compress.CHUNK_SIZE)))
    ensures var container := Serialise(CompressAll(codec, Split(input, Compress.CHUNK_SIZE)));
            container.error.None? &&
            Assemble(DecompressAll(codec, Parse(container.bytes))) == Written(input, None)
  {
    var chunks := Split(input, Compress.CHUNK_SIZE);
    var payloads := CompressAll(codec, chunks);
    ParseSerialise(payloads);
    var slots := DecompressAll(codec, payloads);
    assert slots == seq(|chunks|, i requires 0 <= i < |chunks| => Some(chunks[i])) by {
      forall i | 0 <= i < |chunks|
        ensures slots[i] == Some(chunks[i])
      {
        assert codec.decompress(codec.compress(chunks[i])) == Some(chunks[i]);
      }
    }
    AssembleAll(chunks);
    SplitConcat(input, Compress.CHUNK_SIZE);
  }
}
