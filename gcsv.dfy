/** gcsv.py: a reader that decompresses a whole GCSV file into one string,
    and a writer that buffers CSV rows in memory and, on close, appends the
    buffer as one compressed record to the file. */
module Gcsv {
  import opened Common
  import opened BigEndian
  import opened Files
  import opened Container

  /** `GCSVReader._decompress_gcsv`: the decompressed text of every record
      of the file in file order, joined, or the exception of the first
      record that does not decompress. */
  method DecompressGcsv(codec: Codec<char>, file: File) returns (r: Result<seq<char>>)
    ensures r == DecodeFrames(codec, Parse(file.contents))
  {
    r := DecompressFrames(codec, file.contents);
  }

  /** The text `csv.writer(...).writerows(rows)` appends: each row formatted
      by the dialect, in order. */
  function FormatRows(formatRow: seq<string> -> string, rows: seq<seq<string>>): (text: string)
    ensures text == Concat(seq(|rows|, i requires 0 <= i < |rows| => formatRow(rows[i])))
    decreases |rows|
  {
    if rows == [] then []
    else
      var init, last := rows[..|rows| - 1], rows[|rows| - 1];
      var lines := seq(|rows|, i requires 0 <= i < |rows| => formatRow(rows[i]));
      assert lines == seq(|init|, i requires 0 <= i < |init| => formatRow(init[i])) + [formatRow(last)];
      ConcatSnoc(seq(|init|, i requires 0 <= i < |init| => formatRow(init[i])), formatRow(last));
      FormatRows(formatRow, init) + formatRow(last)
  }

  /** Writing rows in two batches leaves the same text as writing them in one. */
  lemma {:induction false} FormatRowsAppend(formatRow: seq<string> -> string, rows: seq<seq<string>>, more: seq<seq<string>>)
    ensures FormatRows(formatRow, rows + more) == FormatRows(formatRow, rows) + FormatRows(formatRow, more)
    decreases |more|
  {
    if more == [] {
      assert rows + more == rows;
    } else {
      var init, last := more[..|more| - 1], more[|more| - 1];
      var all := rows + more;
      assert all[..|all| - 1] == rows + init && all[|all| - 1] == last;
      assert FormatRows(formatRow, all) == FormatRows(formatRow, rows + init) + formatRow(last);
      assert FormatRows(formatRow, more) == FormatRows(formatRow, init) + formatRow(last);
      FormatRowsAppend(formatRow, rows, init);
    }
  }

  /** `GCSVWriter`. `buffer` is the text of the `io.StringIO` buffer and
      `closed` says whether that buffer has been closed; `file` is the GCSV
      file on disk, which the writer only ever appends to. `formatRow` is
      the default `csv` dialect, left abstract. */
  class GcsvWriter {
    const file: File
    const codec: Codec<char>
    const formatRow: seq<string> -> string
    var buffer: string
    var closed: bool

    /** `GCSVWriter(gcsv_file)`: an empty, open buffer; the file is not
        touched. */
    constructor (file: File, codec: Codec<char>, formatRow: seq<string> -> string)
      ensures this.file == file && this.codec == codec && this.formatRow == formatRow
      ensures buffer == [] && !closed
    {
      this.file := file;
      this.codec := codec;
      this.formatRow := formatRow;
      buffer := [];
      closed := false;
    }

    /** `write_row`: the formatted row is appended to the buffer; a closed
        buffer raises and keeps its text. */
    method WriteRow(row: seq<string>) returns (err: Option<Error>)
      modifies this
      ensures closed == old(closed)
      ensures old(closed) ==> err == Some(ClosedBuffer) && buffer == old(buffer)
      ensures !old(closed) ==> err == None && buffer == old(buffer) + formatRow(row)
    {
      if closed {
        return Some(ClosedBuffer);
      }
      buffer := buffer + formatRow(row);
      err := None;
    }

    /** `write_rows`: the rows one after the other. On a closed buffer the
        first row raises, so only an empty list goes through. */
    method WriteRows(rows: seq<seq<string>>) returns (err: Option<Error>)
      modifies this
      ensures closed == old(closed)
      ensures old(closed) && rows != [] ==> err == Some(ClosedBuffer) && buffer == old(buffer)
      ensures !old(closed) || rows == [] ==> err == None && buffer == old(buffer) + FormatRows(formatRow, rows)
    {
      var i := 0;
      while i < |rows|
        invariant 0 <= i <= |rows| && closed == old(closed)
        invariant closed ==> i == 0 && buffer == old(buffer)
        invariant buffer == old(buffer) + FormatRows(formatRow, rows[..i])
      {
        err := WriteRow(rows[i]);
        if err.Some? {
          return;
        }
        assert rows[..i + 1][..i] == rows[..i];
        i := i + 1;
      }
      assert rows[..i] == rows;
      err := None;
    }

    /** `_compress_and_write`: reading a closed buffer raises before the file
        is opened; otherwise the buffer's compressed text is appended to the
        file as one record, unless its header raises first. */
    method CompressAndWrite() returns (err: Option<Error>)
      modifies file
      ensures closed ==> err == Some(ClosedBuffer) && file.contents == old(file.contents)
      ensures !closed ==>
                match Frame(codec.compress(buffer))
                case Failure(e) => err == Some(e) && file.contents == old(file.contents)
                case Success(f) => err == None && file.contents == old(file.contents) + f
    {
      if closed {
        return Some(ClosedBuffer);
      }
      var compressedData := codec.compress(buffer);
      var header := ToBigEndian4(|compressedData|);
      if header.Failure? {
        return Some(header.error);
      }
      file.Write(header.value);
      file.Write(compressedData);
      err := None;
    }

    /** `close`: flush the buffer as one record, then close the buffer. When
        the flush raises, the buffer stays open. */
    method Close() returns (err: Option<Error>)
      modifies this, file
      ensures buffer == old(buffer)
      ensures old(closed) ==> err == Some(ClosedBuffer) && closed && file.contents == old(file.contents)
      ensures !old(closed) ==>
                match Frame(codec.compress(buffer))
                case Failure(e) => err == Some(e) && !closed && file.contents == old(file.contents)
                case Success(f) => err == None && closed && file.contents == old(file.contents) + f
    {
      err := CompressAndWrite();
      if err.Some? {
        return;
      }
      closed := true;
    }
  }

  /** A successful close adds the record of one more buffer to a file that
      holds the records of the earlier buffers. */
  lemma CloseAppendsRecord(codec: Codec<char>, buffers: seq<string>, b: string)
    requires Serialise(CompressAll(codec, buffers)).error.None?
    requires Frame(codec.compress(b)).Success?
    ensures Serialise(CompressAll(codec, buffers + [b])) ==
              Written(Serialise(CompressAll(codec, buffers)).bytes + Frame(codec.compress(b)).value, None)
  {
    CompressAllSnoc(codec, buffers, b);
    SerialiseSnoc(CompressAll(codec, buffers), codec.compress(b));
  }

  /** The writer's intended use: a new writer on `file` is given `rows` and
      closed, which appends the rows' text as one record. */
  method WriteBatch(file: File, codec: Codec<char>, formatRow: seq<string> -> string, rows: seq<seq<string>>)
    returns (err: Option<Error>)
    modifies file
    ensures match Frame(codec.compress(FormatRows(formatRow, rows)))
            case Failure(e) => err == Some(e) && file.contents == old(file.contents)
            case Success(f) => err == None && file.contents == old(file.contents) + f
  {
    var writer := new GcsvWriter(file, codec, formatRow);
    err := writer.WriteRows(rows);
    assert !writer.closed && writer.buffer == FormatRows(formatRow, rows) by {
      assert [] + FormatRows(formatRow, rows) == FormatRows(formatRow, rows);
    }
    err := writer.Close();
  }

  /** The text of each batch of rows. */
  function BatchTexts(formatRow: seq<string> -> string, batches: seq<seq<seq<string>>>): seq<string> {
    seq(|batches|, k requires 0 <= k < |batches| => FormatRows(formatRow, batches[k]))
  }

  /** Writers opened one after another on a new file, each given a batch of
      rows and closed, followed by a reader of that file: the reader returns
      every batch's text, in the order the writers were closed, provided the
      codec is lossless and every compressed batch fits a header. */
  method WriteAndReadBack(codec: Codec<char>, formatRow: seq<string> -> string, batches: seq<seq<seq<string>>>)
    returns (r: Result<string>)
    requires Lossless(codec)
    requires forall k :: 0 <= k < |batches| ==> |codec.compress(FormatRows(formatRow, batches[k]))| < LENGTH_LIMIT
    ensures r == Success(Concat(BatchTexts(formatRow, batches)))
  {
    var file := new File([]);
    ghost var texts: seq<string> := [];
    var k := 0;
    while k < |batches|
      modifies file
      invariant 0 <= k <= |batches|
      invariant texts == BatchTexts(formatRow, batches[..k])
      invariant Serialise(CompressAll(codec, texts)).error.None?
      invariant file.contents == Serialise(CompressAll(codec, texts)).bytes
    {
      var text := FormatRows(formatRow, batches[k]);
      var err := WriteBatch(file, codec, formatRow, batches[k]);
      CloseAppendsRecord(codec, texts, text);
      assert BatchTexts(formatRow, batches[..k + 1]) == texts + [text];
      texts := texts + [text];
      k := k + 1;
    }
    assert batches[..k] == batches;
    r := DecompressGcsv(codec, file);
    ReadBackWritten(codec, texts);
  }
}
