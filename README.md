# GCSV container: a Dafny model

GCSV is a chunked, compressed container for CSV data. A container is a
sequence of records. Each record is a 4-byte unsigned big-endian length
followed by that many bytes of zlib-compressed data. There is no index field:
a record's position in the file is its chunk index. Joining the
decompressed records in file order gives the original data back.

This project models the Python core that writes and reads the container:

- `compress.py` reads the input 1 MiB at a time and compresses the chunks on
  a thread pool. It writes the records in submission order.
- `decompress.py` reads the records and decompresses each on its own thread.
  It collects the results from a queue into slots by index, then writes the
  slots in index order.
- `pandas_gcsv.py` does the same on an in-memory string. It slices the
  string into `ceil(len / size)` pieces and reads a container back into one
  string.
- `gcsv.py` has two classes. `GCSVReader` decompresses a whole file into
  one string. `GCSVWriter` buffers CSV rows and appends them as one record
  on close.

zlib is a `Codec` value: a `compress` function and a `decompress` function
that returns `None` where the Python call raises. For the text variants,
UTF-8 encoding and decoding are part of the codec (see "## Left out" for
the strings that cannot be encoded). The round trip the
container relies on is the predicate `Lossless(codec)`, which appears as a
precondition wherever it is needed. Files are the two classes in `Files`:

- a `Reader`, whose cursor moves with each short-or-exact `read(n)`;
- a `File`, that writes append to.

A thread pool whose futures are taken in submission order is the
sequential map over the chunks. The `decompress.py` queue depends on thread
finishing order. That order is a parameter, any permutation of the chunk
indices, and the proved output does not depend on it.

Python exceptions are values of `Common.Error`. They are returned together
with the bytes that were already written when they were raised (`Written`):

- `OverflowError` from `to_bytes(4, 'big')` on a length of 2^32 or more;
- a failing `zlib.decompress`;
- `TypeError` from writing a slot that was never filled;
- `ZeroDivisionError` for a chunk size of 0;
- `ValueError` for a non-positive worker count;
- `ValueError` for use of a closed `StringIO`.

A stricter reader would reject a container that ends inside a header or
a payload as truncated. The readers
(`decompress.py:27-35`, `pandas_gcsv.py:27-32`, `gcsv.py:29-33`) do not do
that: they decode a 1-3 byte header as a shorter big-endian number and accept
a short payload read. `Container.Parse` does the same, and
`Container.ParseTruncated` states exactly what a cut-off container parses
to. Whether such a payload is then rejected is left to `decompress`.

Modules: `Common`, `Files`, `BigEndian`, `Chunking`, `Container` (the format
and the read and write loops every variant shares), `Compress`,
`Decompress`, `PandasGcsv`, `Gcsv`.

## Model

| member | source | states |
|---|---|---|
| BigEndian.ToBigEndian4 | compress.py:38 | `to_bytes(4, 'big')` fails with OverflowError exactly when the length is 2^32 or more; otherwise it gives 4 bytes that decode back to the length |
| BigEndian.FromBigEndian | decompress.py:32 | `int.from_bytes(b, 'big')` of `n` bytes is below 256^n, so a 4-byte header is a length below 2^32 |
| BigEndian.HeaderRoundTrip | decompress.py:27-32 | every 4-byte header decodes to a length below 2^32 whose encoding is that same header |
| Files.Reader.Read | compress.py:26 | `read(n)` returns the next `min(n, remaining)` bytes and advances the cursor by that many; it never fails |
| Files.File.Write | compress.py:38-41 | a write appends its bytes to the file |
| Chunking.SplitConcat | compress.py:25-31 | the chunks read until an empty read, joined in order, are the whole input |
| Chunking.Split | compress.py:25-28 | the read loop yields no chunk exactly when the input is empty, and never more chunks than bytes |
| Chunking.SplitSizes | compress.py:25-28 | no chunk is empty; every chunk has at most `size` bytes, and all but the last have exactly `size` |
| Chunking.SplitCount | compress.py:25-31 | the read loop submits `ceil(len / size)` chunks, i.e. `(len + size - 1) // size` |
| Chunking.SplitSlice | pandas_gcsv.py:71-74 | chunk `i` is the slice `[i * size, min((i + 1) * size, len))` of the input |
| Chunking.LastChunk | pandas_gcsv.py:73 | the last chunk holds the `len - (n - 1) * size` elements left after the full chunks |
| Container.Frame | compress.py:37-41 | a record is a header whose big-endian value is the payload length, followed by the payload; it fails exactly when the length does not fit in 4 bytes |
| Container.Serialise | compress.py:34-41 | the writer loop fails with OverflowError exactly when some payload does not fit a header; no payloads give an empty file |
| Container.SerialiseSnoc | compress.py:34-41 | one more payload extends the written bytes by its record, unless an earlier header already raised |
| Container.WriteFrames | compress.py:34-41 | the output file is extended by exactly the records of the payloads in order, and the error is the first header overflow |
| Container.StopStaysStopped | compress.py:34-41 | after a header write has raised, later payloads write nothing |
| Container.Parse | decompress.py:26-41 | the loop yields no record exactly when the file is empty |
| Container.ParseCount | decompress.py:26-41 | every record consumes at least one byte, so there are never more records than bytes |
| Container.ReadFrame | decompress.py:26-35 | an empty header read ends the loop exactly at end of file; otherwise the record read is the first record of the remaining bytes |
| Container.ParseAppend | decompress.py:17-41 | reading the records written for some payloads, followed by any bytes, gives those payloads followed by what the bytes read as |
| Container.ParseSerialise | decompress.py:17-41 | the reader gives back exactly the payloads the writer wrote, in order |
| Container.ParseTruncated | decompress.py:27-35 | a container cut inside its last record reads as the earlier payloads plus a shortened last payload (empty when the cut is inside the header), not as an error |
| Container.DecodeFrames | pandas_gcsv.py:25-37 | the text readers succeed exactly when every record decompresses; otherwise they fail with the decompression error |
| Container.DecompressFrames | pandas_gcsv.py:23-37 | the record-by-record read/decompress/append loop returns the decoded text of the parsed records, or the first decompression error |
| Container.DecodeCompressed | pandas_gcsv.py:35 | with a lossless codec, decoding the compressed chunks gives the chunks joined in order |
| Container.ReadBackWritten | pandas_gcsv.py:18-37 | a container written from chunks with a lossless codec, where every payload fits a header, reads back as the chunks joined in order |
| Compress.CompressChunk | compress.py:8-10 | with a lossless codec, the compressed chunk decompresses back to the chunk |
| Compress.SplitAndCompress | compress.py:13-41 | the output file holds the records of the compressed 1 MiB chunks of the input, in order, up to the first header overflow |
| Compress.ChunkShape | compress.py:25-31 | `split_and_compress` submits `ceil(len / 1 MiB)` non-empty chunks, each of 1 MiB except possibly the last |
| Compress.EmptyInput | compress.py:25-28 | an empty input file gives an empty output file |
| Decompress.ReadChunks | decompress.py:17-41 | `read_chunks` yields one item per record, numbered 0, 1, 2, ... in file order, carrying that record's payload |
| Decompress.ArrivalCoversAll | decompress.py:66-71 | when every thread delivers, every slot of `results` is filled |
| Decompress.DecompressAll | decompress.py:9-15 | some thread fails to deliver exactly when the single-threaded reader (`DecodeFrames`) would raise on the same payloads |
| Decompress.DrainQueue | decompress.py:52-71 | whatever order the threads finish in, each item goes to the slot named by the index its thread carries, so each slot ends up holding its own record's decompressed data, or None when that record did not decompress |
| Decompress.WriteResults | decompress.py:75-76 | the output is what `Assemble` says: the filled slots in index order, stopping with TypeError at the first empty slot |
| Decompress.Assemble | decompress.py:75-76 | writing the slots succeeds exactly when every slot is filled; otherwise it stops with TypeError at the first empty slot |
| Decompress.AssembleStopped | decompress.py:75-76 | after a write has raised, later slots add nothing to the output |
| Decompress.AssembleAll | decompress.py:75-76 | when every slot is filled, the output is the slots joined in index order |
| Decompress.GcsvDecompress | decompress.py:43-77 | whatever order the threads finish in, the output file is the decompressed records in index order, up to the first record that failed to decompress |
| Decompress.RoundTrip | decompress.py:43-77 | with a lossless codec and payloads that fit headers, decompressing what `split_and_compress` wrote reproduces the input byte for byte |
| PandasGcsv.ChunkSizeBytes | pandas_gcsv.py:66 | the byte chunk size is zero exactly when the MB chunk size is zero, and keeps its sign |
| PandasGcsv.NumChunks | pandas_gcsv.py:67 | with a positive chunk size, `num_chunks` is the least count of chunks whose total size covers the string |
| PandasGcsv.FloorDiv | pandas_gcsv.py:67 | Python `//` rounds toward negative infinity, for either sign of divisor |
| PandasGcsv.ChunkAt | pandas_gcsv.py:72-74 | with a positive chunk size, a slice that starts inside the string is non-empty and at most one chunk size long |
| PandasGcsv.MemoryChunks | pandas_gcsv.py:71-75 | with a positive chunk size, the submitted slices are just enough to cover the string: one fewer would not |
| PandasGcsv.PySlice | pandas_gcsv.py:74 | Python `s[start:end]`: never longer than `s`; in-range bounds give `s[start..end]`; an end past the length stops at the length; a negative start counts from the end and one before the start clamps to 0; crossed bounds give an empty slice |
| PandasGcsv.CompressFromMemory | pandas_gcsv.py:56-81 | a zero chunk size or a non-positive worker count leaves an empty file and raises; otherwise the file holds the records of the compressed slices in submission order |
| PandasGcsv.NegativeChunkCount | pandas_gcsv.py:67-71 | with a negative chunk size and a string of at least `2 - size` characters, `num_chunks` is negative, so `range(num_chunks)` is empty and no slice is taken |
| PandasGcsv.PositiveChunkSize | pandas_gcsv.py:66-74 | with a positive chunk size, the slices are exactly the fixed-size chunks of the string |
| PandasGcsv.ChunkAtSplit | pandas_gcsv.py:71-74 | with a positive chunk size, the slice taken in iteration `i` is chunk `i` of the string |
| PandasGcsv.NegativeChunkSize | pandas_gcsv.py:66-74 | with a negative chunk size, there is one empty slice when the string has at most one character, and none otherwise; the data is not written |
| PandasGcsv.RoundTrip | pandas_gcsv.py:18-81 | a string written with a positive chunk size and a lossless codec reads back unchanged from memory |
| PandasGcsv.DecompressToMemory | pandas_gcsv.py:18-37 | returns the decoded text of the file's records in order, or the first decompression error |
| Gcsv.DecompressGcsv | gcsv.py:24-35 | returns the decoded text of the file's records in order, or the first decompression error |
| Gcsv.FormatRows | gcsv.py:75-78 | `writerows` appends the formatted rows joined in order |
| Gcsv.FormatRowsAppend | gcsv.py:70-78 | writing rows in two batches buffers the same text as writing them in one |
| Gcsv.GcsvWriter.constructor | gcsv.py:55-57 | a new writer has an empty, open buffer and does not touch the file |
| Gcsv.GcsvWriter.WriteRow | gcsv.py:70-73 | the formatted row is appended to the buffer; on a closed buffer it raises and nothing changes |
| Gcsv.GcsvWriter.WriteRows | gcsv.py:75-78 | the formatted rows are appended in order; on a closed buffer any non-empty list raises and nothing changes |
| Gcsv.GcsvWriter.CompressAndWrite | gcsv.py:80-85 | the buffer's compressed text is appended to the file as one record; a closed buffer or a header overflow leaves the file unchanged |
| Gcsv.GcsvWriter.Close | gcsv.py:87-90 | the buffer is flushed as one record and then closed; a failed flush leaves it open, and a second close raises without writing |
| Gcsv.CloseAppendsRecord | gcsv.py:80-90 | a successful close turns a file holding the records of earlier buffers into the file holding the records of those buffers plus this one |
| Gcsv.WriteBatch | gcsv.py:75-90 | a new writer given rows and closed appends exactly the record of the rows' text |
| Gcsv.WriteAndReadBack | gcsv.py:24-90 | writers closed one after another on a new file, then a reader of that file, give back every batch's text in close order |

## Left out

- `gcsv.c`, the C implementation, is not part of this model.
- zlib and UTF-8 are not modelled internally: they are the abstract `Codec`. Their round trip is the `Lossless` precondition.
- Strings with lone surrogates are not modelled. A Python `str` can hold one, and `chunk.encode('utf-8')` then raises UnicodeEncodeError (`pandas_gcsv.py:85`, `gcsv.py:82`). A Dafny `char` cannot hold a surrogate, so the model's text inputs exclude these strings, and its codec's `compress` never raises. The missed behaviour: `gcsv_compress_from_memory` re-raises the error from `future.result()` at `pandas_gcsv.py:79` after the earlier records are already written, and `_compress_and_write` raises before the file is opened.
- Concurrency: the pools and threads run sequentially in the model. Thread finishing order in `decompress.py` is the free `arrival` parameter. Blocking, joins and queue synchronisation are not modelled.
- Decompress.GcsvDecompress: requires `arrival` to be a permutation of the chunk indices. It does not model a thread that delivers twice or that dies for any reason other than a decompression failure.
- The `print` calls, the `argparse` entry points (`__main__` blocks) and the example, timing, benchmark and test scripts are not modelled. The tests import a `gcsv_compress` that `compress.py` does not define.
- File-system failures are not modelled: a missing file, permissions, a full disk. A file is its byte contents; opening by path is the caller passing the shared `File`.
- GCSVReader.read, `__iter__` and `close` (CSV parsing with the `csv` module) are not modelled. Neither are `read_gcsv` and `to_gcsv` (pandas DataFrame conversion).
- The context managers are not modelled. `GCSVReader.__enter__` decompresses the file a second time. `GCSVWriter.__enter__` calls a method the writer does not have and raises AttributeError.
- Gcsv.GcsvWriter.WriteRow: the CSV dialect is an abstract `formatRow` function, so quoting and escaping are not modelled.
- Gcsv.GcsvWriter.Close: keeps the buffer's text after closing it (Python discards it). Nothing can read that text once the buffer is closed.
- PandasGcsv.CompressFromMemory: integer chunk sizes and worker counts only. A float chunk size makes `num_chunks` a float, so `range(num_chunks)` at `pandas_gcsv.py:71` raises TypeError before any slice is taken (`0.0` raises ZeroDivisionError at line 67 first). Neither case, nor `max_threads=None`, is modelled.
- Container.Parse: no stricter truncation check than the code's own. A truncated container is not rejected while it is being parsed (see `Container.ParseTruncated`).
