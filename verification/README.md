# libSQL vector front end, write-ahead log and query statistics in Dafny

This project models seven pieces of libSQL:

- **Benchmark workload generator** (`gen_workload.py`). It prints an SQL script line by line. The script is either a plain text-table lookup workload (`no_vectors`) or a vector insert and top-k search workload (`simple_workload`).
- **SQL vector front end** (`vector.c`). This covers:
  - the `[a, b, ...]` text parser;
  - the `FLOAT32(N)`/`FLOAT64(N)` column-type parser;
  - data sizing and the value-type dispatch of `vectorParse`;
  - the `vector`, `vector_extract` and `vector_distance_cos` SQL functions.
- **Float32 vector codec** (`vectorfloat32.c`). Each element is handled as its 32-bit pattern, stored as 4 bytes with the least significant byte first. The codec covers blob validation, blob encoding and decoding, and the bracketed text rendering.
- **WAL log** (`libsql-wal/src/log.rs`). This covers:
  - the log header's frame-number arithmetic;
  - the 64-bit index-entry split;
  - the frame layout of the file;
  - the per-page frame index, where the last entry wins;
  - appending pages for a write transaction, and the commit rule;
  - sealing, and reading from a sealed log.

  The log file is a map from frame offset to frame.
- **Write transactions** (`libsql-wal/src/transaction.rs`). This covers the savepoint stack (`savepoint`/`reset`), the newest-first page lookup, the index union, the `enter` guard and `downgrade`'s lock release.
- **Shared WAL** (`libsql-wal/src/shared_wal.rs`), read single-threaded. This covers:
  - `upgrade` from a read to a write transaction;
  - the newest-first segment search;
  - the fallback chain of `read_frame` and its snapshot check;
  - the checkpoint, which folds the segments no reader holds into the database file;
  - `insert_frames`' checkpoint trigger.
- **Query statistics** (`libsql-server/src/stats.rs`). This covers:
  - `QueryStats` merging;
  - the per-statement aggregate map, capped at 30 entries with an eviction threshold;
  - the top and slowest query sets, capped at 10 entries with thresholds;
  - the counters `update` bumps.

One Dafny module per source file:
- `Workload`
- `Vector`
- `VectorF32`
- `WalLog`
- `WalTransaction`
- `SharedWal`
- `Stats`

Four small shared modules support them:
- `Common`: Option, Result and the unsigned ranges.
- `Text`: join, split and decimal text.
- `VectorTypes`: the vector object and `vectorDataSize`.
- `WalLocking`: the write lock, the `enter` guard and the panic reasons.

Where the source mutates state, the model is imperative: classes with `modifies` clauses, arrays, and loops with invariants. Each such method is proved against a specification function. The properties the source promises are proved as lemmas about those functions. A panic (`assert!`, `todo!`, `panic!`, `expect`) is an `Outcome` value, not a precondition, so that "panics exactly when" can be stated.

The three WAL files do not agree on the interfaces between them. Two examples:
- `shared_wal.rs` uses `frames_in_log` and a tuple-returning `find_frame`.
- `log.rs` has neither.

Each file is modelled against its own text, and the files are not reconciled. In particular, `WalLog` keeps its own view of the write transaction: savepoints map a page to a bare frame offset, as `log.rs` inserts them. `WalTransaction` keeps savepoints whose entries are 64-bit values split by `index_entry_split`, as `transaction.rs` reads them.

## Model

| member | source | states |
|---|---|---|
| `Workload.NoVectors` | libsql-sqlite3/benchmark/gen_workload.py:4-15 | both arguments go through `int()` before anything is printed; an argument `int()` rejects ends the run with no output, otherwise the run is exactly the `no_vectors` script (`NoVectorsRun`) |
| `Workload.PrintNoVectors` | libsql-sqlite3/benchmark/gen_workload.py:7-15 | prints exactly n+q+4 lines in order: pragma, CREATE TABLE, insert i carrying id i and the 64-component literal of random call i (ids 0..n-1 ascending), `---inserts`, q SELECTs each on `randint(n)` of its own random call, `---search`; with n <= 0 and q >= 1 the first `randint` raises after `---inserts` |
| `Workload.SimpleWorkload` | libsql-sqlite3/benchmark/gen_workload.py:17-31 | all three arguments go through `int()` before the first print; a rejected one gives no output, otherwise the run is exactly the `simple_workload` script |
| `Workload.PrintSimpleWorkload` | libsql-sqlite3/benchmark/gen_workload.py:21-31 | prints exactly n+q+5 lines in order: pragma, CREATE TABLE with `FLOAT32(dim)`, CREATE INDEX, n inserts with ids 0..n-1 each carrying a dim-component literal, `---inserts`, q `vector_top_k('x_idx', ..., 1)` probes each with a dim-component literal, `---search`; a negative dim raises at the first `uniform` call |
| `Workload.Dispatch` | libsql-sqlite3/benchmark/gen_workload.py:33-34 | argv[1] selects the generator by name and the remaining arguments are its parameters; an unknown name or a wrong argument count prints nothing |
| `Workload.Components` | libsql-sqlite3/benchmark/gen_workload.py:10 | a literal built from `uniform(size=s)` has exactly s components |
| `Workload.LiteralShape` | libsql-sqlite3/benchmark/gen_workload.py:10 | every vector literal is `[`, then its components separated by exactly size-1 commas and recovered by splitting on commas, then `]` |
| `Workload.RenderedMarkers` | libsql-sqlite3/benchmark/gen_workload.py:12-15 | a printed line is `---inserts` (or `---search`) exactly when it is that marker, so the output splits at the markers where the script put them |
| `Workload.NoVectorsMarkersUnique` | libsql-sqlite3/benchmark/gen_workload.py:9-15 | a `no_vectors` script has exactly one `---inserts` line, right after the n inserts, and one `---search` line, the last |
| `Workload.SimpleWorkloadMarkersUnique` | libsql-sqlite3/benchmark/gen_workload.py:24-31 | a `simple_workload` script has exactly one `---inserts` line, right after the n inserts, and one `---search` line, the last |
| `Workload.NoVectorsLookupsHit` | libsql-sqlite3/benchmark/gen_workload.py:9-14 | every SELECT of a `no_vectors` script asks for an id in [0, n) that an insert line of the same script stored |
| `Text.SplitJoin` | libsql-sqlite3/benchmark/gen_workload.py:10 | splitting a comma join of comma-free parts gives the parts back |
| `Text.JoinSeparatorCount` | libsql-sqlite3/benchmark/gen_workload.py:10 | a join of k comma-free parts holds exactly k-1 commas |
| `Text.IntRoundTrip` | libsql-sqlite3/benchmark/gen_workload.py:5-6 | `int()` reads back every integer's decimal text |
| `VectorTypes.DataSizeInverse` | libsql-sqlite3/src/vector.c:38-48 | data size is exact per element (4 bytes for FLOAT32, 8 for FLOAT64), and bytes/size is the largest dimension count that fits in a buffer |
| `VectorTypes.Vector.Alloc` | libsql-sqlite3/src/vector.c:63-72 | a new vector has the requested type and dimension count, is not static and owns a fresh buffer of that many elements |
| `Vector.SkipSpace` | libsql-sqlite3/src/vector.c:159-160 | the pointer stops at the first non-space character of the C string |
| `Vector.ReadChar` | libsql-sqlite3/src/vector.c:171-203 | one turn of the parse loop keeps the invariant: the element texts split so far are the cleaned input split at commas, every finished one passed its check and is stored in order; a refusal is exactly the one `BodySpec` gives |
| `Vector.EndElement` | libsql-sqlite3/src/vector.c:184-202 | at `,` or `]` the buffered text is converted and stored, or refused as not a number or one element too many; `[]` ends with no element |
| `Vector.ReadElements` | libsql-sqlite3/src/vector.c:168-207 | the loop either refuses as `BodySpec` does, or stops at the first `]` with every element text checked and stored |
| `Vector.ParseBody` | libsql-sqlite3/src/vector.c:166-217 | after the `[`, the parse returns -1 with `BodySpec`'s error, or sets and returns dims with the elements of `BodySpec` |
| `Vector.ParseText` | libsql-sqlite3/src/vector.c:138-220 | the text parser returns -1 with the error of `ParseTextSpec` (not text, no `[`, element text too long, not a number, too many elements, no `]`, data after `]`), or sets and returns dims with exactly the elements the text lists |
| `Vector.FailTooLong` | libsql-sqlite3/src/vector.c:176-181 | once every earlier element text passed its check, a current one longer than the element buffer decides the outcome: the text is refused as too long |
| `Vector.FailAtEnd` | libsql-sqlite3/src/vector.c:184-202 | at a `,` or `]`, after every earlier element text passed, a failing current text (not a number, or one element too many) decides the outcome with its own error |
| `Vector.Closed` | libsql-sqlite3/src/vector.c:204-217 | at the first `]`, the elements read so far are the result if only whitespace follows, otherwise the text is refused for trailing data; `[]` gives no element |
| `Vector.TokensOkBound` | libsql-sqlite3/src/vector.c:192-195 | an accepted text never lists more than MAX_VECTOR_SZ elements |
| `Vector.EmptyBrackets` | libsql-sqlite3/src/vector.c:185-187 | `[]`, with any whitespace around and inside the brackets, parses to zero elements |
| `Vector.RenderParses` | libsql-sqlite3/src/vectorfloat32.c:130-162 | the text the corrected renderer produces parses back to the same elements, given a formatter whose output the number parser reads back |
| `Vector.ParseSpecBound` | libsql-sqlite3/src/vector.c:235-252 | whatever value is parsed, the vector holds at most MAX_VECTOR_SZ elements |
| `Vector.Parse` | libsql-sqlite3/src/vector.c:235-252 | NULL is refused, a blob goes to the blob parser, text to the text parser, anything else is refused; on success dims and elements are those of `ParseSpec`, on failure -1 and dims unchanged |
| `Vector.ParseVectorDims` | libsql-sqlite3/src/vector.c:348-366 | the result is `DimsSpec`: a case-insensitive `FLOAT32(`/`FLOAT64(` prefix, then digits up to `)`, gives their value; a non-digit before `)`, a missing `)` or another prefix gives -1 |
| `Vector.DimsAfterPrefix` | libsql-sqlite3/src/vector.c:350-361 | after an accepted prefix, the result depends only on the text that follows it |
| `Vector.DimsOfDeclaredType` | libsql-sqlite3/src/vector.c:348-366 | `FLOAT32(d)` or `FLOAT64(d)` followed by anything yields d for every d >= 0 and -1 for a negative d |
| `Vector.Free` | libsql-sqlite3/src/vector.c:92-100 | memory is released exactly for a non-null vector that is not static |
| `Vector.InitStatic` | libsql-sqlite3/src/vector.c:108-121 | a static vector points into the blob, with blobSz/4 elements decoded from its bytes |
| `Vector.SerializeValue` | libsql-sqlite3/src/vector.c:287-305 | a vector without elements becomes SQL NULL, any other the blob of its elements |
| `Vector.SerializedParses` | libsql-sqlite3/src/vector.c:287-305 | parsing the serialized value gives the same elements back, except that a zero-element vector becomes NULL, which is refused |
| `Vector.VectorFunc` | libsql-sqlite3/src/vector.c:475-499 | `vector(X)` gives no result without an argument, the parse error, or the serialized vector |
| `Vector.VectorIdempotent` | libsql-sqlite3/src/vector.c:475-499 | `vector(vector(X))` equals `vector(X)` when that is not NULL |
| `Vector.VectorExtractFunc` | libsql-sqlite3/src/vector.c:504-529 | `vector_extract(X)` gives no result without an argument, the parse error, or the vector rendered as text by the corrected renderer of the first finding (`[]` for no elements, where vectorfloat32.c:155 as written gives `]`) |
| `Vector.ExtractThenVector` | libsql-sqlite3/src/vector.c:475-529 | `vector(vector_extract(X))` equals `vector(X)` under a formatter the number parser reads back |
| `Vector.ExtractEmptyThenVector` | libsql-sqlite3/src/vector.c:475-529 | for every formatter, the empty vector extracts (with the corrected renderer) as `[]`, and `vector` of that is NULL, as `vector(X)` itself is |
| `Vector.EmptyExtractAsWritten` | libsql-sqlite3/src/vectorfloat32.c:148-156 | as written, `[]` parses to zero elements but renders as `]`, which the parser then refuses for lacking `[` |
| `Vector.DistanceCosFunc` | libsql-sqlite3/src/vector.c:534-571 | the function follows `DistanceSpec`: each argument is parsed in turn, vectors of different lengths are refused, otherwise the distance of the two element lists |
| `Vector.DistanceRule` | libsql-sqlite3/src/vector.c:552-566 | a distance is returned exactly when both arguments parse and have the same length; the distance of a vector with itself is that of its elements with themselves |
| `VectorF32.EncodeF32` | libsql-sqlite3/src/vectorfloat32.c:61-68 | every element takes exactly four bytes of the blob |
| `VectorF32.DecodeEncodeF32` | libsql-sqlite3/src/vectorfloat32.c:61-77 | decoding the four bytes gives the 32-bit pattern back |
| `VectorF32.EncodeDecodeF32` | libsql-sqlite3/src/vectorfloat32.c:61-77 | re-encoding the pattern assembled from any four bytes gives those bytes back |
| `VectorF32.EncodeAllGroup` | libsql-sqlite3/src/vectorfloat32.c:88-91 | element i occupies bytes [4i, 4i+4) of the blob |
| `VectorF32.DecodeEncodeAll` | libsql-sqlite3/src/vectorfloat32.c:79-108 | decoding an encoded element list restores it exactly, count and bit patterns |
| `VectorF32.EncodeDecodeGroups` | libsql-sqlite3/src/vectorfloat32.c:95-108 | the first n decoded elements re-encode to the first 4n bytes |
| `VectorF32.EncodeDecodeAll` | libsql-sqlite3/src/vectorfloat32.c:95-108 | re-encoding a decoded blob gives its bytes back up to the last whole element; trailing bytes are ignored |
| `VectorF32.SerializeF32` | libsql-sqlite3/src/vectorfloat32.c:61-68 | writes the element's four bytes at the position, leaves every other byte, returns 4 |
| `VectorF32.WriteGroups` | libsql-sqlite3/src/vectorfloat32.c:88-91 | the loop leaves the encoding of all elements at the front of the blob and the rest untouched |
| `VectorF32.SerializeToBlob` | libsql-sqlite3/src/vectorfloat32.c:79-93 | given blobSz >= dims*4, returns dims*4 with the encoded elements in the first dims*4 bytes and nothing else changed |
| `VectorF32.DeserializeFromBlob` | libsql-sqlite3/src/vectorfloat32.c:95-108 | sets dims to blobSz/4, decodes that many elements and returns dims*4 |
| `VectorF32.ParseBlobRoundTrip` | libsql-sqlite3/src/vectorfloat32.c:183-222 | a blob of 1..MAX_VECTOR_SZ encoded elements parses back to them; every accepted blob is exactly the encoding of what it parses to |
| `VectorF32.ParseBlob` | libsql-sqlite3/src/vectorfloat32.c:183-222 | returns -1 for a non-blob, an empty blob, a length not a multiple of 4 or more than MAX_VECTOR_SZ elements, leaving the vector as it was; otherwise sets and returns dims = bytes/4 with the decoded elements |
| `VectorF32.InitFromBlob` | libsql-sqlite3/src/vectorfloat32.c:178-181 | sets dims to blobSz/4 and points the data at the blob |
| `VectorF32.Serialize` | libsql-sqlite3/src/vectorfloat32.c:110-128 | the result is the blob of the encoded elements |
| `VectorF32.FormatF32` | libsql-sqlite3/src/vectorfloat32.c:51-59 | one formatted element is shorter than the 32-character buffer |
| `VectorF32.AppendElement` | libsql-sqlite3/src/vectorfloat32.c:150-153 | copies the element text and a comma after what was written |
| `VectorF32.WriteElements` | libsql-sqlite3/src/vectorfloat32.c:148-154 | the buffer holds `[` and every formatted element followed by a comma, and the write index stays within bufSz |
| `VectorF32.CloseList` | libsql-sqlite3/src/vectorfloat32.c:155-156 | for at least one element, overwriting the last comma with `]` gives the bracketed comma-separated list |
| `VectorF32.CloseAt` | libsql-sqlite3/src/vectorfloat32.c:156 | writes `]` at the index and advances it |
| `VectorF32.DeserializeAsWritten` | libsql-sqlite3/src/vectorfloat32.c:130-162 | as written, the text is `RenderAsWritten` of the elements (`]` alone for none) and fits in bufSz = 2 + dims*33 |
| `VectorF32.WriteTextAsWritten` | libsql-sqlite3/src/vectorfloat32.c:142-158 | the as-written buffer walk yields `RenderAsWritten` within bufSz |
| `VectorF32.Deserialize` | libsql-sqlite3/src/vectorfloat32.c:130-162 | the text is the bracketed comma-separated list of formatted elements (`[]` for none) and fits in bufSz |
| `VectorF32.WriteText` | libsql-sqlite3/src/vectorfloat32.c:142-158 | the corrected buffer walk yields `Render` within bufSz |
| `VectorF32.RenderShape` | libsql-sqlite3/src/vectorfloat32.c:148-156 | for a formatter that writes no comma and dims >= 1, the text starts with `[`, ends with `]`, holds exactly dims-1 commas, and splitting its inside at commas gives the formatted elements |
| `WalLog.LogHeader.CountCommitted` | libsql-wal/src/log.rs:84-89 | last committed minus (start-1), saturating at 0; 0 for an empty header |
| `WalLog.LogHeader.LastCommitted` | libsql-wal/src/log.rs:91-100 | start-1 for an empty log, otherwise the last frame committed to it |
| `WalLog.LogHeader.NextFrameNo` | libsql-wal/src/log.rs:102-108 | never zero, and always LastCommitted() + 1, whether the header is empty or not |
| `WalLog.IndexEntrySplit` | libsql-wal/src/log.rs:111-116 | the high and low 32 bits recombine to the entry |
| `WalLog.IndexEntryRoundTrip` | libsql-wal/src/log.rs:111-116 | `(f << 32) \| o` fits in 64 bits, and splitting it gives back (f, o) |
| `WalLog.FrameLayout` | libsql-wal/src/log.rs:132-134 | frame 0 starts right after the log header, a page ends where the next frame starts, frames at distinct offsets do not overlap (with `page_offset` at lines 367-369) |
| `WalLog.FrameNoBytes` | libsql-wal/src/log.rs:245-252 | the frame number is written as 8 bytes |
| `WalLog.FrameNoRoundTrip` | libsql-wal/src/log.rs:245-252 | the 8 big-endian bytes read back as the frame number |
| `WalLog.FrameDataReadsBack` | libsql-wal/src/log.rs:247-253 | a frame's data is a full 4096-byte page: its first 4088 bytes are the stored prefix and its last 8 read back as the frame number |
| `WalLog.Latest` | libsql-wal/src/log.rs:43-51 | a located offset is one of the page's offsets and its frame is within the snapshot |
| `WalLog.LatestNoneIffTooNew` | libsql-wal/src/log.rs:43-51 | nothing is located exactly when every recorded frame of the page is newer than the snapshot |
| `WalLog.LatestIsLastWithin` | libsql-wal/src/log.rs:43-51 | the located offset is the last recorded one whose frame is within the snapshot |
| `WalLog.LogIndex.Default` | libsql-wal/src/log.rs:36-40 | the derived default index is empty and starts at frame number 0 |
| `WalLog.LogIndex.Starting` | libsql-wal/src/log.rs:36-40 | an empty index starting at the log's first frame |
| `WalLog.LogIndex.Locate` | libsql-wal/src/log.rs:43-51 | an unknown page locates nothing; a known one locates `Latest` of its offsets |
| `WalLog.LogIndex.MergeAll` | libsql-wal/src/log.rs:54-64 | the merged index has exactly the pages of the index |
| `WalLog.MergeAllIsLatest` | libsql-wal/src/log.rs:43-64 | last entry wins: for a snapshot that includes a page's newest frame, `locate` finds the offset `merge_all` keeps |
| `WalLog.DefaultIndexSeesNewerFrame` | libsql-wal/src/log.rs:158 | an index built by `LogIndex.Default` (start 0) with page 1 at offsets 0 and 1, over frames numbered from 1: `Locate(1, 1)` finds offset 1, whose stored frame number is 2, past the snapshot |
| `WalLog.LocateWithinSnapshot` | libsql-wal/src/log.rs:43-51 | when the index starts at the first frame of the log whose frames it names, a located offset's stored frame number is within the snapshot, and nothing is located exactly when every recorded frame of the page is newer |
| `WalLog.WriteTransaction.constructor` | libsql-wal/src/shared_wal.rs:97-110 | a new write transaction holds one empty savepoint, its counters and is not committed |
| `WalLog.WrittenNumbered` | libsql-wal/src/log.rs:244-256 | a batch whose first frame number is `start + next_offset` keeps every stored frame at offset o numbered `start + o` |
| `WalLog.FullPrefix` | libsql-wal/src/log.rs:204-249 | the pages written before the first page shorter than 4088 bytes, on which `&page[..4096 - 8]` panics: all of them exactly when every page fits |
| `WalLog.WrittenAt` | libsql-wal/src/log.rs:204-259 | after n pages, page i is the frame at offset `next_offset + i` |
| `WalLog.WrittenFrames` | libsql-wal/src/log.rs:233-257 | page i of a batch is at offset `next_offset + i`, with its page number, its first 4088 bytes and frame number `next_frame_no + i`; size_after is nonzero only on the last page of a commit |
| `WalLog.RecordedKeys` | libsql-wal/src/log.rs:258 | after a batch the savepoint index holds exactly its old pages and the pages of the batch |
| `WalLog.RecordedLastWins` | libsql-wal/src/log.rs:258 | a page of the batch maps to the offset of its last occurrence |
| `WalLog.RecordedKeepsOthers` | libsql-wal/src/log.rs:258 | a page outside the batch keeps its entry |
| `WalLog.NewestFirst` | libsql-wal/src/log.rs:289 | the savepoints are handed to the merge newest first |
| `WalLog.SealedLog.ReadPage` | libsql-wal/src/log.rs:434-448 | a sealed log misses the page exactly when its last commit is newer than the snapshot or it does not hold the page; otherwise it reads the frame at the offset the entry names |
| `WalLog.SealedIndex` | libsql-wal/src/log.rs:54-64 | the sealed index has the merged pages, each entry splitting into (0, offset) |
| `WalLog.SealedReadsLastEntry` | libsql-wal/src/log.rs:434-448 | reading a page from a freshly sealed log, within the snapshot, gives the page of its last recorded frame |
| `WalLog.Log.Create` | libsql-wal/src/log.rs:139-164 | the new log's header has last commit 0 and no index, so it is empty and its next frame is the start frame; its page index is the corrected one of the log.rs:158 finding (log.rs:158 as written builds `WalLog.LogIndex.Default`) and starts at the start frame, so its (empty) frames are numbered from the index start; no frames, readers or seal |
| `WalLog.Log.AppendFrame` | libsql-wal/src/log.rs:241-258 | one page becomes frame `next_frame_no` at offset `next_offset`, both counters grow by one, and the newest savepoint records the offset |
| `WalLog.Log.AppendAll` | libsql-wal/src/log.rs:204-259 | the loop writes the pages at consecutive offsets and frame numbers and records each in the newest savepoint, stopping at the first page too short for a frame; it reports whether every page was written |
| `WalLog.Log.CommitBatch` | libsql-wal/src/log.rs:263-298 | when some savepoint recorded a page, the header names the last frame and the new database size, and the savepoints merge into the page index newest first; the transaction is committed either way |
| `WalLog.Log.InsertPages` | libsql-wal/src/log.rs:193-302 | panics exactly when the log is sealed, `enter` refuses or there is no savepoint, changing nothing; panics on a page too short for a frame after writing and recording the pages before it, with header, index and commit flag unchanged; otherwise frames, counters, savepoint, header and index change as `AppendAll` and `CommitBatch` state, readers and seal are unchanged, and the transaction is committed exactly when it was or size_after is present; frames numbered from the index start, with `next_frame_no == start + next_offset`, stay so |
| `WalLog.Log.FindFrame` | libsql-wal/src/log.rs:306-317 | a write transaction's own frame of the page wins; otherwise `locate` on the log index, and on frames numbered from the index start the frame found is within the snapshot |
| `WalLog.Log.Seal` | libsql-wal/src/log.rs:338-364 | sealing a sealed log panics and changes nothing; otherwise the log is sealed, and a page index holding a page without offsets panics in `merge_all` (log.rs:58) with the header unchanged; otherwise the header records the index at the byte offset after the committed frames, and the sealed log carries the merged index |
| `WalLocking.EnterGuard` | libsql-wal/src/transaction.rs:101-118 | `enter` lets the closure run exactly when the transaction is not committed and the lock names it; a committed transaction panics as already committed, a lock naming no one as not a transaction |
| `WalTransaction.AsWriteMut` | libsql-wal/src/transaction.rs:17-23 | Some exactly for a write transaction, holding it |
| `WalTransaction.Commit` | libsql-wal/src/transaction.rs:25-32 | marks a write transaction committed, leaving its counters and savepoints; a read transaction is untouched |
| `WalTransaction.AfterSavepoint` | libsql-wal/src/transaction.rs:120-124 | one more savepoint, recording the current counters, the others kept |
| `WalTransaction.AfterReset` | libsql-wal/src/transaction.rs:126-134 | the savepoints up to and including the target, with the counters it recorded |
| `WalTransaction.ResetRestoresSavepoint` | libsql-wal/src/transaction.rs:120-134 | resetting to a savepoint's id restores the counters and the savepoint count of the moment it was taken, whatever happened in between |
| `WalTransaction.FindInNone` | libsql-wal/src/transaction.rs:194-203 | the lookup finds nothing exactly when no savepoint index holds the page |
| `WalTransaction.FindInNewest` | libsql-wal/src/transaction.rs:194-203 | the lookup returns the split entry of the newest savepoint holding the page |
| `WalTransaction.UnionAgreesWithFind` | libsql-wal/src/transaction.rs:137-150 | a page is in the index union exactly when the newest-first lookup finds it, with the same entry |
| `WalTransaction.WriteTransaction.constructor` | libsql-wal/src/transaction.rs:88-97 | a write transaction with the given id, lock, savepoints, counters and snapshot, not committed |
| `WalTransaction.WriteTransaction.Enter` | libsql-wal/src/transaction.rs:101-118 | the guard passes, without a panic, exactly when the transaction is not committed and the lock holds its id |
| `WalTransaction.WriteTransaction.TakeSavepoint` | libsql-wal/src/transaction.rs:120-124 | returns the old savepoint count and pushes a savepoint recording the current counters |
| `WalTransaction.WriteTransaction.Reset` | libsql-wal/src/transaction.rs:126-134 | panics, changing nothing, exactly when the savepoint does not exist; otherwise truncates to it and restores its counters |
| `WalTransaction.WriteTransaction.FindFrame` | libsql-wal/src/transaction.rs:194-203 | the search loop returns the newest-first lookup's answer |
| `WalTransaction.WriteTransaction.IndexIter` | libsql-wal/src/transaction.rs:137-150 | one pair per page held by some savepoint, taken from the newest savepoint holding it |
| `WalTransaction.WriteTransaction.Downgrade` | libsql-wal/src/transaction.rs:153-162 | clears the lock exactly when it names this transaction, otherwise leaves it; returns the read snapshot |
| `SharedWal.SharedWal.constructor` | libsql-wal/src/shared_wal.rs:26-36 | a WAL over its current log and a database file of whole pages, with no sealed segments and transaction ids starting at 0, valid for reads, insertions and checkpoints |
| `SharedWal.SharedWal.Upgrade` | libsql-wal/src/shared_wal.rs:65-117 | a write transaction panics; a held lock means wait; a snapshot that does not end at the current last commit is BusySnapshot; otherwise the lock takes the next id and the transaction becomes a write transaction with one empty savepoint and next frame last_commited+1, not committed; the id counter grows by one, wrapping at 2^64, so ids increase until it wraps; the WAL stays valid |
| `SharedWal.SharedWal.ReadFromSegments` | libsql-wal/src/shared_wal.rs:143-157 | the scan's result is `SearchSegments` over the segments, newest first |
| `SharedWal.SearchNeverPanics` | libsql-wal/src/shared_wal.rs:143-157 | on segments sealed in order the scan never panics, and it finds nothing exactly when no segment has the page for the snapshot |
| `SharedWal.SearchFindsNewest` | libsql-wal/src/shared_wal.rs:143-157 | the scan returns the page of the newest segment that has it for the snapshot |
| `SharedWal.OutOfOrderPanics` | libsql-wal/src/shared_wal.rs:145-149 | a newest segment that misses the page and does not commit after the next one makes the scan panic |
| `SharedWal.SegmentPagesFull` | libsql-wal/src/shared_wal.rs:150 | a page found in a segment is a full 4096-byte page |
| `SharedWal.Checked` | libsql-wal/src/shared_wal.rs:138-140 | the read passes exactly when the frame number in the page's last 8 bytes is within the snapshot, otherwise panics |
| `SharedWal.SharedWal.ReadFrame` | libsql-wal/src/shared_wal.rs:119-141 | the page comes from the current log if it has it, else from the newest segment that has it, else from the database file; page 0, whose file offset `(0 - 1) * 4096` underflows, and a page missing from the file panic; the snapshot check applies in each case |
| `SharedWal.QuiescentPrefix` | libsql-wal/src/shared_wal.rs:183 | the longest prefix of segments no reader holds |
| `SharedWal.UnionKeysHeld` | libsql-wal/src/shared_wal.rs:192-193 | the union of the segment indexes holds exactly the pages some segment holds |
| `SharedWal.Newest` | libsql-wal/src/shared_wal.rs:195 | the newest segment holding the page, with no later segment holding it |
| `SharedWal.Winner` | libsql-wal/src/shared_wal.rs:195-198 | the page written for a page number is a full page |
| `SharedWal.Winners` | libsql-wal/src/shared_wal.rs:192-199 | every page of the union, and only those, gets a full page |
| `SharedWal.SharedWal.WritePage` | libsql-wal/src/shared_wal.rs:198 | one page of the database file is overwritten, the others kept |
| `SharedWal.SharedWal.WritePages` | libsql-wal/src/shared_wal.rs:193-199 | each winning page is written into the file, every other page is kept |
| `SharedWal.SharedWal.Checkpoint` | libsql-wal/src/shared_wal.rs:181-215 | panics, changing nothing, exactly when the quiescent prefix holds page 0, whose file offset `(page_no - 1) * 4096` underflows at shared_wal.rs:198 (the union yields it first); otherwise nothing happens if the oldest segment has a reader, and else the quiescent prefix is folded into the file, each page taking the frame of the newest of those segments holding it, and exactly those segments are removed, the rest keeping their order |
| `SharedWal.SharedWal.InsertFrames` | libsql-wal/src/shared_wal.rs:160-179 | the current log, its index and the transaction change exactly as `WalLog.Log.InsertPages` states (panics, frames, savepoint, counters, header, index, commit flag, numbering, readers and seal), with size_after 0 meaning no commit; after a successful insertion, more than 10 segments trigger a checkpoint, whose page-0 panic becomes the call's, otherwise segments and file are unchanged |
| `Stats.NewTopQuery` | libsql-server/src/stats.rs:27-34 | the record carries the rows read, the rows written and the text |
| `Stats.NewTopQueryRanksByRows` | libsql-server/src/stats.rs:17-34 | a query that touched fewer rows in total ranks strictly below, since the weight is rows read plus rows written and compares first |
| `Stats.NewQueryStats` | libsql-server/src/stats.rs:65-72 | a single execution counts once |
| `Stats.QueryStats.Merge` | libsql-server/src/stats.rs:73-80 | the counts add up |
| `Stats.MergeCommutes` | libsql-server/src/stats.rs:73-80 | merging is commutative |
| `Stats.MergeAssociates` | libsql-server/src/stats.rs:73-80 | merging is associative |
| `Stats.AggregateCounts` | libsql-server/src/stats.rs:100-104 | aggregating n single executions counts n and sums their running times |
| `Stats.TopLessIsStrictTotal` | libsql-server/src/stats.rs:17-24 | the derived order of top queries is a strict total order |
| `Stats.SlowLessIsStrictTotal` | libsql-server/src/stats.rs:37-43 | the derived order of slowest queries is a strict total order |
| `Stats.EntryLessIsStrictTotal` | libsql-server/src/stats.rs:116-117 | the order the aggregates are sorted in is a strict total order |
| `Stats.InsertAscending` | libsql-server/src/stats.rs:371 | inserting into an ordered set keeps it ordered, adds exactly the new element, and leaves the set as it was when the element is present |
| `Stats.CappedKeeps` | libsql-server/src/stats.rs:371-376 | a capped insertion stays ordered and within the cap; on overflow it drops exactly the least of the old elements and the new one |
| `Stats.Aggregated` | libsql-server/src/stats.rs:101-104 | a new statement's aggregate is the execution itself; a known one's adds count and running time to what was stored |
| `Stats.KeptCount` | libsql-server/src/stats.rs:123-125 | removing the first n sorted entries leaves as many statements as later entries |
| `Stats.KeptAreLater` | libsql-server/src/stats.rs:123-125 | the survivors are exactly the statements of the later entries |
| `Stats.FirstSurvivorLeast` | libsql-server/src/stats.rs:127-128 | every survivor runs at least as long as the new threshold |
| `Stats.DroppedBelowKept` | libsql-server/src/stats.rs:116-125 | every evicted entry sorts below every survivor |
| `Stats.EvictsLeast` | libsql-server/src/stats.rs:116-128 | cutting the sorted entries to the last 30 evicts the least ones, with the least survivor's running time as the threshold |
| `Stats.RegisteredByEviction` | libsql-server/src/stats.rs:100-129 | a new statement that takes the map past 30 entries is registered by such an eviction |
| `Stats.EvictionRegisters` | libsql-server/src/stats.rs:100-129 | cutting the sorted listing to the last 30 entries is a registration and leaves exactly 30 |
| `Stats.QueriesStats.constructor` | libsql-server/src/stats.rs:93-98 | no aggregates and a zero threshold |
| `Stats.QueriesStats.SortedEntries` | libsql-server/src/stats.rs:116-117 | the entries of the map, one per statement, in ascending order |
| `Stats.QueriesStats.KeepLast` | libsql-server/src/stats.rs:123-128 | removes the statements of all but the last 30 entries and sets the threshold to the running time of the first one kept |
| `Stats.QueriesStats.EvictLeast` | libsql-server/src/stats.rs:112-128 | once a new statement has taken the map past 30 entries, the sort and cut leave exactly 30 as `Registered` states |
| `Stats.QueriesStats.RegisterQuery` | libsql-server/src/stats.rs:100-129 | an aggregate below the threshold leaves the map unchanged; otherwise it is stored, and a new statement beyond 30 entries evicts the least ones and raises the threshold; a map of at most 30 entries stays so |
| `Stats.Stats.constructor` | libsql-server/src/stats.rs:149-185 | all counters and thresholds zero, both ranked sets and the aggregates empty |
| `Stats.Stats.IncRowsWritten` | libsql-server/src/stats.rs:277-280 | rows written grow by n, wrapping at 2^64 |
| `Stats.Stats.IncQuery` | libsql-server/src/stats.rs:282-287 | the query count grows by one and the latency by the running time, wrapping at 2^64 |
| `Stats.Stats.IncRowsRead` | libsql-server/src/stats.rs:290-293 | rows read grow by n, wrapping at 2^64 |
| `Stats.Stats.SetStorageBytesUsed` | libsql-server/src/stats.rs:295-298 | the gauge takes the new value |
| `Stats.Stats.IncWriteRequestsDelegated` | libsql-server/src/stats.rs:316-320 | the counter grows by one, wrapping at 2^64 |
| `Stats.Stats.IncEmbeddedReplicaFramesReplicated` | libsql-server/src/stats.rs:323-327 | the counter grows by one, wrapping at 2^64 |
| `Stats.Stats.SetCurrentFrameNo` | libsql-server/src/stats.rs:338-341 | the current frame number takes the new value |
| `Stats.Stats.AddTopQuery` | libsql-server/src/stats.rs:363-377 | the set takes the query, capped at 10 by dropping the least; on overflow the threshold becomes the least kept weight; a qualifying query keeps the set ordered, within 10 and above the threshold |
| `Stats.Stats.AddSlowestQuery` | libsql-server/src/stats.rs:392-403 | the same for the slowest queries, ranked by running time |
| `Stats.Stats.ResetTopQueries` | libsql-server/src/stats.rs:387-390 | the set is emptied and the threshold zeroed |
| `Stats.Stats.ResetSlowestQueries` | libsql-server/src/stats.rs:413-416 | the set is emptied and the threshold zeroed |
| `Stats.Stats.CountStatement` | libsql-server/src/stats.rs:250-252 | rows read, rows written, query count and latency grow by the statement's figures |
| `Stats.Stats.RankQuery` | libsql-server/src/stats.rs:257-271 | each ranked set takes the query exactly when it qualifies (its value reaches the threshold), and both sets stay valid; a threshold becomes the least kept value when the set overflows 10, otherwise it is unchanged |
| `Stats.Stats.Update` | libsql-server/src/stats.rs:218-274 | a statement that touched no row counts as reading one; the counters grow by the adjusted figures, the aggregates register the execution, the ranked sets take it when it qualifies, their thresholds move as `RankQuery` states, and the other counters are unchanged |
| `Stats.CountedRowsRead` | libsql-server/src/stats.rs:225-229 | the rows read as given, except one when nothing was read or written |

## Left out

- Elements are handled as 32-bit patterns. Float arithmetic is not modelled:
  - `vectorF32DistanceCos` and `vectorDistanceCos` are the parameter `dist`.
  - `sqlite3AtoF` with its narrowing to `float` is the parameter `atof`.
  - `formatF32` with `isInteger` is the parameter `fmt`, of which only the length bound of its 32-character buffer is assumed.
  - `RenderParses` and `ExtractThenVector` hold for a formatter whose output `atof` reads back (`Compatible`).
- Vector.RenderParses: holds only under `Compatible`, which the real `formatF32` (vectorfloat32.c:51-59) does not meet. `%.6e` keeps 7 significant digits where a float needs 9, and a negative integral value goes through a `(u64)` cast. Beyond the empty vector, `vector(vector_extract(X)) == vector(X)` holds only for values that survive that formatting. `ExtractEmptyThenVector` proves the empty case for every formatter.
- Vector.ExtractThenVector: holds only under `Compatible`, for the same reason.
- The FLOAT64 branches (`vectorF64*`) are modelled only as far as `vectorDataSize` goes. vectorfloat64.c is not part of this model. Callers are required to pass FLOAT32 vectors, which is what the three SQL functions allocate.
- `MAX_VECTOR_SZ` is taken as 16000. vectorInt.h, which defines it, is not part of this model. The proofs only need it to be positive.
- Memory exhaustion is not modelled:
  - `sqlite3_malloc`/`contextMalloc` returning NULL;
  - `sqlite3_value_text` returning NULL (vector.c:157).

  `Vector.Alloc` always succeeds.
- `Vector.ParseVectorDims`: does not model the 32-bit `int` overflow of `dims*10` for more than nine digits, because the result is an unbounded integer.
- The vector index functions (vector.c:368-466) and `vectorDump`/`vectorF32Dump` are not modelled. They call the index implementation and print, and neither is part of this model.
- Random numbers are oracles. `np.random.uniform` and `np.random.randint` are indexed by call number, and `str` on floats is an oracle too.
  - Printed lines are `Line` values, and `Render` gives their text.
  - `int()` is modelled as an optional sign followed by decimal digits. Python's `int()` also accepts surrounding whitespace and underscores.
- Real file I/O and the on-disk formats are not modelled:
  - `write_at_vectored`, `read_exact_at`, `sync_all` and file removal are left out.
  - The `fst` map encoding is left out.
  - Files are maps from frame offset to frame, and the database file is a map from page number to page.
- I/O errors returned with `?` are not modelled.
- `merge_savepoints` is the parameter `merge` of `WalLog.Log.InsertPages`. `merge_savepoints` is not part of this model: transaction.rs does not define it.
- `SealedLog::open` and `recover` are not modelled (`recover` is `todo!` for a non-empty log). `WalLog.Log.Seal` builds the sealed log directly from the header, the merged index and the frames.
- `find_frame_offset` is not part of this model: transaction.rs does not define it. `WalLog.Log.FindFrame` takes its answer as the parameter `fromTx`.
- `read_page_offset` (log.rs:321-327) is not modelled: it is file I/O. `SharedWal.SharedWal.ReadFrame` takes the current log's answer as the parameter `fromLog`.
- WalLog.Log.InsertPages: requires that `next_frame_no` and `next_offset` do not pass 2^64 and 2^32. It does not model the overflow of `tx.next_frame_no += 1` and `tx.next_offset += 1` (log.rs:253-256), which panics in a debug build and wraps in a release build.
- Vector.ParseText: counts an element text's length in characters, where vector.c:176-178 counts bytes of UTF-8. An element of 513 to 1024 characters, some of which take more than one byte, is refused as too long by the source but reaches the number check in the model.
- WalTransaction.WriteTransaction.IndexIter: returns a map, so it does not model the ascending page order in which the fst union (transaction.rs:137-150) yields its pairs.
- `frames_in_log` is the parameter `framesInLog` of `SharedWal.SharedWal.Upgrade`. log.rs has no such function.
- Concurrency is read single-threaded:
  - `begin_read`'s retry loop is left out.
  - Parking on a held lock is the outcome `MustWait`; the waiter queue and `Parker`/`Unparker` are left out.
  - `ArcSwap`, `registry.swap_current` (the segment registry is not part of this model) and the read-lock atomics are left out.
  - Waiter stealing and `reserved` in `downgrade` are left out.
- Page 1's header trace in `read_frame` is not modelled; it only logs.
- Sealed logs' read-lock counts are plain numbers.
- `Stats::new` and the stats persistence task (reading and writing `stats.json`, UUIDs) are not modelled. Neither are the `metrics` and `tracing` macros, `update_query_metrics`, `mem_used` or the 512-character log truncation.
- Getters that return a field are not modelled. `qualifies_as_*` are functions used in `RankQuery`'s contract.
- `Stats.Stats.Update`: takes the running time in milliseconds, not a `Duration`, and the weight `rows_read + rows_written` is unbounded where Rust's `u64` addition would overflow.
- `Stats.QueryStats.Merge`: adds without 64-bit overflow.
- `Stats.QueriesStats.RegisterQuery`: among aggregates with equal statistics, the source evicts in the iteration order of a `HashMap`, which is unspecified. The model breaks such ties by statement text.

## Findings

| source | as written | input that shows it | evidently intended | confidence | as-written member | corrected member |
|---|---|---|---|---|---|---|
| libsql-sqlite3/src/vectorfloat32.c:155 | `bufIdx--` always steps back over the last comma, so a vector with no elements overwrites the `[` and renders as `]` | `vector_extract('[]')`: the text parser accepts `[]` as 0 elements, the renderer yields `]`, and `vector(']')` is refused for lacking `[` | step back only when an element was written, so that 0 elements render as `[]` | not executed | `VectorF32.DeserializeAsWritten`, `Vector.EmptyExtractAsWritten` | `VectorF32.Deserialize`, `Vector.VectorExtractFunc`, `Vector.ExtractEmptyThenVector`, `Vector.RenderParses` |
| libsql-wal/src/log.rs:158 | `Log::create` builds its page index with `LogIndex::default()`, whose `start_frame_no` is 0, so `locate` compares the bare offset with the snapshot | a log starting at frame 1 with page 1 at offsets 0 and 1 (frames 1 and 2); a reader whose snapshot ends at frame 1 locates offset 1, frame 2 | start the index at the log's first frame, so `start_frame_no + offset` is the frame number | not executed | `WalLog.LogIndex.Default`, `WalLog.DefaultIndexSeesNewerFrame` | `WalLog.Log.Create`, `WalLog.WrittenNumbered`, `WalLog.LocateWithinSnapshot`, `WalLog.Log.FindFrame` |
