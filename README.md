# proglog commit log in Dafny

This project models the storage engine of proglog. proglog is a distributed commit log written in Go. The model covers two things.

The first is the segmented log under `internal/log`:

- **store**: an append-only file of length-prefixed records, written through a buffer.
- **index**: a memory-mapped file of fixed-width entries. Each entry is a relative offset (uint32) and a store position (uint64).
- **segment**: one store plus one index, covering the offsets `[baseOffset, nextOffset)`.
- **log**: an ordered list of segments, of which the last one is active.

The second is the in-memory log of the HTTP service (`internal/server/loghttp/log.go`).

The Go implementation files of `internal/log` are not part of this model. The behaviour modelled is the one their tests demand, together with these rules:

- big-endian encodings;
- `lenWidth = 8`, `offWidth = 4`, `posWidth = 8`, `entWidth = 12`;
- a segment's `nextOffset` is recovered from the last index entry;
- a segment rolls over by opening a new one at `nextOffset` once it is maxed, that is once its store has reached its limit or its index has no room for another entry (see Findings);
- truncation removes every segment whose `nextOffset` is at most `lowest + 1`;
- the replay reader yields every store's bytes in segment order.

Zero limits take a default in `NewLog`. The tests need a positive index default, because they append with `MaxIndexBytes` left at zero. They do not fix its value: 1024 is the value this model assumes (under the corrected maxed rule any default of at least 12 bytes would serve the tests).

Files:

- `bytes.dfy`: bytes and big-endian uint32/uint64 encoding.
- `records.dfy`: records, errors, configuration, and a record encoding.
- `store.dfy`, `index.dfy`, `segment.dfy`: the store, index and segment classes, with pure functions that state what they hold.
- `logspec.dfy`: the log as a list of segment values (`SegView`), with its invariant, lookup, append, rollover and truncation, and the lemmas about them.
- `log.dfy`: the `Log` class over real `Segment` objects, proved against `logspec.dfy`.
- `memlog.dfy`: the HTTP service's in-memory log.
- `scenarios.dfy`: the log tests' scenarios, proved against the model.

Each class keeps its state in fields and changes it in methods whose `modifies` clauses name it. The log keeps ghost `Views` and `Stores`, which tie its segment objects to the values of `logspec.dfy`. Every method is specified by those values.

## Model

| member | source | states |
|---|---|---|
| Bytes.DecodeEncode | internal/log/store_test.go:117 | decoding the w-byte big-endian encoding of n gives n back |
| Bytes.EncodeDecode | internal/log/store_test.go:117 | every w-byte string is the encoding of the number it decodes to, which is below 256^w |
| Bytes.DecodeBound | internal/log/store_test.go:117 | w bytes decode to a number below 256^w |
| Bytes.PutUint64 | internal/log/store_test.go:117 | a uint64 is written as 8 bytes |
| Bytes.PutUint32 | internal/log/index_test.go:34-40 | a uint32 is written as 4 bytes |
| Bytes.Uint64RoundTrip | internal/log/store_test.go:117 | `enc.Uint64` inverts `enc.PutUint64` on every uint64 |
| Bytes.Uint32RoundTrip | internal/log/index_test.go:34-40 | `enc.Uint32` inverts `enc.PutUint32` on every uint32, the width of an index entry's offset |
| Bytes.Uint64Bound | internal/log/store_test.go:117 | any 8 bytes decode to a uint64 whose encoding is those bytes |
| Bytes.Uint32Bound | internal/log/index_test.go:34-40 | any 4 bytes decode to a uint32 whose encoding is those bytes |
| Records.UnmarshalMarshal | internal/log/log_test.go:106-114 | a record's binary form decodes to the same record, value and offset |
| Records.MarshalInjective | internal/log/log_test.go:106-114 | distinct records have distinct binary forms |
| Records.Unmarshal | internal/log/log_test.go:106-110 | decoding fails exactly on input shorter than the offset field; a decoded value has the remaining length |
| StoreFile.Frame | internal/log/store_test.go:11 | an append writes lenWidth + len(p) bytes, and the payload follows the prefix |
| StoreFile.Store.constructor | internal/log/store_test.go:21-24 | a store opened over an existing file keeps its bytes, with nothing buffered, and its size is the file's length |
| StoreFile.Store.Append | internal/log/store_test.go:78-87 | returns n = lenWidth + len(p) and the old size as pos; what the store reads grows by exactly the frame of p |
| StoreFile.Store.Flush | internal/log/store_test.go:55-72 | the buffered bytes move to the file and nothing else changes |
| StoreFile.Store.Read | internal/log/store_test.go:90-105 | flushes, then returns the entry at pos in what the store held, or EOF past its end |
| StoreFile.Store.ReadAt | internal/log/store_test.go:107-129 | flushes, then returns the raw bytes at off, up to length; EOF exactly when fewer bytes remain; an error for a negative offset |
| StoreFile.Store.Close | internal/log/store_test.go:60-72 | flushes; the file is then longer than before whenever bytes were buffered |
| StoreFile.EntryAtExtend | internal/log/store_test.go:26-34 | appending bytes never changes what an existing entry reads as |
| StoreFile.EntryAtFrame | internal/log/store_test.go:26-27 | the entry an append writes reads back, at the returned position, as its payload |
| StoreFile.UniformPositions | internal/log/store_test.go:78-87 | with payloads all of length L, the k-th append's position is k * (L + lenWidth), so n + pos == width * i |
| StoreFile.PositionNext | internal/log/store_test.go:103 | each entry starts where the previous one ends |
| StoreFile.FramedRead | internal/log/store_test.go:90-105 | reading at the k-th returned position gives the k-th payload |
| StoreFile.FramedLayout | internal/log/store_test.go:107-129 | at the k-th position, 8 prefix bytes decode to the payload length, the payload follows, and the next entry starts right after it |
| StoreFile.PrefixExtend | internal/log/store_test.go:30-34 | an entry read from a prefix of the bytes reads the same from all of them |
| StoreFile.EntryAtParts | internal/log/store_test.go:107-129 | a successful read at pos means the 8 bytes there give the payload length and the payload follows them |
| StoreFile.FramedPrefix | internal/log/store_test.go:30-34 | the bytes of the first k appends are a prefix of those of all appends |
| StoreFile.FramedConcat | internal/log/log_test.go:100-104 | the frames of two runs of appends concatenate |
| StoreFile.UnframeFramed | internal/log/log_test.go:100-114 | replaying a store's bytes gives back every payload, in append order |
| StoreFile.UnframeConcat | internal/log/log_test.go:100-114 | replaying two stores one after the other gives the first's payloads and then the second's |
| IndexFile.EncodeEntry | internal/log/index_test.go:44 | an entry is written as entWidth = 12 bytes |
| IndexFile.DecodeEntry | internal/log/index_test.go:34-40 | any 12 bytes decode to an entry whose offset fits a uint32 and whose position fits a uint64 |
| IndexFile.DecodeEntries | internal/log/index_test.go:72-84 | a used region of n bytes holds n / 12 entries |
| IndexFile.EncodeEntries | internal/log/index_test.go:63-65 | a list of entries is written as 12 bytes per entry |
| IndexFile.DecodeEncodeEntry | internal/log/index_test.go:42-56 | a written entry decodes back to the same offset and position |
| IndexFile.DecodeEntriesAppend | internal/log/index_test.go:42-56 | writing one more entry adds exactly that entry at the end of the decoded entries |
| IndexFile.DecodeEntriesAt | internal/log/index_test.go:49-55 | entry k decodes from the 12 bytes at k * entWidth |
| IndexFile.DecodeEncodeEntries | internal/log/index_test.go:63-84 | the bytes written for a list of entries decode back to that list |
| IndexFile.Index.constructor | internal/log/index_test.go:20-32 | the region is grown to MaxIndexBytes, the used size is the file's length, its bytes and entries are kept, and the name is the file's |
| IndexFile.Index.Write | internal/log/index_test.go:42-48 | fails with EOF, changing nothing, when one more entry does not fit; otherwise appends exactly Entry(off, pos) and advances the size by 12 |
| IndexFile.Capacity | internal/log/index_test.go:42-48 | the number of whole 12-byte entries an index region of the given size holds: 12 times it fits the size, 12 times one more does not |
| IndexFile.Index.Read | internal/log/index_test.go:25-61 | answers with the entry the ordinal names; -1 names the last entry; EOF for an empty index, any other negative ordinal, or an ordinal past the end |
| IndexFile.Index.Close | internal/log/index_test.go:63-84 | what persists is the used region, a whole number of entries that decodes to exactly the written entries and is exactly their encoding |
| IndexFile.EncodeDecodeEntry | internal/log/index_test.go:34-40 | any 12 bytes are the encoding of the entry they decode to |
| IndexFile.DecodedFit | internal/log/index_test.go:34-40 | every decoded entry's offset fits a uint32 and its position a uint64 |
| IndexFile.EncodeDecodeEntries | internal/log/index_test.go:63-84 | a used region of whole entries is exactly the encoding of the entries it decodes to |
| Segments.DescribesExtend | internal/log/segment_test.go:41-58 | extra store bytes keep every described record readable |
| Segments.DescribesAppend | internal/log/segment_test.go:41-58 | after a record's frame goes to the store and its entry to the index, the files describe one more record |
| Segments.PersistedEmpty | internal/log/segment_test.go:92-99 | absent files hold no records, whatever the base |
| Segments.RecoveredLast | internal/log/segment_test.go:78-85 | on reopening, the last index entry's relative offset is one less than the number of records |
| Segments.Decimal | internal/log/segment_test.go:28 | the base offset is written in decimal digits in the file names |
| Segments.ParseDecimalRoundTrip | internal/log/segment_test.go:78 | a file name's base offset parses back to that base |
| Segments.ToInt64 | internal/log/segment_test.go:51 | the int64 reinterpretation of a uint64 difference lies in int64 range, is the identity there, and agrees modulo 2^64 |
| Segments.Segment.constructor | internal/log/segment_test.go:28-39 | a segment over persisted files holds their records, and nextOffset is base plus the record count, so 16 for fresh files; maxed exactly when the store file is at its limit or the index file has no room for one more entry |
| Segments.Segment.IsMaxed | internal/log/segment_test.go:37-68 | with one index entry per record, a segment is maxed exactly when its store has reached `MaxStoreBytes` or its records fill every whole entry `MaxIndexBytes` holds; this is the corrected rule of the Findings row; under it the three entries of segment_test.go:61-68 fill a 36-byte index, so that segment is maxed |
| Segments.Segment.Append | internal/log/segment_test.go:41-49 | succeeds exactly when the index has room; then returns the old nextOffset and adds the record with that offset; otherwise EOF and no record; the store takes the frame in both cases |
| Segments.Segment.Read | internal/log/segment_test.go:51-58 | with rel = int64(off - base) in uint64 arithmetic: 0 <= rel < count reads record rel, so every offset in [base, nextOffset) reads its record; rel = -1 reads the last record (EOF when empty), which off = base - 1 reaches; any other rel gives EOF |
| Segments.Segment.Close | internal/log/segment_test.go:73-76 | the files left on disk hold exactly the segment's records, and the index file fits the limit |
| Segments.Segment.Remove | internal/log/segment_test.go:87-90 | the segment's files are deleted from the directory: its base is no longer a key and every other key keeps its files; the deleted files held exactly the segment's records |
| Segments.Recreate | internal/log/segment_test.go:92-99 | a segment created where the directory has no files under its base holds no records, has nextOffset equal to its base, and is not maxed exactly when the store limit is positive and the index limit holds an entry |
| Segments.RemoveThenReopen | internal/log/segment_test.go:87-99 | after Remove, newSegment at the same base starts over empty at that base and, with limits that leave room, is not maxed |
| Segments.Segment.AppendFrame | internal/log/segment_test.go:41-49 | the store half of an append: the frame goes to the end of the store, at the old store length, and the segment still describes its records |
| Segments.Segment.AppendEntry | internal/log/segment_test.go:41-49 | the index half of an append: EOF, changing no record, when the index has no room; otherwise the record is added and its offset returned |
| LogSpec.WellFormedTail | internal/log/log_test.go:135-166 | dropping the first segment keeps the log's invariant |
| LogSpec.FlattenOffsets | internal/log/log_test.go:152-166 | the log holds the offsets LowestOffset .. nextOffset-1, each record at its own place |
| LogSpec.LookupSpec | internal/log/log_test.go:117-133 | a read succeeds exactly for Lowest <= off < NextOffset, with the record carrying off; otherwise the error is OffsetOutOfRange naming off |
| LogSpec.AppendRecord | internal/log/log_test.go:40-58 | the number of segments stays the same |
| LogSpec.Roll | internal/log/log_test.go:60-72 | a rollover adds exactly one segment |
| LogSpec.FlattenSnoc | internal/log/log_test.go:100-104 | a segment added at the end contributes its records after all earlier ones |
| LogSpec.FlattenLast | internal/log/log_test.go:100-104 | the records are those before the active segment followed by the active segment's |
| LogSpec.AppendRecordSpec | internal/log/log_test.go:40-58 | an append keeps the invariant, adds exactly the record with offset NextOffset, advances NextOffset by one and keeps LowestOffset |
| LogSpec.AppendRecordFlatten | internal/log/log_test.go:40-58 | an append adds exactly one record at the end of the log |
| LogSpec.SnocRecord | internal/log/log_test.go:40-58 | a record added to the active segment comes after every record |
| LogSpec.AppendRecordWellFormed | internal/log/log_test.go:40-58 | an append keeps the invariant |
| LogSpec.RollSpec | internal/log/log_test.go:60-72 | a rollover keeps the invariant, the records, NextOffset and LowestOffset |
| LogSpec.Truncated | internal/log/log_test.go:73-76 | truncation never adds segments |
| LogSpec.NextOrdered | internal/log/log_test.go:60-84 | segments end in ascending order |
| LogSpec.BasesIncreasing | internal/log/log_test.go:168-171 | base offsets strictly ascend, so no two segments share file names |
| LogSpec.TruncatedKeepsAll | internal/log/log_test.go:73-76 | once one segment is kept, all later ones are too |
| LogSpec.TruncatedSpec | internal/log/log_test.go:73-84 | truncation keeps a well-formed suffix, drops only segments ending at or below lowest + 1, and keeps NextOffset |
| LogSpec.TruncatedSuffix | internal/log/log_test.go:73-84 | what truncation drops is a prefix of segments ending at or below lowest + 1 |
| LogSpec.WellFormedSuffix | internal/log/log_test.go:73-84 | every suffix of the segments is well formed and keeps NextOffset |
| LogSpec.LookupTail | internal/log/log_test.go:78-81 | a record found after the first segment is found in the whole log at the same offset |
| LogSpec.TruncatedReadsOld | internal/log/log_test.go:78-81 | truncation makes no new record appear |
| LogSpec.TruncatedKeepsAbove | internal/log/log_test.go:73-84 | after truncation, every offset above lowest reads as it did before |
| LogSpec.TruncatedKept | internal/log/log_test.go:73-76 | every kept segment ends above lowest + 1 |
| LogSpec.TruncatedForgets | internal/log/log_test.go:78-81 | any offset of a dropped segment reads as OffsetOutOfRange after truncation |
| CommitLog.Defaulted | internal/log/log_test.go:28-30 | zero limits become positive defaults; non-zero limits and the initial offset are kept |
| CommitLog.HasMin | internal/log/log_test.go:168-171 | a non-empty set of base offsets has a least element |
| CommitLog.SameHead | internal/log/log_test.go:168-171 | two ascending lists with the same elements start alike |
| CommitLog.SameTailElement | internal/log/log_test.go:168-171 | an element after the head of one such list is after the head of the other |
| CommitLog.SameAscending | internal/log/log_test.go:168-171 | two ascending lists with the same elements are equal, so the order segments are reopened in is unique |
| CommitLog.SortedBases | internal/log/log_test.go:168-171 | the directory's base offsets, each once, in strictly ascending order |
| CommitLog.BasesOfViews | internal/log/log_test.go:168-171 | the sorted bases of a directory holding a log are that log's segment bases, in order |
| CommitLog.AppendBytes | internal/log/log_test.go:91-104 | only the active store changes |
| CommitLog.ConcatAppendBytes | internal/log/log_test.go:91-104 | bytes written to the active store extend the replay stream by exactly those bytes, also after a rollover |
| CommitLog.AppendStepWellFormed | internal/log/log_test.go:60-72 | an append keeps the log's invariant |
| CommitLog.AppendStepSpec | internal/log/log_test.go:40-58 | an append succeeds exactly when the active index has room; it then returns NextOffset and adds exactly that record, whether it rolls over or not; a failed one is EOF and adds none; either way the replay stream grows by the record's frame |
| CommitLog.AppendStep | internal/log/log_test.go:40-58 | `Log.Append` as a value: it succeeds exactly when the active segment holds fewer records than its index capacity, with NextOffset as the result; a failure is EOF and keeps the segments; it adds a segment exactly when it succeeds and the active segment is then maxed under Maxed; stores and segments stay in step |
| CommitLog.AppendThenRead | internal/log/log_test.go:45-57 | after an append, the returned offset reads the appended record and every other offset reads as before |
| CommitLog.Marshals | internal/log/log_test.go:100-114 | one binary form per record, each fit to frame |
| CommitLog.Maxed | internal/log/segment_test.go:61-68 | the rule the log rolls over by: maxed exactly when the store length has reached its limit or the entries fill the index's whole-entry capacity (the corrected rule of the Findings row) |
| CommitLog.MaxedAsWritten | internal/log/segment_test.go:61-68 | the rule as written: with a limit that is a whole number of entries it is the same as Maxed; with any other limit (1024, say) the index counts as full only at one entry more than it can hold, which no append reaches |
| CommitLog.MaxedAgrees | internal/log/segment_test.go:61-68 | "no room for another entry" and "used size reached the limit" agree when the index limit is a whole number of entries, or when the index still has room for the next entry, which covers every state the tests reach |
| CommitLog.MaxedDiffer | internal/log/segment_test.go:61-68 | the two rules disagree exactly when the store is below its limit and the used index size is above the limit less one entry but below the limit (85 entries for 1024 bytes) |
| CommitLog.AppendStepAsWritten | internal/log/segment_test.go:61-68 | the as-written half of the Findings row: the same append, except that a segment is added only when MaxedAsWritten holds after it |
| CommitLog.NoRolloverAt85AsWritten | internal/log/log_test.go:28-30 | as written, with the index limit left at its default of 1024, the 85th record of a segment is added without a rollover while the store is below its limit |
| CommitLog.AppendStallsAsWritten | internal/log/log_test.go:28-30 | as written, a segment with 85 records under the default index limit is not maxed, yet every append fails with EOF and leaves the segments unchanged, so the log never rolls over again |
| CommitLog.AppendKeepsRoom | internal/log/segment_test.go:61-68 | with the corrected rule and an index limit of at least one entry, an append to a log whose active index has room succeeds with NextOffset and leaves an active index with room |
| CommitLog.AppendStepClean | internal/log/log_test.go:91-104 | a successful append keeps every store exactly the frames of its segment's records |
| CommitLog.MarshalsConcat | internal/log/log_test.go:100-114 | the binary forms of two runs of records concatenate |
| CommitLog.ReplayClean | internal/log/log_test.go:100-114 | replaying the stores decodes to every record of the log, in offset order, across segment boundaries |
| CommitLog.ReadableRange | internal/log/log_test.go:152-166 | an offset is readable exactly when LowestOffset <= off <= HighestOffset |
| CommitLog.TruncatedAt | internal/log/log_test.go:73-76 | when the first d segments end at or below lowest + 1 and the next does not, truncation keeps the segments from d on |
| CommitLog.FamilySuffix | internal/log/log_test.go:73-76 | the segments left after dropping a prefix are still open over their views and stores |
| CommitLog.Extend | internal/log/log_test.go:60-72 | a segment opened over persisted files joins the open segments, with fresh objects of its own |
| CommitLog.StoresOf | internal/log/log_test.go:168-171 | one store per segment of the directory |
| CommitLog.StoresOfFiles | internal/log/log_test.go:168-171 | the stores of the given files, in order |
| CommitLog.OpenAll | internal/log/log_test.go:168-171 | opens one segment per file pair, in order, each over its own records |
| CommitLog.OpenSegments | internal/log/log_test.go:168-171 | the directory's segments are opened in ascending base order over the records they hold |
| CommitLog.OpenLog | internal/log/log_test.go:28-33 | an empty directory gives one empty segment at the initial offset; otherwise the directory's segments |
| CommitLog.AppendActive | internal/log/log_test.go:40-58 | the active segment's append, stated over the whole log: the record with offset NextOffset when the index has room, and the frame in every case |
| CommitLog.AppendToActive | internal/log/log_test.go:40-58 | the active segment's append as AppendRecord over the views and AppendBytes over the stores |
| CommitLog.AppendFamily | internal/log/log_test.go:60-72 | the log's append over its open segments is exactly AppendStep, including the rollover |
| CommitLog.Rollover | internal/log/log_test.go:60-72 | a new, empty segment at NextOffset becomes the active one |
| CommitLog.ReadFamily | internal/log/log_test.go:117-133 | the read over the open segments returns exactly Lookup |
| CommitLog.ReadSegment | internal/log/log_test.go:50-57 | the segment holding off returns its record |
| CommitLog.RemoveSegment | internal/log/log_test.go:73-76 | removing a segment deletes its base from the directory and drops files holding exactly its records; every segment stays as it was |
| CommitLog.DroppedBases | internal/log/log_test.go:73-76 | the bases of the first d segments, each of which is in the set |
| CommitLog.KeysAreBases | internal/log/log_test.go:168-171 | the directory's keys are exactly the bases of the segments it holds |
| CommitLog.DropStep | internal/log/log_test.go:73-76 | a segment to drop can only follow dropped ones, because segments end in ascending order |
| CommitLog.KeepStep | internal/log/log_test.go:73-76 | a kept segment extends the scanned prefix |
| CommitLog.TruncateVisit | internal/log/log_test.go:73-76 | a segment is removed exactly when its nextOffset is at most lowest + 1 |
| CommitLog.TruncateFamily | internal/log/log_test.go:73-76 | truncation removes a prefix of d segments ending at or below lowest + 1 and keeps the rest, in order |
| CommitLog.TruncateStep | internal/log/log_test.go:73-76 | one segment is dropped or kept, in order |
| CommitLog.ReadStore | internal/log/log_test.go:100-104 | a store read from position 0 gives its whole contents |
| CommitLog.ConcatPrefix | internal/log/log_test.go:100-104 | the stream over i + 1 stores extends the stream over i stores by store i |
| CommitLog.ReaderFamily | internal/log/log_test.go:100-104 | the stream is every store's bytes, in segment order |
| CommitLog.CloseSegment | internal/log/log_test.go:147-150 | a closed segment leaves files holding exactly its records and its store bytes |
| CommitLog.ClosedStep | internal/log/log_test.go:147-150 | closing the next segment adds its files under its own base, which no earlier segment has |
| CommitLog.ClosedAll | internal/log/log_test.go:147-150 | once every segment is closed, the directory holds exactly the log |
| CommitLog.CloseFamily | internal/log/log_test.go:147-150 | closing every segment in order leaves a directory holding exactly the log's segments and stores |
| CommitLog.Log.constructor | internal/log/log_test.go:28-33 | zero limits are defaulted; an empty directory gives one empty segment at the initial offset; otherwise the log holds the directory's segments and stores |
| CommitLog.Log.LowestOffset | internal/log/log_test.go:152-158 | the first segment's base |
| CommitLog.Log.HighestOffset | internal/log/log_test.go:160-166 | the active segment's nextOffset - 1, in uint64 arithmetic |
| CommitLog.Log.Read | internal/log/log_test.go:117-133 | returns exactly Lookup over the log's segments and changes none of them |
| CommitLog.Log.Install | internal/log/log_test.go:73-76 | the log takes the given open segments as its state |
| CommitLog.Log.Append | internal/log/log_test.go:40-58 | the new segments, stores and result are exactly AppendStep of the old ones |
| CommitLog.Log.Truncate | internal/log/log_test.go:73-84 | the segments become exactly Truncated of the old ones, a suffix of the old segment objects and stores; the directory loses exactly the bases of the dropped segments |
| CommitLog.Log.Reader | internal/log/log_test.go:100-104 | the stream is every store's bytes in segment order, and the log is unchanged |
| CommitLog.Log.Close | internal/log/log_test.go:147-150 | the directory left holds exactly the log's segments, each under its base offset with its store bytes |
| MemLog.Log.constructor | internal/server/loghttp/log.go:20-22 | a new log holds no records |
| MemLog.Log.Append | internal/server/loghttp/log.go:24-31 | the record is stamped with offset len(records) and added at the end; that offset is returned with no error |
| MemLog.Log.Read | internal/server/loghttp/log.go:33-41 | an offset not below len(records) gives the zero record and ErrOffsetNotFound, and exactly those offsets do; any other returns its record, which carries that offset |
| MemLog.AppendThenRead | internal/server/loghttp/log.go:24-41 | the returned offset reads the appended value, and earlier offsets read as before |
| Scenarios.OutOfRange | internal/log/log_test.go:117-133 | reading offset 1 of a fresh log fails with OffsetOutOfRange naming 1 |
| Scenarios.AppendReadReplay | internal/log/log_test.go:91-114 | the first append gets offset 0 and reads back; the replay starts with the length prefix, and the bytes after it decode to the record |
| Scenarios.FreshAppend | internal/log/log_test.go:91-114 | as a value, the first append to an empty segment at base 0 gets offset 0, reads back, and the replay stream is exactly its frame |
| Scenarios.ThreeAppends | internal/log/log_test.go:65-70 | under the model's record encoding, three appends of "hello world" with 32-byte stores give segments [0, 1] and [2] |
| Scenarios.FirstAppend | internal/log/log_test.go:65-70 | under the model's record encoding, the first frame takes 27 bytes and leaves the store below 32 bytes |
| Scenarios.SecondAppend | internal/log/log_test.go:65-70 | under the model's record encoding, the second frame brings the store to 54 bytes, which maxes it, and a segment at 2 becomes active |
| Scenarios.ThirdAppend | internal/log/log_test.go:65-70 | the third record goes to the new segment |
| Scenarios.HelloFrame | internal/log/log_test.go:61-63 | under the model's record encoding, a framed "hello world" record takes 27 bytes. A protobuf frame is shorter; the tests need only that one frame stays below 32 bytes and two do not |
| Scenarios.TestDefaults | internal/log/log_test.go:28-29 | the tests' configuration defaults the index limit only |
| Scenarios.TruncateOne | internal/log/log_test.go:73-76 | Truncate(1) drops the first segment |
| Scenarios.ReadAfterTruncate | internal/log/log_test.go:78-81 | after it, offset 0 is out of range and offset 2 is read |
| Scenarios.TruncateThree | internal/log/log_test.go:60-84 | after three appends and Truncate(1), Read(0) fails and Read(2) still succeeds, and the directory loses exactly the files of base 0 |
| Scenarios.Offsets | internal/log/log_test.go:152-166 | a log of the three records reports lowest 0 and highest 2 |
| Scenarios.Reopen | internal/log/log_test.go:168-171 | NewLog over the directory Close left recovers the same segments and stores |
| Scenarios.InitExisting | internal/log/log_test.go:135-187 | after three appends and Close, lowest and highest are 0 and 2, and a log reopened over the directory reports the same |

## Findings

| source | as written | input that shows it | evidently intended | confidence | as-written member | corrected member |
|---|---|---|---|---|---|---|
| internal/log/segment_test.go:61-68 | `IsMaxed` counts the index as full only once its used size reaches `MaxIndexBytes`, while `Append` fails with EOF as soon as one more 12-byte entry does not fit; with a limit that is not a multiple of 12 the index never makes the segment maxed, so unless the store limit is reached first, the 86th append and every later one fail with EOF and the log never rolls over again | `NewLog` with `MaxStoreBytes = 1 << 20` and `MaxIndexBytes = 1024`, set explicitly as segment_test.go:71 does, or left at 0 under the default this model assumes: 85 small appends fill 1020 index bytes with no rollover; the 86th append and every later one return EOF, each leaving an orphan frame in the store | a segment whose index has no room for another entry is maxed, so the log rolls over and appends keep succeeding | not executed; the Go implementation is not part of this model, and the rule taken as written is `store.size >= MaxStoreBytes` or `index.size >= MaxIndexBytes` | CommitLog.AppendStallsAsWritten | CommitLog.AppendKeepsRoom |

## Left out

- The Go implementations `store.go`, `index.go`, `segment.go` and `log.go` are not part of this model. The model follows their tests and the rules listed at the top.
- Records.Marshal: the protobuf encoding of `api.Record` is replaced by an injective binary form: the offset as eight big-endian bytes, then the value. The general lemmas rely only on its being decodable; the scenario layouts (Scenarios.HelloFrame, Scenarios.FirstAppend, Scenarios.SecondAppend, Scenarios.ThreeViews and Scenarios.ThreeAppends) use its frame length of 27 bytes, as their rows and doc comments state.
- File I/O is modelled as byte sequences, and a directory as a map from base offset to a segment's two files. Opening, `os.Remove`, `Truncate` of the index file and the mmap syscalls are left out, and so are the I/O errors they can return. A truncation can therefore not stop part-way.
- Locks (`sync.RWMutex` in both logs) and concurrency are not modelled. Every operation is one atomic step.
- The bufio writer's own flush threshold is not modelled: bytes stay buffered until `Read`, `ReadAt` or `Close` flushes them. In Go a full buffer is written out by itself, so before `Close` the file on disk (what `os.Stat` reports) can be longer than the model's file. The store's size, what reads return and the file after `Close` are the same.
- CommitLog.Log.Reader: returns the stream as one byte sequence. It does not model the lazy `io.MultiReader` over per-store `originReader`s and their chunked `ReadAt` calls.
- Segments.Segment.Append: Go sets `record.Offset = cur` through the caller's pointer, so the caller's record carries the assigned offset afterwards. The model passes the record by value and only returns the offset; that aliasing is not modelled. The same holds for CommitLog.Log.Append.
- CommitLog.Log.Append: requires NextOffset and the active store's size to stay below 2^64, and the encoded record to fit a uint64 length. uint64 overflow of offsets and positions is excluded, not modelled.
- CommitLog.Log.Truncate: requires lowest < 2^64 - 1, because `lowest + 1` would wrap in uint64.
- CommitLog.Log.Truncate: the log does not keep its directory between `NewLog` and `Close`. The directory is passed in as a ghost value, and what is left of it is handed back; the files written by appends are not tracked in it.
- CommitLog.Log.Truncate: removes whole segments only. Records at or below `lowest` in a kept segment stay readable. TruncatedForgets states what is forgotten: every offset of a dropped segment.
- CommitLog.Log.LowestOffset: requires a non-empty segment list. Truncation may remove every segment, and what the Go code does then is not modelled. The same holds for CommitLog.Log.HighestOffset and CommitLog.Log.Append.
- CommitLog.Log.constructor: requires a directory that holds a well-formed log, given as a ghost list of segment values. A directory with stray, corrupt or unparsable files is not modelled.
- CommitLog.Log.constructor: requires the index limit to be at most 12 * 2^32 bytes, so that every relative offset fits a uint32.
- CommitLog.Log.HighestOffset: computes the active segment's `nextOffset - 1` in uint64 arithmetic, so an empty log at offset 0 gives 2^64 - 1. That case is stated as it is, not treated as an error.
- Operations on a closed log or segment are not modelled. The objects stay valid after `Close`, and the tests only query offsets then.
- IndexFile.Index.constructor: requires the existing file to hold whole entries and to fit the limit.
- MemLog.Log.Append: requires fewer than 2^63 records, where Go's `len` would overflow.
- The HTTP handlers, the JSON encoding and the agent (`handler.go`, `http.go`, `agent.go`) are not part of this model.
