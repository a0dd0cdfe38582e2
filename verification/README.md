# A verified model of WebAnalyticsDB's storage and query engine

WebAnalyticsDB keeps rows in a segmented, append-only log. A single writer commits
groups of append requests as checksummed frames, rotates segments by day and size,
and replaces string fields by numbers from a dictionary that each segment defines
for itself. Retention retires whole segments. Readers take snapshots, scan them
through sparse indexes, page through them with cursors, share a cache of
dictionaries, and run grouped and bucketed aggregates.

This project models that engine in Dafny and proves what it is for. The modules
follow the system:

* **Formats.** `Bytes`, `Layout`, `Crc32c`, `Utf8`, `Frames`, `Segments`, `Logs`,
  `Manifests`, `Schemas`, `RowCodec`, `RowEncoder`, `Definitions`, `Indexes`,
  `IndexFiles`: byte formats with an if-and-only-if between bytes and values, in the
  form of a relation that the encoders and decoders are measured against.
* **Durability.** `History` says which frames may follow which. `Recovery` and
  `Reopen` are recovery, and `ScannedLogs` says of any files what recovery accepts.
  `Durability` is the protocol as a state machine whose steps are single file-system
  effects; `Images`, `CrashSafety` and `Runs` carry one invariant through every step
  and every run; `Visibility` takes the result to the readable segments; `BlockedRun`
  is a concrete run into the one state from which recovery fails. `Retention` is the
  in-memory directory with its counters.
* **Writing.** `Symbols`, `Probing`, `Dictionaries`, `Replay`: the interning
  dictionary and its replay. `SymbolRows`, `Commit`, `Ledgers`, `Appending`:
  committing a group, with the values that clients supplied kept as ghosts.
  `Histories` ties committed segments to the histories that recovery accepts, and
  `SealFailure` is a concrete commit. `Receipts`, `Writers`, `Ingestion`: splitting,
  receipts, the queue, and the writer that runs over all of them.
* **Reading.** `Items`, `Scans`, `Snapshots`, `Readers`, `Cursors`, `Caches`,
  `CacheLoads`, and `Pinning`, the interleaving of readers, writer and cleaner;
  `Delivered` says that what readers get is what clients supplied; `Positions` holds
  what `Pinning` and `Retention` share.
* **Queries.** `Values`, `Buckets`, `Reductions`, `Groups`, `Aggregation`,
  `Ordering`, and `Queries`, which puts filters, scan, grouping and order together.

Objects that the program updates in place are classes here (`Dictionary`, `Table`,
`Directory`, `Queue`, `Run`, `Cache`, `Readers`, `Database`, `Reader`, `Execution`),
buffers are arrays, and loops are loops. Hash functions are parameters, so the
results hold for every hash function. Clock readings, allocation failures, input and
output errors and the outcome of system calls are parameters of the call that meets
them.

Three results are about the program as it is and not as one might wish it:

* *A table can become unopenable without any corruption.* A segment created but
  never written is sealed, empty, when the day changes; retention never retires it;
  and once a later segment is retired, recovery counts sequence numbers from the
  watermark and refuses the empty segment (src/storage/segments.c:126 and 218,
  src/storage/retention.c:114). `BlockedExample` is such a run; `RecoveryIff` and
  `RestartIff` say that this is the only way: recovery succeeds exactly when the
  manifest lists no empty unretired segment before a retired one.
* *An append can be answered INDETERMINATE while the table stays writable*: when
  saving the index of the segment being sealed is what failed
  (src/storage/segments.c:33-36). `StaysWritable` commits one row and then one of
  the next day whose index save is uncertain, and ends in that state. It is the only
  way: by `CommitRequests` and `ReadOnlyIff`, a commit leaves a table read-only
  exactly when it was so before or the outcome is uncertain and that save is not what
  failed, that is, no segment had to be sealed or its index was saved.
* *An integer SUM fails when a prefix sum leaves the range*, even if the total
  would not: `SumFailsEarly` is such a column, and `SumIs` is an if-and-only-if about
  prefixes.

Verify with `dafny verify dfyconfig.toml` or with all `.dfy` files on one command
line.

## Model

| member | source | states |
|---|---|---|
| `Runs.CrashSafe` | src/storage/segments.c:30-424 | At every moment of every run of create, append, rotate, retire, configure, crash and restart steps: the committed frames are exactly those that were acknowledged and those that a crash rescued whole, in order; their rows are numbered 1, 2, 3 and so on; every acknowledged frame is among them at its numbers; and an open table shows exactly the rows beyond the retention watermark, in order |
| `Runs.LogIs` | src/storage/segments.c:359-413 | The committed log and the acknowledgements at any moment of a run, told from the steps taken so far: frames whose sync was heard of, and whole frames in flight at a crash |
| `Runs.CalmGrowth` | src/storage/segments.c:366-413 | Between crashes the log grows by exactly the frames acknowledged in that time |
| `Visibility.ReadersSee` | src/query/snapshot.c:9-37 | At every moment of every run at which the table is open, its readable segments are in the order that scans rely on and hold exactly the committed rows beyond the watermark, in order, none missing and none twice |
| `Runs.CrashLosesNothing` | src/storage/segments.c:366-382 | A crash keeps every committed frame; what it may add is nothing or the whole of the one frame in flight, never part of it |
| `Runs.RestartIff` | src/storage/segments.c:101-234 | In every run, a closed table can be reopened exactly when its manifest lists no empty unretired segment before a retired one |
| `Runs.RunGrows` | src/storage/segments.c:359-413 | Along a run committed frames stay committed in place and acknowledgements are never taken back |
| `Runs.StepKeeps` | src/storage/segments.c:30-424 | Each single step of the protocol keeps the invariant that ties disk, memory, history and acknowledgements together; the committed log stays, or gains the whole of the frame in flight, and acknowledgements only grow |
| `Runs.VisibleRows` | src/storage/segments.c:217-230 | What an open table lets readers see is the suffix of all committed rows after preserved_sequence: none missing, none twice |
| `Runs.ManifestsLoad` | src/storage/metadata.c:154-224 | Every manifest that a run has installed or is installing, if its numbers fit their fields, passes all checks of the loader and loads back as what was saved |
| `BlockedRun.BlockedExample` | src/storage/segments.c:40-41 | A concrete table and a reachable closed state from which no restart succeeds, whichever indexes open: an empty segment was sealed at a day change and a later one retired |
| `Reopen.RecoveryIff` | src/storage/segments.c:217-234 | For files as a history left them, recovery succeeds if and only if no empty unretired record stands before a retired one, and then yields exact records and the last sequence and time of the history |
| `Reopen.RecoverSucceeds` | src/storage/segments.c:217-234 | The positive half for any choice of which derived indexes open: the reopened table is the history, field by field |
| `Reopen.BlockedFails` | src/storage/segments.c:126-126 | The negative half: the sequence check of the empty segment fails because counting restarts from the watermark |
| `Reopen.StorageRecover` | src/storage/segments.c:217-234 | The recovery loop computes the recovery function, and its counters, readable list and pending flag are the sums and the filter over the recovered records; `ReopenedIff` says of any files what that accepts |
| `ScannedLogs.ReopenedIff` | src/storage/segments.c:217-234 | For any manifest and any files whatever: a table is reopened, with these records and this last sequence and time, exactly when the manifest loads and a chain of positions from the watermark explains every unretired segment. A segment that is scanned is explained by a file that is its header, whole frames that continue the table, and a tail; the tail is empty unless the segment is active, and is then too short for a header or for the size that its valid header announces |
| `ScannedLogs.ScannedIff` | src/storage/segments.c:101-215 | The same for one segment that is scanned: it is accepted exactly when its file contains frames that continue the table and agree with its record, and then as what they say |
| `ScannedLogs.DamageRefused` | src/storage/segments.c:148-192 | Whatever else the table holds: if a segment that is scanned has a frame changed within four neighbouring bytes behind whole ones, the table is not opened |
| `Reopen.MatchesLoads` | src/storage/metadata.c:182-224 | Every manifest that describes a history passes all checks of the loader |
| `Recovery.RecoverWritten` | src/storage/segments.c:101-215 | A segment file that this table wrote, with any torn tail behind an active one, is accepted and summarised exactly, whether or not its index opens |
| `Recovery.ScanLoop` | src/storage/segments.c:148-192 | The offset-advancing loop agrees with reading the whole log first and checking all frames afterwards; `ScannedIff` says what that accepts |
| `Recovery.NotFitting` | src/storage/segments.c:148-169 | Once a frame does not fit what precedes it, no longer run of frames is accepted |
| `CrashSafety.CrashRotated` | src/platform/files.c:81-108 | A crash that leaves a manifest with a new segment installed, although the program never heard of it, keeps disk and history in agreement |
| `CrashSafety.CrashWhole` | src/storage/segments.c:366-381 | A crash that leaves the frame in flight whole on disk keeps disk and history in agreement once that frame is counted as committed |
| `CrashSafety.NewFileKeeps` | src/storage/segments.c:50-69 | Writing, syncing and linking the file of a segment under creation disturbs no retained segment |
| `Images.RotateMatches` | src/storage/segments.c:37-44 | The manifest image of a rotation describes the history with the new empty segment |
| `Images.RetireMatches` | src/storage/retention.c:109-118 | The manifest image of a retention run describes the same history |
| `Images.RetireWatermark` | src/storage/retention.c:112-117 | After a retention run preserved_sequence and preserved_time are the last sequence and time of the history up to the last retired segment |
| `Images.RetirePrefix` | src/storage/retention.c:112-117 | Retired segments are a prefix of the segments that hold rows |
| `Images.MaxTimeGrows` | src/storage/retention.c:114-114 | Times never go back between segments, which is why expiry by maximum time takes a prefix |
| `Images.StaleMatches` | src/storage/segments.c:193-197 | A manifest saved before some appends still describes the table after them |
| `Images.PublishMatches` | src/storage/segments.c:385-391 | Publishing a frame keeps every in-memory record exact |
| `History.RowsNumbered` | src/storage/segments.c:160-163 | Rows of any history that fits are numbered consecutively from 1 |
| `History.FramesEndLater` | src/storage/segments.c:160-163 | Times never go back within a segment and stay in its UTC day |
| `History.RowsAreBytes` | src/query/scan.c:155-158 | The rows of a frame joined in order are the row bytes of the frame, each of the row width |
| `Frames.DecodeEncode` | src/storage/format.c:92-159 | Encoding a valid frame and decoding the bytes gives the frame back |
| `Frames.EncodeDecode` | src/storage/format.c:145-159 | Whatever decodes is the encoding of the valid frame it decodes to |
| `Frames.InspectIff` | src/storage/format.c:123-143 | A header with valid sizes is accepted as h exactly when the first eighty bytes are the encoding of h |
| `Frames.FrameEncode` | src/storage/format.c:92-121 | Filling the buffer field by field gives the encoding, and a frame is refused exactly when it is not valid |
| `Frames.CheckDefinitions` | src/storage/format.c:67-80 | The definition loop decides the recursive description of a definition block |
| `Frames.CheckTimes` | src/storage/format.c:82-90 | The time loop decides that the row times start at the minimum, never go back and end at the maximum |
| `Frames.CorruptionRejected` | src/storage/format.c:145-159 | An accepted frame of any length, changed inside any four neighbouring bytes, is rejected |
| `Frames.ByteChangeRejected` | src/storage/format.c:145-159 | In particular any change to exactly one byte is rejected |
| `Frames.AcceptedFrame` | src/storage/format.c:53-90 | What is known of any frame that decodes, in numbers: at least one row, a width within the limits, sequence numbers and times in range and in one UTC day, as many bytes as announced, and row times from the minimum to the maximum in order |
| `Frames.WriteHeader` | src/storage/format.c:101-113 | The header stores turn the first eighty bytes of a zeroed buffer into the header, its checksum included |
| `Frames.WriteTrailer` | src/storage/format.c:114-121 | The trailer stores close the frame with end mark, length and checksum of everything before |
| `Segments.SegmentIff` | src/storage/format.c:10-51 | A segment header decodes to h exactly when it is the encoding of h |
| `Logs.ReadWritten` | src/storage/segments.c:148-192 | Reading encoded frames followed by any strict prefix of one more yields exactly the complete frames and stops at their end |
| `Logs.ReadSound` | src/storage/segments.c:148-192 | Whatever the bytes, the frames that reading yields are the log that the bytes start with |
| `Logs.NextDamaged` | src/storage/segments.c:149-159 | A frame changed within four neighbouring bytes is bad, and never taken for an unfinished one, whatever follows it |
| `Crc32c.Crc32c` | src/core/encoding.c:114-119 | The table-driven loop computes the bit-serial checksum |
| `Crc32c.CrcInit` | src/core/encoding.c:107-113 | Each table entry is its byte value after eight shifts of the reflected polynomial |
| `Crc32c.Taps` | src/core/encoding.c:105-113 | The shift feeds back at exactly the exponents of the Castagnoli polynomial |
| `Crc32c.EmptyChecksum` | src/core/encoding.c:114-119 | The checksum of nothing is zero: the register starts and ends inverted |
| `Crc32c.TableStep` | src/core/encoding.c:116-117 | Eight shifts act on the low byte through the table and move the rest of the register down |
| `Crc32c.SealedIffResidue` | src/core/encoding.c:114-119 | A message carries its own checksum exactly when running over all of it leaves the fixed residue |
| `Crc32c.BurstDetected` | src/core/encoding.c:105-119 | Two messages that carry their checksums and differ only within four neighbouring bytes are equal |
| `Utf8.ValidUtf8` | src/core/encoding.c:55-74 | The loop accepts exactly the octet strings of the grammar in section 4 of RFC 3629 |
| `Utf8.Continue` | src/core/encoding.c:63-71 | The inner loop gathers the announced continuation octets into the scalar value, or reports the first that is none |
| `Utf8.ValidIffEncoding` | src/core/encoding.c:55-74 | Text is valid exactly when it is the UTF-8 encoding of a sequence of scalar values |
| `Layout.PackIffReads` | src/core/encoding.c:76-104 | A record reads field by field as some values exactly when it is their packing |
| `Bytes.PutAt` | src/core/encoding.c:92-103 | A little-endian store changes exactly the bytes of its field |
| `Bytes.GetInjective` | src/core/encoding.c:76-90 | Different bytes of one width read as different numbers |
| `Bytes.LittleEndian` | src/core/encoding.c:92-103 | Byte i of a stored number has the weight 256 to the power i |
| `Bytes.Wrapped` | src/core/encoding.c:88-91 | A signed number is stored modulo 2 to the 64 and read back as it was |
| `Manifests.LoadIff` | src/storage/metadata.c:154-224 | A file loads as manifest m exactly when it is what saving m writes and m passes the checks |
| `Manifests.RecordsIff` | src/storage/metadata.c:161-175 | The list of segment records reads back exactly when it is the encoding of the list |
| `Manifests.CheckRecords` | src/storage/metadata.c:197-213 | The loop that carries the previous identifier and counts active records decides the list-wide conditions |
| `Retention.Directory.Apply` | src/storage/retention.c:92-154 | In a run that changes anything or succeeds, exactly those unretired segments with rows become retired whose last row is before the clock less the retention time, none if that is zero, and all else stays. A run reports the tally of expired segments and what is left to be removed, replaces the records by the retired image exactly if the manifest was installed, turns read-only exactly if that is uncertain, cleans up if nobody reads, and keeps counters, readable list and the hold on an active segment right; the answer is good exactly when nothing failed |
| `Retention.Directory.Cleanup` | src/storage/retention.c:10-37 | With a removal pending and no reader, the files of retired segments are removed in order until one cannot be; the removal stays pending exactly when one could not, and else all of them are gone |
| `Retention.Directory.Retire` | src/storage/retention.c:119-135 | The publication keeps counters, readable list and the hold on the active segment right, and lets go of an active segment exactly when it was retired |
| `Retention.Directory.Preview` | src/storage/retention.c:72-85 | The preview loop computes the tally of the segments for the cutoff that the retention time and the clock give; `TallyMeans` says what it counts |
| `Retention.TallyMeans` | src/storage/retention.c:72-85 | In terms of clock and retention time: segments, rows and bytes are those of the unretired segments whose last row is older than the retention time, partial ones are those of which only the first row is, and with no retention time there are none |
| `Retention.CountMeans` | src/storage/segments.c:217-230 | The counters of a table are the number, bytes and rows of its unretired segments and the number of retired ones |
| `Retention.ReadableAre` | src/storage/segments.c:217-230 | The readable list is, in order, the segments with rows that are not retired |
| `Retention.Directory.Rotate` | src/storage/segments.c:77-84 | Counters and readable list stay right across a rotation |
| `Retention.Directory.Publish` | src/storage/segments.c:383-393 | Counters and readable list stay right across a commit |
| `Retention.TallyIsDifference` | src/storage/retention.c:125-126 | Subtracting the preview from the counters gives the sums over the list with the expired segments retired |
| `Retention.ReadableAfter` | src/storage/retention.c:127-132 | Compacting the readable list gives the readable list of the new records |
| `Retention.Stage` | src/storage/retention.c:110-117 | The marking loop stages exactly the retired image with its watermark |
| `Retention.RetiredIsOld` | src/storage/retention.c:114-114 | No row at or after the cutoff is dropped: a segment is retired only if every time in it is before the cutoff |
| `Retention.RetiredExactly` | src/storage/retention.c:74-117 | In a run on a history a segment becomes retired if and only if it has rows, the retention time is not zero, the clock has passed it, and every row of the segment is longer ago than that |
| `Pinning.ReadersSafe` | src/storage/retention.c:10-37 | In every reachable state of every interleaving, restarts included, the log of each segment held by a live snapshot exists and still begins with the frames the snapshot saw; and with no removal pending all files of retired segments are gone |
| `Pinning.RemovalSafe` | src/storage/retention.c:17-32 | A file is removed only when no live snapshot holds its segment, although the reader count was read and the mutex dropped before |
| `Pinning.LaterSnapshotsOmit` | src/query/snapshot.c:5-48 | A snapshot taken after a segment was retired does not contain it |
| `Pinning.StepKeeps` | src/storage/retention.c:92-154 | Each of acquire, release, index repair, write, publish, create, retire, check, remove, stop and restart keeps the invariant behind these |
| `Dictionaries.Dictionary.Intern` | src/storage/dictionary.c:48-110 | Interning finds a known text and changes nothing, or appends it with the next identifier of its field; it is refused as invalid exactly for texts that may not be interned, for want of budget exactly when identifiers or bytes run out, and keeps the table, the columns and the byte accounting right even when an allocation fails half way |
| `Dictionaries.Dictionary.Lookup` | src/storage/dictionary.c:58-66 | Probing finds a text exactly when it is defined, and gives its identifier |
| `Dictionaries.Dictionary.Resolve` | src/storage/dictionary.c:112-121 | Resolving gives the text an identifier stands for, and fails exactly when it stands for none |
| `Dictionaries.Dictionary.Rollback` | src/storage/dictionary.c:37-46 | Exactly the definitions after the mark go, and byte accounting, columns and hash table are right for the rest |
| `Appending.Table.NewDictionary` | src/storage/dictionary.c:15-28 | A new dictionary defines nothing and is as small as can be; there is none exactly when the budget is below its fixed part |
| `Dictionaries.Dictionary.Replayable` | src/storage/dictionary.c:70-108 | However it came about, a dictionary accounts for at least what its definitions need in a new one |
| `Symbols.MeansUnique` | src/storage/dictionary.c:101-107 | An identifier of a field stands for one text and a text has one identifier |
| `Symbols.MeansDense` | src/storage/dictionary.c:101-102 | The identifiers of a field in use are exactly 1 to its count |
| `Symbols.FreshPrefix` | src/storage/dictionary.c:70-77 | A dictionary built from a prefix of the definitions accounts for no more bytes |
| `Probing.Probe` | src/storage/dictionary.c:58-66 | From the home slot the loop reaches a matching entry or the first free slot, and no entry on the way matches |
| `Probing.FreeSlot` | src/storage/dictionary.c:71-71 | A table with more slots than entries has a free slot, so probing ends |
| `Probing.NotThere` | src/storage/dictionary.c:58-66 | A probe that ends at a free slot has passed every entry with that home |
| `Probing.Rehash` | src/storage/dictionary.c:5-13 | After a rehash every entry can be found |
| `Definitions.ParseIff` | src/storage/dictionary.c:128-180 | Bytes after known definitions yield a list exactly when they are the exported additions of that list |
| `Definitions.ParseValid` | src/storage/format.c:67-80 | Definitions that a schema admits pass the schema-independent checks of a frame |
| `Replay.Export` | src/storage/dictionary.c:128-153 | The two loops write exactly the serialized additions since the mark, and refuse exactly when they exceed the limits |
| `Replay.Apply` | src/storage/dictionary.c:155-180 | All definitions of a block are added or none; a block that parses is never called corrupt; and in a dictionary never rolled back, with no failed allocation, it is taken exactly when the result fits the budget |
| `Replay.Rebuild` | src/query/scan.c:25-46 | Rebuilding a dictionary from frames gives what the frames define, exactly when they replay and fit the budget |
| `Replay.ReplayFits` | src/storage/dictionary.c:70-108 | The frames of a writer dictionary, and every earlier run of them, replay within the same budget whatever rollbacks the writer went through |
| `Replay.CheckpointReplays` | src/storage/index.c:229-256 | The dictionary block of a sealed index reads as the replay of the segment frames |
| `Schemas.SchemaBuild` | src/core/schema.c:37-88 | A schema is refused exactly for an invalid definition, a bad or repeated name or a row that is too wide; otherwise it is laid out as described: time, null bitmap, slots, padding, each field under its name |
| `Schemas.Identifier` | src/core/encoding.c:44-53 | The loop accepts exactly the names of letters, digits and underscores that start with no digit and leave room for the closing zero |
| `Schemas.Find` | src/core/schema.c:90-94 | Looking up a name gives the only field of that name, and fails exactly when there is none |
| `Schemas.SlotsOrdered` | src/core/schema.c:63-73 | Slots follow each other without overlap |
| `Schemas.NullBits` | src/core/schema.c:69-69 | Every nullable field has its own bit of the bitmap |
| `RowEncoder.EncodeRow` | src/core/schema.c:152-172 | Encoding succeeds exactly when every field can hold its value, and leaves a row in which every bit is accounted for by time, values and padding |
| `RowEncoder.EncodeField` | src/core/schema.c:96-150 | A slot is written exactly for values in range, with the bytes that stand for the value |
| `RowEncoder.RowRoundTrip` | src/core/schema.c:152-250 | With a symbol encoder and a decoder inverse to each other, a row is the encoding of values exactly when it is canonical and decodes to them, and it is their only encoding |
| `RowCodec.ValidateRow` | src/core/schema.c:226-250 | Validation accepts exactly the rows that are the encoding of some time and values |
| `RowCodec.RowDecodes` | src/core/schema.c:174-224 | A row that encodes values decodes to them |
| `RowCodec.RowUnique` | src/core/schema.c:152-172 | The same values at the same time have one encoding |
| `RowCodec.SlotIff` | src/core/schema.c:185-220 | Decoding accepts a slot as a value exactly when the slot stands for that value |
| `RowCodec.HeldIff` | src/core/schema.c:24-35 | A field of an integer type can hold a number exactly when the number lies in the range of the type, written out |
| `RowCodec.UnusedBits` | src/core/schema.c:243-244 | The one mask test finds exactly the unused null bits that are set |
| `Appending.Table.CommitRequests` | src/storage/segments.c:274-424 | After every call the table dictionary is the replay of the active frames and every committed row of every segment encodes what its request supplied; on success one valid frame of this schema with the whole group is added in the segment of its day and defines exactly the texts not yet defined there, in order of first use; else no row appears; the table is read-only afterwards exactly when it was before or the outcome is uncertain and not because sealing failed; and every refusal is exact: READ_ONLY if and only if the table was read-only and the group has rows, fits a frame and has a good clock; the clock error for exactly the clock test; LIMIT without a frame only for no rows, too many rows or bytes, exhausted sequence numbers, or a group that not even a new segment could take |
| `Appending.Table.constructor` | src/core/database.c:136-150 | A new table has no segment, no rows and the first identifier, and satisfies the invariant of a table |
| `Ledgers.ReadOnlyIff` | src/storage/segments.c:351-382 | Once a frame is built, a table becomes read-only exactly when the outcome is uncertain and the index save of the segment to be sealed is not what failed |
| `Ledgers.AddsOrKeeps` | src/storage/segments.c:351-413 | A commit adds its group as one frame and as many sequence numbers, or nothing but perhaps an empty segment, and not even that when sealing failed |
| `SealFailure.StaysWritable` | src/storage/segments.c:33-36 | A concrete table, one commit and a commit of the next day whose index save is uncertain: the answer is INDETERMINATE, nothing was written, and the table is still writable |
| `Histories.StartOrdered` | src/storage/segments.c:217-234 | A table without segments is a history |
| `Histories.CommitOrdered` | src/storage/segments.c:101-170 | Every commit whose rows are not earlier than the last ones leaves segments that form a history for recovery, with its checks of sequence, time, day, definitions, dictionary budget and row contents instantiated |
| `Histories.CommitBounded` | src/storage/segments.c:306-350 | Every commit keeps all segments within the index limit, and within the target size unless they are a single frame |
| `Histories.CommittedRecovers` | src/storage/segments.c:101-234 | The files of a table that commits have written are recovered, content checks included, exactly when its manifest is not blocked, and then with the last sequence and time of the writer |
| `Appending.Table.AttemptIn` | src/storage/segments.c:308-350 | One attempt either commits, fails without trace, or asks to be repeated for a new segment with table and dictionary as before |
| `Appending.Table.Finish` | src/storage/segments.c:351-415 | Once a frame is built the outcome is that of index save, create, reserve and write in this order, a reservation failing for memory or for a limit; the new state of the table is the one that outcome calls for, read-only included; and whatever fails, the dictionary is again the replay of what is committed |
| `Appending.BuildFrame` | src/storage/segments.c:314-341 | Numbers, definitions and frame of a group: the frame carries fingerprint, row width, numbers and times, its rows encode the lines in the dictionary, its definitions are exactly the texts of the group that were not yet defined, and a group in time that fits a new segment is never refused with a new dictionary |
| `Appending.CommittedReads` | src/query/scan.c:155-170 | Reading a committed row through the replay of its segment gives back the time and every value the request supplied, symbols included |
| `Delivered.ReadersGet` | src/query/scan.c:133-170 | The items of the readable segments of a committed table are as many as the lines supplied for its unretired segments, and item k decodes, through the replay of its segment, to the time and values of the k-th line |
| `Delivered.AllSupplied` | src/query/scan.c:133-170 | With nothing retired these lines are all that were ever committed, in order |
| `Appending.CommittedAccepted` | src/storage/segments.c:159-169 | Recovery accepts every committed frame after the earlier ones of its segment: its definitions replay within the dictionary budget and its rows are encodings |
| `Appending.BuiltValid` | src/storage/format.c:92-97 | A group in time whose rows and additions fit makes a frame that the encoder takes |
| `Appending.Table.ReadersFit` | src/query/scan.c:25-46 | A reader that replays the active segment, as it is or was, stays within the writer budget |
| `SymbolRows.InternRows` | src/storage/segments.c:316-330 | All symbols of a group get the numbers of their texts; new texts are defined once each in order of first use; a failure leaves rows as fit for another attempt as before; and a new dictionary fails only if the texts exceed its budget |
| `Commit.Gather` | src/storage/segments.c:288-297 | The gathered buffer holds the rows of all requests in order, each encoding its values at its request time |
| `Receipts.CommitGroup` | src/ingest/writer.c:6-21 | Through any splitting every request is answered once, the rows committed are those of the granted requests in order, their sequence numbers tile what the table gained, the segments stay a history that recovery accepts, every refusal is the outcome of a commit of that request, and one for size of a commit of it alone; on a read-only table every request in time that fits a frame is refused as read-only; and if nothing goes wrong, every request that a new segment could take alone is granted, whatever it was grouped with |
| `Receipts.FillReceipts` | src/storage/segments.c:405-412 | The receipts of a committed group follow each other from the first new sequence |
| `Receipts.GroupInTime` | src/ingest/writer.c:38-52 | The rows of requests in time order within one UTC day pass the clock and frame checks of a commit |
| `Writers.Queue.Take` | src/ingest/writer.c:34-53 | A group is a prefix of the queue for one table, at most 64 requests, with times that never go back and lie in one UTC day, and stops only for a stated reason |
| `Writers.Queue.Admit` | src/ingest/writer.c:112-123 | A request is turned away when the writer is stopping, and else admitted exactly when its charge fits under the limit; bytes in use are the charges of all requests under way |
| `Writers.Queue.Enqueue` | src/ingest/writer.c:137-144 | A prepared request moves to the tail of the queue and nothing is lost |
| `Writers.Queue.Abandon` | src/ingest/writer.c:149-153 | A request that could not be prepared gives its charge back |
| `Writers.Queue.Complete` | src/ingest/writer.c:55-65 | Every request of the group is answered and its charge given back |
| `Writers.Queue.Stop` | src/ingest/writer.c:80-88 | From then on nothing is admitted, and what is under way stays under way |
| `Ingestion.Run.constructor` | src/ingest/writer.c:23-29 | A writer that starts on a table has answered nothing yet |
| `Ingestion.Run.Turn` | src/ingest/writer.c:23-70 | Over any number of turns of the writer: the requests of a table are taken in queue order and each is answered once, the rows the table gained are those of the granted requests, their receipts tile the sequence numbers gained, in the order in which they were taken, their times never go back, and the segments are a history that recovery accepts |
| `Indexes.Rebuild` | src/storage/segments.c:255-270 | Scanning a segment file rebuilds the index that appends grew |
| `Indexes.IndexGrows` | src/storage/segments.c:384-384 | Adding the entry of a committed frame at the committed end gives the index of the longer log |
| `Indexes.EntryLocates` | src/storage/index.c:23-31 | Reading a segment file where its index says gives the frame, its definitions, its rows and its checksum |
| `Indexes.EntryIff` | src/storage/index.c:32-49 | A 64-byte record reads as an entry exactly when it is the entry encoding |
| `Indexes.EntryTaken` | src/storage/index.c:50-59 | A stored entry is taken exactly when it tells of rows of the segment, in its sequence numbers and times, in a frame within its committed bytes that holds just those rows and has room for the definitions |
| `Indexes.SavedPasses` | src/storage/index.c:50-59 | Every entry of a written segment passes the bounds of entry_decode |
| `Indexes.SavedEnds` | src/storage/index.c:142-153 | The first and the last entry agree with the segment record |
| `Indexes.SavedReads` | src/storage/index.c:41-62 | The entries saved to a sealed index read back unchanged |
| `IndexFiles.HeaderIff` | src/storage/index.c:75-87 | A header of an index file reads as h exactly when it is the encoding of h, its checksum included |
| `IndexFiles.Open` | src/storage/index.c:113-159 | An index opens exactly when its header is the one for this table and segment, its size is right and its end entries agree with the segment record |
| `IndexFiles.StaleRefused` | src/storage/index.c:113-142 | An index saved for another table, schema, segment or state of the segment does not open, nor does one that was cut or grew |
| `IndexFiles.OpenEnds` | src/storage/index.c:142-153 | Nor does an index open whose entries do not begin with the first frame of the segment and end with its last one |
| `IndexFiles.Reader.Get` | src/storage/index.c:96-111 | Reading through pages of 64 entries gives the entry at the position asked for, whatever was read before |
| `IndexFiles.SavedOpens` | src/storage/index.c:64-94 | The index of any segment that the table wrote, once saved, opens, gives every entry at its position and the dictionary block with its checksum |
| `Scans.ScanSnapshot` | src/query/scan.c:80-187 | The rows handed to the callback are a prefix of the plain filter in sequence order, all of them or the first limit on success; the bytes charged stay within the budget, cover every frame that holds a wanted row and its dictionary, unless the scan failed at least those it has to read to get to the last row handed over, and exceed the cost of no calm scan |
| `Scans.ScanResult` | src/query/scan.c:155-174 | What the invariant of a scan says at its end: always a prefix, exactly the first min(limit, n) rows on success |
| `Scans.ReadInSteps` | src/query/cursor.c:89-98 | Getting somewhere in two pages reads no less than getting there in one scan |
| `Scans.LowerBound` | src/storage/index.c:215-228 | The binary search finds the first frame that is not wholly before the interval or the position |
| `Scans.FirstPart` | src/query/scan.c:88-94 | The binary search over segments skips exactly those wholly before |
| `Scans.ScanBatches` | src/query/scan.c:133-176 | Breaking at the first frame behind the interval misses no wanted row |
| `Snapshots.Acquire` | src/query/snapshot.c:9-23 | The chosen stretch of segments holds every wanted row of the table, and each of its segments reaches into the interval |
| `Readers.Readers.Acquire` | src/query/snapshot.c:9-47 | A snapshot is refused exactly when the readers are all taken or its charge exceeds what is left, or fails for memory; else it holds the stretch of segments that has every wanted row, and the counters are those of the snapshots held, within their limits |
| `Readers.Readers.Extend` | src/query/cursor.c:45-54 | The charge for a cursor is taken exactly when it fits |
| `Readers.Readers.Release` | src/query/snapshot.c:50-61 | Exactly what a snapshot was charged is given back |
| `Snapshots.Scan` | src/query/scan.c:58-78 | Snapshot and scan together answer for all readable rows of the table |
| `Snapshots.HistoryScannable` | src/query/snapshot.c:9-37 | The readable segments of any history, with whatever of it retired, are in the order that the binary searches rely on |
| `Snapshots.BatchSize` | src/query/scan.c:133-154 | What reading a frame is charged is its size in the file |
| `Cursors.Execute` | src/query/query.c:206-315 | A page holds the next matching rows up to the limit; the position it reports splits the remaining rows exactly, and without more the page completes them; the bytes it reports are within the budget and at least those of the frames and dictionaries it had to read to get there |
| `Cursors.Database.Finish` | src/query/cursor.c:89-98 | Delivered pages and what is still to come always make up the whole filtered scan; the last page completes it; a page that is not the last is full and moves the position strictly on, but not to the end of the snapshot; after the last page or a failure exactly this cursor is gone |
| `Cursors.Next` | src/query/cursor.c:63-100 | Page by page a cursor delivers exactly one unlimited filtered scan of its snapshot, each page but the last full and nearer to its end; a cursor being read answers busy and changes nothing; an unknown or expired one answers expired; and a page fails only if something disturbs the read or the bytes left do not pay for the snapshot |
| `Cursors.ReadAll` | src/query/cursor.c:63-100 | A client that asks for pages until there are no more does come to an end, and if no page fails it has exactly one unlimited filtered scan of the snapshot; its pages have paid, out of the budget of the cursor, for all that reading that far takes |
| `Cursors.Database.Begin` | src/query/cursor.c:68-75 | A cursor is claimed exactly when it is there and not being read, and else the answer tells which |
| `Cursors.Database.Expire` | src/query/cursor.c:17-29 | Exactly the cursors past their deadline that nobody is reading go |
| `Cursors.Database.Close` | src/query/cursor.c:101-111 | Closing is refused exactly while the cursor is being read, and else leaves no such cursor and all others |
| `Cursors.Database.Open` | src/query/cursor.c:30-58 | A cursor is refused exactly for a lifetime out of range, for want of numbers or of memory; else it gets a new number and starts with nothing delivered |
| `Caches.Cache.Begin` | src/query/cache.c:16-35 | A hit counts a reference and is the most recent use; a miss evicts only unheld entries, least recently used first and none without need, and is turned away exactly when held entries and loads under way leave no room |
| `Caches.Cache.Finish` | src/query/cache.c:39-55 | The reservation is given back; the loaded dictionary is kept unless a concurrent miss was faster, so keys stay unique, and every entry holds what a direct load gives |
| `CacheLoads.Load` | src/storage/index.c:229-256 | From the dictionary block of a sealed index or from the frames, a load gives what the frames of the segment define, and if no allocation fails it is refused exactly when that exceeds the budget |
| `CacheLoads.Acquire` | src/query/cache.c:13-57 | Hit or miss, what is acquired holds exactly what the frames of the segment define; and if the load goes well, it is refused exactly when held entries and loads under way leave no room |
| `Caches.Cache.Release` | src/query/cache.c:59-64 | One reference less, for an entry that is still in the cache |
| `Caches.Cache.MakeRoom` | src/query/cache.c:23-33 | Room is made exactly when held entries and reservations leave it; only unheld entries go, least recently used first, and none without need; the bytes in the cache never exceed the budget |
| `Aggregation.Execute` | src/query/query.c:295-312 | An aggregate query over rows with given keys succeeds exactly when every group made in advance and every row is taken, and its groups are those of a plain group-by in first-occurrence order with the exact fold of their own rows |
| `Queries.Answer` | src/query/query.c:86-99 | An aggregate query over the readable segments of a table: the groups are those of the plain group-by over exactly the rows in the interval that pass the filters; told by the values of the rows, every selected row is in the one group with its bucket and its values of the group fields, and every cell is the count, sum or extreme of its field over the rows of its group; what is emitted is the first of them by the column asked for; and undisturbed it succeeds exactly when the groups fit and no aggregate overflows |
| `Queries.Aggregate` | src/query/query.c:206-233 | The same for the groups of any snapshot: scanning with early stop, filtering, keys and folding together are filter, then group-by |
| `Queries.SoughtIff` | src/query/query.c:86-99 | A row is selected exactly when it lies in the interval and beyond the position and its fields stand in the named relation to the values of all conditions, as integers, unsigned numbers, reals or byte strings, with the two null tests spelled out |
| `Queries.KeyedIff` | src/query/query.c:222-229 | A row belongs to a group exactly when the group has the boundary at or before its time as its bucket and its values in the group fields, as values compare |
| `Queries.MembersAre` | src/query/query.c:222-233 | The members of a group are exactly the rows of the table that are selected and have its keys |
| `Queries.ArguedIs` | src/query/query.c:170-176 | Column a of a group is about the values of its own field in those rows; COUNT_ALL is about the rows |
| `Queries.GroupsPartition` | src/query/query.c:222-305 | Every selected row is in exactly one group, and a group that was not made in advance has a row |
| `Queries.GroupedSummarizes` | src/query/query.c:206-233 | The groups of the plain group-by, told by the values of the rows: the partition above, and every cell the count, sum or extreme of the right field over the right rows |
| `Queries.CellsMean` | src/query/query.c:170-202 | In the groups of a query every cell is the count, the exact total or the first extreme value of the arguments in its own group |
| `Aggregation.BucketedGroups` | src/query/query.c:295-305 | Without group fields the groups are exactly the buckets of a nonempty interval, in order, whatever rows match |
| `Groups.Execution.Consume` | src/query/query.c:222-233 | A row succeeds exactly when its group exists or may be made and no aggregate of the group overflows, and then the groups are again those of the plain group-by |
| `Groups.Execution.GroupFor` | src/query/query.c:116-169 | The group with compare-equal keys is found, or made at the end when there is none |
| `Groups.ExpectedNext` | src/query/query.c:170-202 | One more row changes only its own group, by one step of each reduction |
| `Values.SameIffNormal` | src/query/query.c:100-115 | Keys compare equal exactly when the hash sees the same, signed zeros included |
| `Values.Order` | src/query/plan.c:8-18 | Value comparison is a total order with nulls last in which only equal values and the two zeros tie |
| `Values.CompareMeans` | src/query/plan.c:8-18 | Numbers compare as numbers, byte strings by their first difference or as prefixes, and nulls come after everything |
| `Reductions.SumIs` | src/query/query.c:186-195 | SUM is the exact sum and fails exactly when some prefix sum leaves the range |
| `Reductions.SumFailsEarly` | src/query/query.c:186-195 | A concrete column whose total fits but whose SUM fails |
| `Reductions.CountIs` | src/query/query.c:176-180 | COUNT is the number of values that count |
| `Reductions.ExtremeIs` | src/query/query.c:196-199 | MIN and MAX are values of the group that no other is below or above, in the sense of numbers and byte strings, and the first such in row order |
| `Buckets.FloorIs` | src/query/plan.c:19-27 | The bucket floor is the boundary at or before a time, less than a width away; it fails only when that boundary is below the smallest timestamp |
| `Buckets.PlannedBuckets` | src/query/plan.c:106-117 | The planned buckets are exactly the floors of the times of the interval, all within range |
| `Buckets.RefusedIff` | src/query/plan.c:106-117 | Planning is refused exactly when the floor of the start is below the smallest timestamp or one more bucket than allowed would begin before the end |
| `Buckets.BucketKeys` | src/query/query.c:296-304 | The loop that makes the buckets never leaves the range of timestamps |
| `Ordering.GroupOrder` | src/query/query.c:234-242 | Group comparison is a strict total order with nulls last in both directions and first occurrence breaking ties |
| `Ordering.ComesIff` | src/query/query.c:234-242 | One group is not after another exactly when its value is below, or above if descending, with nulls last either way and ties in order of first occurrence |
| `Ordering.SortGroups` | src/query/query.c:252-261 | The bottom-up merge sort over two arrays yields a permutation of all groups in order |
| `Ordering.Emit` | src/query/query.c:262-270 | What is emitted is the first min(limit, n) groups of the one arrangement of all groups in which each comes before those after it, or of first occurrence when no order is asked for |
| `Ordering.MergeRuns` | src/query/query.c:255-258 | The merge loop interleaves two sorted runs and touches nothing else |

## Left out

- The server, the web front end, the command line, catalog and schema files: plumbing around the engine. src/storage/integrity.c repeats the recovery checks read-only; src/core/stats.c is self-contained and easier.
- Threads and condition variables: each region under a lock is one step or one method, and the order of such regions is free. How long the writer waits for a fuller batch is not modelled.
- Path building, directory creation, temporary file names, error texts, notifications and latency histograms.
- Magic strings are written as the numbers that their bytes spell; the guard against files larger than a signed 64-bit size appears only as a bound on the records.
- Runs.CrashSafe: the content checks of recovery, replaying definitions and validating rows, are the parameter `accepts` of `History.Table`; `Histories.CommitOrdered` instantiates it for what commits write. A rotation may happen before any commit there, not only when day, size or index call for it; `Appending` has the exact rule. Reordering of writes inside one file is not modelled beyond a torn tail.
- Pinning.ReadersSafe: frames are opaque numbers there; what they contain is the matter of the other modules.
- Appending.Table.CommitRequests: the allocation of the row buffer before the table is locked (src/storage/segments.c:288-289) is taken to succeed.
- Dictionaries.Dictionary.Intern: the home slot is the hash modulo the table size, which for a power of two is the mask of the source; structure sizes are those of a 64-bit platform.
- Schemas.SchemaBuild: the fingerprint over names and types is not modelled; it is a given number elsewhere.
- RowEncoder.EncodeRow: a floating-point value is its bit pattern, so narrowing a double to a 32-bit field is not modelled.
- RowEncoder.EncodeField: the same holds for one field.
- Scans.ScanSnapshot: rows that fail to validate, reads that fail, deadlines and allocation failures are one kind of failure, given by a parameter; the rows are taken as decoded.
- Snapshots.Acquire: chooses the segments; the reader count and the byte budget are in `Readers`.
- Cursors.Database.Open: whether the memory budget allows the cursor is a parameter; `Readers.Readers.Extend` is that budget.
- Caches.Cache.Finish: that a load gives what the segment holds is asked of the loader there; `CacheLoads` provides it. The linked list of entries is a sequence.
- CacheLoads.Acquire: runs the two lock regions of one reader without another in between; `Caches` has the interleavings.
- Aggregation.Execute: starts from the rows that match, with their keys and arguments, which `Queries` provides; memory accounting is a parameter that says whether each allocation is allowed.
- Groups.Execution.Consume: starts from a row that passes the filters; `Queries` has the filters.
- Queries.Answer: plans that compilation refuses (unknown fields, too many columns) are not modelled, and a plan is its filters, groups, aggregates and buckets by field position.
- Reductions.SumIs: averages and sums of floating-point numbers are not modelled.
- Values.Order: floating-point values are real numbers with a sign for zero.
