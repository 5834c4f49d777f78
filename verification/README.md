# open-ltap in Dafny

A model of open-ltap, the program that turns a Postgres physical replication stream into Delta tables, and proofs of what
it is for: every committed change reaches its table's log exactly once, in order and with the right content, whatever
crashes; the log reads as the Postgres table; and the codecs underneath (WAL framing, records, heap pages, tuples,
pglz, numeric, jsonb, CLOG and multixact pages) undo what the server wrote.

Where the source updates things in place the model does too: `TxBuf.TxBuffer`, `Engine.Core`, `ToastCache.Store`,
`Tail.TailStore`, `WalReader.WalReader` and `Record.Cursor` are classes, page building works in an array, and loops are
loops; each such method is proved equal to a function, and the theorems are about those functions.

## How the parts fit

- **Delivery.** `TxBuffer.dfy` and `Engine.dfy` are the buffer and the engine. `Protocol.dfy` is the transition system: a
  WAL of changes, commits and aborts with subtransactions, durable logs with their two watermarks, a volatile engine,
  flush rounds that append table by table, compactions, and a crash between any two steps. `StreamFacts.dfy` and
  `ProtocolProof.dfy` prove the invariant and the two main theorems, for every run.
- **Content.** `Heap.dfy` is the physical side: slots, who wrote and who marked them, and the row-lock discipline Postgres
  enforces. `HeapProof.dfy`, `MirrorProof.dfy`, `LiveMirror.dfy`, `LogMirror.dfy` and `Preimage.dfy` prove what mirrors
  and overlays hold; `PhysicalRun.dfy` runs the protocol with an engine that decodes records against the pre-images it
  finds itself, so that the protocol's assumption "the decode is right" is discharged rather than made. A version is the
  decoded row and its attribute bytes; the log holds only the row, and a restart gets the bytes from a loader.
  `Compaction.dfy` is what compaction does to the rows a restart loads, `Reload.dfy`, `ColumnTypes.dfy` and
  `NumericNormal.dfy` what encoding a loaded row again does to its bytes, and `StaleEntry.dfy` a run with a stale entry.
  `ToastCache.dfy` and `ToastGap.dfy` run the protocol with its chunk cache.
- **The log as a table.** `ChangeLog.dfy`, `TableView.dfy`, `KeyJoin.dfy`, `Tail.dfy` and `Remap.dfy`: view, compaction,
  composite keys, the served tail, and the re-snapshot; `FreshRun.dfy` joins the tail to the engine that feeds it.
- **The stream.** `WalReader.dfy`, `Framing.dfy`, `Filler.dfy`, `Chunking.dfy`, `Record.dfy`, `RecordBuild.dfy`,
  `Pglz.dfy`.
- **Pages and datums.** `Tuple.dfy`, `HeapPage.dfy`, `PageRead.dfy`, `HotChain.dfy`, `Slru.dfy`, `Numeric.dfy`,
  `NumericValue.dfy`, `Jsonb.dfy`; `Timetravel.dfy` is the GC gate.

`hide F;` at the head of a proof keeps the verifier from unfolding `F` there; it changes nothing else.

## Where a claim of the source fails

Each of these is proved with the exact condition, or the whole failing family, beside a concrete input.

- An UPDATE that changes the key leaves the old key's row in the view (`TableView.ViewIsMirror`,
  `TableView.RenamedKeyLingers`; src/engine.rs:757-761).
- The retention pass of the tail reads the clock once per batch; it leaves a suffix if and only if no deadline falls
  between two readings, and otherwise, with a compaction, a deleted row reappears (`Tail.RetainedIsSuffix`,
  `Tail.SplitRetentionGap`; src/serve.rs:72-80). One reading would be enough (`Tail.OneReadingIsEnough`).
- A composite key whose cell holds 0x1f collides with another (`KeyJoin.JoinIdentifies`; src/sink.rs:594-598).
- Zero page filler is skipped by the bytes at hand, so a stream is lost if and only if in some stretch of its filler a
  chunk end leaves one to three bytes to the page with four or more unread filler bytes at hand
  (`Chunking.ReadsBackExactlyWhen`, `Filler.FillerChunking`; src/wal/mod.rs:160-166).
- A record with two main-data headers keeps the last; what no section reads is exactly what the superseded headers
  announced less what the header section itself ran over (`RecordBuild.AcceptedIsPartition`,
  `RecordBuild.CoveredExactlyWhen`, `RecordBuild.TwoMainsLoseBytes`; src/wal/mod.rs:332-342).
- The header of a raw slot is synthesized without the bits that say its xmax only locked the tuple or is a multixact
  (src/reconstruct.rs:332). A tuple taken off its page and placed raw is as visible as before if and only if the answer
  did not need them: its inserter does not resolve as committed, it has no xmax, neither bit was set, its locker resolves
  as something other than committed, or it is an updated multixact whose number does not resolve as a transaction
  (`PageRead.RawVisibility`, `HotChain.DemotedVisibility`). A row whose locker committed vanishes
  (`HotChain.LockedRowVanishes`).
- Redirect targets of 0x8000 and above read back as dead pointers, and attribute offsets above 255 are truncated
  (`PageRead.PointersReadBack`, `PageRead.RawRoundTrip`).
- Re-snapshotting after lost records writes tombstones at the watermark the run started from plus one, below rows flushed
  since (`Remap.RemapReadsAsSnapshot`, `Remap.ResnapshotLingers`; src/embed.rs:187-201).
- The comment on `ToastCache` says a value's chunks are always there when its tuple is decoded; the restart LSN ignores
  them. It covers every chunk still needed, whatever follows, if and only if no open transaction has a cached chunk below
  its page (`ToastGap.FlushCoversExactly`, `ToastGap.ChunksAlwaysFound`, `ToastGap.ChunkFallsBehind`; src/engine.rs:308-310).
- A branch page that the parent could serve is refused if and only if some fragment of the branch itself covers it, but
  none at the read itself nor from the branch's floor up to the read; the design note promises otherwise and the model
  follows the code (`Timetravel.OwnFragmentHides`; src/timetravel.rs:121-131).
- The comment on `load_mirror` says it is exactly the table at the watermark. Its rows agree on every live ctid, and are
  exactly the table if and only if no loaded ctid was updated away for good since a state that was exact, as a compaction
  by a held key leaves it (`PhysicalRun.LoadedExactAlways`, `PhysicalRun.ExactUntilUpdatedAway`, `StaleEntry.StaleRun`;
  src/engine.rs:757-761).
- A loaded row's attribute bytes are encoded again from its values (src/sink.rs:509). That gives the page's bytes if and
  only if every variable-length value is in the one-byte form, every numeric in the trimmed long form, every boolean 0
  or 1, all text valid UTF-8 and padding zero (`Reload.TypedReencodes`, `ColumnTypes.RecodesExactlyWhen`,
  `NumericNormal.RecodesExactly`); a row with JSON is read from its page (`Reload.JsonComesFromPage`). With a dropped
  column's bytes the row is lost whenever its values encode to another length, and always where nothing is aligned
  (`Reload.OtherLengthIsLost`, `Reload.DroppedBytesAreLost`). The server prefers the short numeric form, and an update
  against such a pre-image is rebuilt into another tuple (`Reload.ShortNumericRebuildsWrong`). The run theorems
  about content carry this condition (`PhysicalRun.Careful`).
- Compaction by a key that two live rows share takes one of them out of the loaded mirror; it keeps every live row if and
  only if each is the newest of its key in the files, as unique keys ensure (`Compaction.CompactKeepsRows`,
  `Compaction.UniqueKeepsLive`, `Compaction.SharedKeyLosesRow`; src/sink.rs:591-628).

## Model

| member | source | states |
|---|---|---|
| ProtocolProof.ExactlyOnceAlways | src/engine.rs:315-346 | in every state of every run, with flush rounds, compactions, crashes between any two table appends and restarts anywhere: a table's log is its snapshot followed by the ops of exactly the commits with cutover < LSN <= watermark, in commit order and WAL order within a commit, none twice, none aborted, with (lsn, seq) strictly increasing |
| ProtocolProof.RestartCoversAlways | src/engine.rs:308-310 | in every state of every run: a transaction committing above a table's watermark has all its ops there (subtransactions included) at or above the stamped restart LSN and the page it is rounded down to |
| ProtocolProof.RestartNeverDecreases | src/engine.rs:315-346 | the restart LSNs stamped by one run's rounds never decrease, nor does the page the stream starts at from run to run |
| ProtocolProof.StepKeepsInv | src/engine.rs:1035-1115 | every step (snapshot, start from the page-aligned minimum, read, begin of a round, one table's append, compaction, crash) keeps the invariant behind both |
| ProtocolProof.StartKeepsInv | src/main.rs:85-86 | starting at the page floor of the least restart over all tables re-establishes it: whatever is above a watermark is replayed whole |
| ProtocolProof.CommitReleasesTruth | src/txbuf.rs:89-99 | what a commit above the watermark releases to a table is its transaction tree's whole history there, in WAL order |
| ProtocolProof.RestartIsSafe | src/engine.rs:308-310 | the restart LSN computed at the begin of a round is at or below every op still to be delivered |
| ProtocolProof.RoundPrefix | src/engine.rs:315-346 | after k appends of a round the first k tables and logs are what `Engine.Core.FlushAll` promises for a whole round and the rest are untouched, so the steps are the method interrupted anywhere |
| PhysicalRun.ExactlyOnceWithContent | src/engine.rs:532-726 | the same exactly-once theorem for the engine that decodes updates and deletes against whatever pre-image it finds, across crashes, replays and compactions: the log holds the changes as they physically happened, in every run that is careful, that is, whose restarts give each live row its page's bytes and whose compactions find each live row to be the newest of its key |
| PhysicalRun.NothingLost | src/engine.rs:730-782 | at any moment of a careful run, log and pending batch together are the snapshot and every commit read so far above the cutover |
| PhysicalRun.MirrorAlwaysRight | src/engine.rs:752-769 | in every state of every careful run the mirror holds every committed live row with its content, and no two open transactions' overlays share a key |
| PhysicalRun.LoadedMirrorAlwaysRight | src/sink.rs:429-513 | in every state of every careful run the rows a restart would load agree with the live table on every live ctid, and the mirror it would load is right, bytes included, if and only if the loader gives every live row its page's bytes |
| PhysicalRun.LoadedExactAlways | src/sink.rs:429-513 | from any state, between compactions: the files load as exactly the table if and only if no loaded ctid was updated away for good since, and those neither written nor deleted since were live there |
| PhysicalRun.ExactUntilUpdatedAway | src/engine.rs:757-761 | between compactions, from a state whose files load as exactly the table: they still do if and only if no loaded ctid was updated away and neither overwritten nor tombstoned later |
| PhysicalRun.CompactionMakesExact | src/sink.rs:541-672 | a compaction by a key that held leaves files that load as exactly the table |
| StaleEntry.StaleRun | src/engine.rs:757-761 | a whole careful run, one transaction inserting and updating a row, after which a restart would load the row's old ctid |
| PhysicalRun.ViewIsTableAlways | src/sink.rs:9-12 | in every state of every careful run, crashes, replays and compactions included: the newest (lsn, seq) per key of the stored files, minus tombstones, is exactly the Postgres table at the watermark, when the key identified what each op replaced |
| PhysicalRun.LogShowsHistoryAlways | src/engine.rs:174-181 | in every state of every careful run: the log, read as far as any of its rows, shows exactly what its history replays to up to there, for all of them, if and only if the key identified what every op of the history replaced; the whole history replays to the Postgres table at the watermark |
| PhysicalRun.FreshReadIsTable | src/serve.rs:62-97 | the stored files plus any tail reaching back into what is durable read as exactly the table at the last record read |
| FreshRun.ServedReadIsTable | src/engine.rs:771-781 | in every state since an engine's start: the stored files plus the batches its tail store serves, fed by its own commits and flushes, read as exactly the table at the last record read |
| FreshRun.FetchedApartIsTable | src/engine.rs:62-63 | files fetched in one state and the served tail in a later one, every retention pass in between running within the retention of the first fetch and nothing evicted for room: together exactly the table as of the tail |
| PhysicalRun.DecodeIsTrue | src/engine.rs:812-885 | the engine's own decode of a record still to be delivered is the correct one, where the mirror is right |
| Preimage.OverlaysDisjoint | src/txbuf.rs:9-13 | under the row-lock discipline open transactions' overlays are key-disjoint, so the order of the map cannot matter |
| Preimage.PreimageIsTarget | src/engine.rs:383-385 | the pre-image found for an update or delete still to be delivered is exactly the version it physically targets, row and bytes, also in replay against a mirror ahead of the record, where the mirror is right for every live row |
| Preimage.OverlayEffect | src/txbuf.rs:65-80 | what buffering one decoded record does to each key of its writer's overlay |
| HeapProof.HeapInvariant | src/txbuf.rs:9-13 | after every record of a disciplined stream: a version written by an unfinished transaction stays where it was written, so does one marked by an unfinished transaction that will commit, and of two marks on a version one was aborted |
| MirrorProof.MirrorCommitted | src/engine.rs:752-769 | replaying a commit's ops over a mirror right for all live rows keeps it right |
| LiveMirror.ExactCommitted | src/engine.rs:752-769 | replaying a commit's ops over the exact table gives the exact table: replaced and removed ctids are gone |
| LiveMirror.ExactKept | src/engine.rs:785-799 | no other record changes the committed table |
| LogMirror.LoadMirrorIsReplay | src/sink.rs:429-513 | along an ordered log, keeping the newest row per ctid is plain left-to-right replay |
| LogMirror.LoadedRight | src/engine.rs:1044-1062 | rows right for every live ctid give a right mirror if and only if the loader gives each live row its own attribute bytes |
| LogMirror.HistoryIsTable | src/engine.rs:752-769 | the history of a log, from its snapshot on, replayed, is exactly the table at its watermark |
| Compaction.CompactAt | src/sink.rs:591-628 | a loaded row is loaded unchanged after compaction if and only if it is the newest of its key |
| Compaction.CompactKeepsRows | src/sink.rs:541-672 | the rows loaded after compaction are right for every live ctid if and only if each live row is the newest of its key in the files |
| Compaction.FilesCompact | src/sink.rs:541-672 | under that condition compaction keeps all that the stored files stand for |
| Compaction.UniqueKeepsLive | src/sink.rs:591-628 | live rows with distinct keys, and deletes logging the row they remove, are enough for it, whatever keys updates changed |
| PhysicalRun.UniqueKeysAreCareful | src/sink.rs:591-628 | so in every state of a careful run, compacting a table whose live rows always had distinct keys is careful again |
| Compaction.SharedKeyLosesRow | src/sink.rs:591-628 | two live rows with one key: at least one is lost or changed in what is loaded after compaction |
| Compaction.HeldKeyIsExact | src/sink.rs:541-672 | when the key identified what every op replaced, the rows loaded after compaction are exactly the table |
| Compaction.KeptAgainstDropped | src/engine.rs:757-761 | replaying a history as the log does, keeping an update's old ctid, differs from replaying it as the mirror does exactly on ctids updated away for good, or stale from the start and never settled |
| Compaction.LoadedExactWhen | src/sink.rs:429-513 | hence, for files right at one watermark and extended to another: exactly the table if and only if no loaded ctid is such |
| TxBuf.TxBuffer.Add | src/txbuf.rs:65-80 | the op joins its transaction's list and overlay; the first op sets the transaction's first LSN |
| TxBuf.TxBuffer.Lookup | src/txbuf.rs:83-85 | some open overlay's version of the key, and none only if no overlay has it |
| TxBuf.TxBuffer.Commit | src/txbuf.rs:89-99 | hands back the ops of the transaction and its listed subtransactions, stably sorted by LSN, and forgets exactly those transactions |
| TxBuf.TxBuffer.Abort | src/txbuf.rs:103-109 | forgets exactly those transactions and counts their ops |
| TxBuf.TxBuffer.OldestFirstLsn | src/txbuf.rs:113-115 | the least first LSN among open transactions, none only when none is open |
| TxBuf.StableSortIsStableSort | src/txbuf.rs:97 | the sort used for a commit's ops is sorted, a permutation, and keeps ties in order |
| Engine.ApplyTo | src/engine.rs:752-769 | one released op: its row emitted with the next sequence number and the mirror moved to the new version |
| Engine.Core.Preimage | src/engine.rs:383-385 | an open transaction's version if any, else the mirror's |
| Engine.Core.HandleChange | src/engine.rs:588-652 | a heap change is decoded against that pre-image and buffered; one that does not decode changes nothing |
| Engine.Core.HandleCommit | src/engine.rs:730-770 | releases the commit's ops to every table whose watermark is below it and records the commit LSN |
| Engine.Core.HandleAbort | src/engine.rs:785-799 | only the buffer changes, and only by forgetting the aborted transactions |
| Engine.Core.RestartLsn | src/engine.rs:308-310 | the first LSN of the oldest open transaction, or the last commit |
| Engine.Core.FlushAll | src/engine.rs:315-346 | every table with pending rows gets one append, all stamped with the same restart LSN; the others and their logs are untouched |
| ToastGap.CacheAlways | src/wal/heap.rs:708-721 | in every state of every run the chunk cache holds exactly the chunks this run has read of transactions still open |
| ToastGap.FlushCoversExactly | src/engine.rs:308-310 | at every flush of every run: the page of the stamped restart (oldest first LSN of the buffer, else last commit) is at or below every chunk of this run still needed, whatever follows in the stream, if and only if no open transaction has a cached chunk below that page |
| ToastGap.ChunksAlwaysFound | src/wal/heap.rs:703-706 | in every run whose flushes meet that condition and whose cuts are clean for chunks: whenever a record still to be delivered is read, all chunks its transaction logged before it for the table are in the cache, across crashes and restarts |
| ToastCache.Store.AddChunk | src/wal/heap.rs:714-716 | files a chunk under its value, the first writer owning it |
| ToastCache.Store.GcXid | src/wal/heap.rs:719-721 | drops exactly the values owned by the transaction |
| ToastCache.Store.Finish | src/engine.rs:736-739 | the loop of a commit or abort drops exactly the values of the whole transaction tree |
| ToastGap.ChunkFallsBehind | src/engine.rs:308-310 | a well-formed stream in which a flush may stamp a restart whose page is above a cached chunk of an open transaction that still needs it |
| ChangeLog.Compact | src/sink.rs:591-628 | the two loops keep, in log order, exactly the rows that are the newest of their key and no tombstone |
| ChangeLog.ReadMirror | src/sink.rs:441-512 | the one-pass scan of `load_mirror` gives the newest live row of every ctid with its attributes encoded again, or read from the page where that refuses |
| ChangeLog.ViewIsQuery | src/sink.rs:9-12 | the view shows a row for a key exactly when it is the newest of its key and no tombstone: the documented query |
| ChangeLog.CompactedBest | src/sink.rs:591-613 | per key, compaction keeps the newest row if it is live and nothing otherwise |
| ChangeLog.CompactionPreservesView | src/sink.rs:541-672 | for all logs and all further rows: compacting first does not change what is read, if and only if no dropped tombstone would have hidden one of the further rows |
| ChangeLog.AppendsAreNotHidden | src/sink.rs:362-423 | rows above the watermark are never hidden, so compaction preserves the view of every continuation |
| ChangeLog.HiddenRowReappears | src/sink.rs:608-613 | an older row brought back behind a dropped tombstone reappears |
| ChangeLog.LogRepresentsAppended | src/sink.rs:541-672 | for every interleaving of appends and compactions the log reads like everything appended |
| ChangeLog.MergedRead | src/serve.rs:62-97 | a log standing for the first f rows plus the rows from some a <= f on reads like all rows |
| TableView.OpKeepsView | src/engine.rs:752-769 | one committed op keeps view and mirror equal if and only if the live rows with its key are exactly those it replaces |
| TableView.ViewIsMirror | src/engine.rs:174-181 | the view equals the mirror after every op of a history if and only if the key held at every op |
| TableView.RenamedKeyLingers | src/engine.rs:757-761 | a key-changing update leaves two rows for one live tuple |
| TableView.CompactedIsView | src/sink.rs:608-613 | a row is in the compacted log exactly when the view shows it |
| TableView.CompactionRefreshesMirror | src/sink.rs:429-513 | the rows loaded from a compacted log are exactly those of the live mirror, stale entries gone |
| KeyJoin.BuildKey | src/sink.rs:594-598 | the loop builds the key that `JoinIdentifies` is about, for every list of cells |
| KeyJoin.JoinIdentifies | src/sink.rs:594-598 | a key string identifies its cells among all tuples of that arity if and only if there is one cell or none holds 0x1f |
| Tail.TailStore.Push | src/serve.rs:62-68 | appends an unflushed batch to that table only |
| Tail.TailStore.MarkFlushed | src/serve.rs:72-80 | stamps the unstamped batches and drops those whose age, at their own clock reading, has reached the retention |
| Tail.TailStore.EnforceCap | src/serve.rs:86-97 | evicts the oldest flushed batches until the rows fit |
| Tail.CappedIsSuffix | src/serve.rs:86-97 | eviction takes the shortest sufficient prefix of flushed batches and never an unflushed one |
| Tail.RetainedIsSuffix | src/serve.rs:72-80 | retention leaves a suffix if and only if no earlier batch's reading is before its deadline while a later batch's is not |
| Tail.OneReadingIsEnough | src/serve.rs:78 | with one clock reading for the whole pass it always leaves a suffix |
| Tail.MergedReadAlways | src/engine.rs:771-781 | for every timing of commits, flushes, retention, eviction and compaction in which no retention pass is split by a deadline in that sense: the tail is a suffix of what was emitted holding every unflushed row, and files plus tail read like everything emitted |
| Tail.FilesThenTail | src/engine.rs:62-63 | what retention is for: files fetched first and a tail fetched later read as one state, that of the tail, when every retention pass in between runs within the retention of the first fetch and nothing is evicted for room |
| Tail.SplitRetentionGap | src/serve.rs:78 | without that proviso a deleted row reappears |
| Remap.DrainMirror | src/engine.rs:962-965 | one tombstone per mirror entry, numbered on from the pending batch, in any order |
| Remap.RemapTable | src/engine.rs:955-999 | the whole new log and table after tombstoning the mirror and logging a snapshot |
| Remap.RemapReadsAsSnapshot | src/engine.rs:955-999 | the log then reads as the snapshot if and only if nothing logged outranks it: vanished rows are older than their tombstone and snapshot rows newer than log and tombstones |
| Remap.HighTombstonesSuffice | src/engine.rs:1051-1081 | tombstones above everything logged and a cutover at or above them are enough |
| Remap.ResnapshotLingers | src/embed.rs:187-201 | every row logged above `dedupe_below + 1` and deleted in the lost part stays visible |
| Remap.LostDeleteStays | src/embed.rs:187-201 | a concrete one |
| WalReader.WalReader.StripPageHeader | src/wal/mod.rs:82-121 | the page-header case: magic check, first-page skip, header length |
| WalReader.WalReader.DiscardBytes | src/wal/mod.rs:126-135 | skipping the rest of a record begun earlier |
| WalReader.WalReader.JoinBytes | src/wal/mod.rs:138-149 | joining record bytes up to the page's end and emitting the record with its padding to skip |
| WalReader.WalReader.StartRecord | src/wal/mod.rs:156-172 | alignment, zero filler, the length field and its bounds |
| WalReader.WalReader.Iterate | src/wal/mod.rs:74-173 | one pass of the loop is one step of the state machine |
| WalReader.WalReader.Feed | src/wal/mod.rs:62-175 | a feed at the expected LSN drains the state machine; at any other it refuses and changes nothing |
| WalReader.StepShrinks | src/wal/mod.rs:74-173 | every step lowers 2\*pending + (need == 0), so feeding terminates, and loses no stream position |
| Framing.FramingRoundTrip | tests/common/mod.rs:149-172 | for all records laid out by the framing rules, zero filler to a page's end between any of them: reading from any page boundary in any chunking that strands no filler yields exactly the records starting at or after it, byte for byte, at their true LSNs |
| Framing.EveryRecordPlaced | tests/common/mod.rs:149-172 | framing places every record once, in order, at 8-aligned LSNs |
| Framing.SuffixAt | tests/common/mod.rs:132-172 | cutting the stream at a page boundary leaves the framing of the records from there on |
| Filler.FillerChunking | src/wal/mod.rs:160-166 | however zero filler and the next page's header are chunked: the reader comes through if and only if no chunk end leaves one to three bytes to the page with at least four unread filler bytes at hand, and loses the stream otherwise |
| Chunking.ReadsBackExactlyWhen | src/wal/mod.rs:156-166 | a stream that ends with a record, with filler anywhere before, from any page boundary in any chunking: exactly its records from there on if and only if no stretch of its filler strands |
| Chunking.AlignedChunksAreSafe | src/wal/mod.rs:160-166 | chunks ending at multiples of four strand none, wherever the filler is |
| Pglz.Decompress | src/wal/heap.rs:798-842 | on all bytes the nested loops compute the decompression the next rows characterise, refusing truncated and out-of-range references |
| Pglz.DecompressedIsExpansion | src/wal/heap.rs:798-842 | on all bytes: decompression gives the first rawsize bytes of the LZ77 expansion of the items in the input, up to the first that refers back past the start, and refuses exactly when those are too few |
| Pglz.EncodeReadsBack | tests/common/mod.rs:51-58 | the items read from the control-byte form of any token list are that list |
| Pglz.DecompressIsExpansion | tests/common/mod.rs:51-58 | for every token list of literals and back-references (offset 1..4095, length 3..273, overlaps allowed): decompressing its control-byte form gives its LZ77 expansion, cut at rawsize |
| Pglz.SuccessIsExpansion | src/wal/heap.rs:798-842 | on success the input's items cover the rawsize output bytes from the start without a gap, each literal at its place and each copied byte equal to the one its own offset earlier |
| Record.ParseRecord | src/wal/mod.rs:297-411 | on all bytes the cursor-driven parser accepts and returns exactly what the record grammar below gives, CRC included |
| Record.Restore | src/wal/mod.rs:200-221 | the in-place restore gives the page `RestoreUndoesElision` is about, or refuses an image of the wrong size |
| RecordBuild.ParseInvertsBuild | tests/common/mod.rs:63-126 | parsing a built record returns exactly its fields, blocks, images, data and main data |
| RecordBuild.AcceptedIsPartition | src/wal/mod.rs:297-411 | every accepted record is its headers, then images and data block by block, then main data, then unread bytes: exactly as many as main-data headers before the last announced, less those the header section ran over; so the parts cover it if and only if the two are equal |
| RecordBuild.CoveredExactlyWhen | src/wal/mod.rs:332-342 | where the header section ends at the announced data, the parts cover an accepted record if and only if every main-data header but the last announces nothing |
| RecordBuild.RestoreUndoesElision | src/wal/mod.rs:200-221 | restoring a stored image gives the page back, hole and compression undone |
| RecordBuild.TwoMainsLoseBytes | src/wal/mod.rs:335-342 | a whole accepted record with two one-byte main-data headers and a byte that no part reads, whatever the checksum |
| RecordBuild.OverrunCovers | src/wal/mod.rs:332-342 | a whole accepted record that is read completely although a superseded header announced a byte: the header section ran over it |
| Tuple.EncodeAttrs | src/wal/heap.rs:381-428 | the loop computes the encoding that `RowRoundTrip` inverts, refusing rows with missing columns or values too long, for types whose values are their bytes; `Reload.ReencodeAttrs` has the others |
| Tuple.DecodeTuple | src/wal/heap.rs:470-549 | on all bytes the loop over physical columns computes the decoding that the round trips are about: NULLs, dropped and added columns, TOAST carry-over, refusals |
| Tuple.ValueRoundTrip | src/wal/heap.rs:555-690 | a value is read where it was written and reading ends where writing ended |
| Tuple.RowRoundTrip | src/wal/heap.rs:470-549 | every row encoded with its bitmap decodes to that row and those bytes, for all NULLs, dropped columns and alignments |
| Tuple.UpdateRebuildsNewTuple | src/wal/heap.rs:322-374 | for every old and new tuple sharing the logged prefix and suffix, in both WAL dialects, the rebuilt payload is the whole new tuple |
| Tuple.UpdateDecodesLikeInsert | src/wal/heap.rs:322-374 | whatever the attribute bytes, with attribute count and NULLs read off the logged header: it decodes to the same row and attributes as the tuple logged whole |
| ColumnTypes.RecodesExactlyWhen | src/wal/heap.rs:381-690 | for every column type and payload: decoding it into the log and encoding it again gives the payload if and only if it is a boolean byte 0 or 1, valid UTF-8, a trimmed long numeric, or of the type's width for integers, floats, dates, times and uuids; any byte string, and never JSON |
| ColumnTypes.UuidRoundTrip | src/wal/heap.rs:184-187 | the hyphenated text of 16 bytes reads back as them |
| Reload.ReencodeAttrs | src/wal/heap.rs:381-428 | the loop over a loaded row computes the encoding the next rows are about, for whatever its columns make of their values; `TypedReencodes` has the column types |
| Reload.KeptIsEncode | src/wal/heap.rs:381-428 | where every value comes back as it was, that is the encoding `EncodeAttrs` computes |
| Reload.TypedReencodes | src/wal/heap.rs:376-690 | by column types, for every tuple the decoder accepts with no dropped column's bytes in it: its row encodes back to exactly its bytes if and only if padding is zero, variable-length values are in the one-byte form, nothing follows and each value is one its type keeps in the sense of `RecodesExactlyWhen` |
| Reload.JsonComesFromPage | src/engine.rs:1044-1062 | a row with a JSON value does not encode, so a restart has its page's bytes if they were read and none otherwise |
| Reload.ReencodesExactly | src/wal/heap.rs:376-428 | for every tuple the decoder accepts with no dropped column's bytes in it: encoding its row again gives exactly its bytes if and only if every variable-length value is in the one-byte form, every value comes back as it was, padding is zero and nothing follows |
| Reload.DroppedBytesAreLost | src/wal/heap.rs:511-522 | with dropped columns, all live columns faithful and nothing aligned: exactly its bytes if and only if no dropped column has any, and otherwise short by exactly theirs |
| Reload.OtherLengthIsLost | src/wal/heap.rs:416-419 | aligned or not, dropped columns' bytes or not: a tuple whose length is not the one its live values encode to does not come back |
| Reload.DroppedZeroHides | src/wal/heap.rs:416-419 | under alignment a dropped byte can stand where padding would: the bytes then come back if and only if it and the boolean behind it are zero |
| Reload.RestartLoadsExactlyWhen | src/engine.rs:1044-1062 | a restart gives every live row its page's bytes if and only if each row that encodes again comes back, that is, is faithful in that sense when its tuple has no dropped column's bytes, and each that does not is read from its page |
| Reload.ShortNumericRebuildsWrong | src/wal/heap.rs:352-374 | a row with a short numeric: its bytes change over a restart, and an update logging one changed byte is rebuilt into another tuple |
| HeapPage.PlaceTuple | src/reconstruct.rs:292-308 | a tuple that fits goes below the upper end, 8-aligned; one that does not is refused and nothing changes |
| HeapPage.PlaceOne | src/reconstruct.rs:197-219 | placing one slot in the buffer touches only its tuple region and its line pointer, or refuses |
| HeapPage.RebuildPage | src/reconstruct.rs:189-225 | built in place in an array, the page is the one the read-back theorems are about |
| PageRead.PageHolds | src/reconstruct.rs:189-225 | every slot of a built page is where it was placed, later slots and the header notwithstanding |
| PageRead.RegionsDisjoint | src/reconstruct.rs:292-308 | tuple regions are 8-aligned, pairwise disjoint and clear of the line pointers |
| PageRead.PointersReadBack | src/reconstruct.rs:459-471 | every line pointer reads back as its slot; a redirect if and only if its target fits 15 bits |
| PageRead.RawRoundTrip | src/reconstruct.rs:125-160 | reading back an encoded raw tuple gives the same attributes, bitmap, natts, xids and chain flags, if and only if its offset fits a byte and its natts 11 bits |
| PageRead.RawSlotReadsBack | src/reconstruct.rs:313-342 | the same through a built page |
| PageRead.RawVisibility | src/reconstruct.rs:332 | for every tuple that can be taken off a page: placed raw it has the same xids, and is as visible as before if and only if the answer did not need the lock-only and multixact bits |
| PageRead.RawSlotDecodes | src/reconstruct.rs:313-342 | a raw slot of a built page decodes to the row its bytes hold, and is refused if and only if they hold none |
| PageRead.DecodedComesRaw | src/reconstruct.rs:125-160 | on all pages: a tuple whose row decodes can be taken off the page raw |
| PageRead.SemanticSlotDecodes | src/reconstruct.rs:229-289 | a re-encoded slot of a built page decodes to its exact row, up to 1800 columns |
| PageRead.EmptySlotRefused | src/wal/heap.rs:256-305 | slots without a tuple decode to an error |
| PageRead.ChecksumVerifies | src/reconstruct.rs:442-448 | the stamped checksum is what verification recomputes, and nonzero |
| HotChain.FindVisible | src/fragment.rs:172-199 | the bounded loop is the chain walk `WalkFrom` is about, on every page |
| HotChain.Emit | src/fragment.rs:93-109 | all roots first, then the visible version of each chain; an error anywhere fails the page |
| HotChain.EmitRaw | src/fragment.rs:117-134 | reads a page exactly when `Emit` does, with the same rows, each with the tuple its root's chain shows |
| HotChain.RootsThenRows | src/fragment.rs:147-167 | which is what going line pointer by line pointer gives |
| HotChain.WalkFrom | src/fragment.rs:172-199 | from any version reached, the walk finds the chain's last committed version, or none when a committed deleter ended it |
| HotChain.ChainsAreShort | src/fragment.rs:186-198 | at most 291 versions fit a page, so no chain of distinct versions meets the 1024 bound |
| HotChain.EmitCollapsesChains | src/fragment.rs:93-109 | every page built from slots, re-encoded or raw, whose chains link xmax to the successor's xmin, committed front to back: it is read if and only if the version each root shows decodes, and then yields exactly one row per root with something to show: its last committed version, under the root's offnum, never a heap-only tuple |
| HotChain.DemotedVisibility | src/reconstruct.rs:332 | a tuple taken off one page and placed raw on another is as visible there as it was if and only if the answer did not need the bits its header loses |
| HotChain.LockedRowVanishes | src/reconstruct.rs:332 | a tuple with committed inserter and committed locker: shown, and hidden once placed raw |
| Slru.XidFieldsDistinct | src/clog.rs:73-76 | distinct xids have distinct 2-bit fields |
| Slru.MemberBytesDisjoint | src/multixact.rs:86-92 | distinct members of a page occupy disjoint bytes within it |
| Slru.StatusRefines | src/clog.rs:83-93 | the packed status of an xid is its status in the server |
| Slru.OffsetRefines | src/multixact.rs:73-82 | the packed offset of a multixact is its offset |
| Slru.MemberRefines | src/multixact.rs:94-101 | the packed member is the member |
| Slru.UpdaterRefines | src/multixact.rs:107-124 | the search over packed members finds the updater, and refuses exactly when the list's end is not written yet |
| Slru.PackedVisibility | src/clog.rs:142-193 | visibility from packed CLOG, offsets and members pages is visibility in the server's state, multixact updaters included |
| Timetravel.BaseIsNewest | src/timetravel.rs:64-70 | the base is the newest covering fragment at or below the read, none only when there is none |
| Timetravel.ServedExactlyWhen | src/timetravel.rs:76-89 | a read is served, with its whole tail retained, if and only if a covering fragment lies between the floor and the read |
| Timetravel.GateIsExact | src/timetravel.rs:97-103 | the gate opens if and only if every block of the range is served at every read from the horizon on |
| Timetravel.HorizonIsLowest | src/timetravel.rs:135-137 | the effective horizon is the least of the configured one and the branch points |
| Timetravel.GateIsSoundForBranches | src/timetravel.rs:121-131 | with the gate open at the effective horizon every branch read from there on, on a page the branch never covered, is served by the parent |
| Timetravel.OwnFragmentHides | src/timetravel.rs:121-131 | for every branch and every read above its branch point: a page the parent serves there is refused if and only if some own fragment covers the block and none of them is at the read itself or from the own floor up to the read |
| Timetravel.NewerOwnFragmentHides | src/timetravel.rs:125-128 | an instance of it |
| Numeric.Trim | src/wal/heap.rs:1035-1041 | the two loops strip outer zero groups; `StoreKeepsDigits` shows no digit changes |
| Numeric.RenderInt | src/wal/heap.rs:969-980 | the integer part, without leading zeros |
| Numeric.RenderDigits | src/wal/heap.rs:955-988 | the loops render sign, integer part and exactly dscale fractional digits |
| Numeric.StoreKeepsDigits | src/wal/heap.rs:994-1056 | storing a literal in base-10000 groups keeps its digit at every decimal exponent |
| Numeric.RenderStoreIsCanonical | src/wal/heap.rs:955-988 | rendering what was stored gives the canonical decimal of the same value and scale |
| Numeric.BytesRoundTrip | src/wal/heap.rs:883-922 | the stored bytes read back as the number if and only if its scale fits 14 bits and its weight 16 |
| Numeric.ShortRoundTrip | src/wal/heap.rs:883-922 | every number within the short form's fields reads back from it |
| Numeric.NumericRoundTrip | src/wal/heap.rs:994-1056 | for every accepted literal within those fields, reading what was written gives its canonical decimal: no leading zeros, no sign on zero, same scale |
| NumericValue.DigitsDenoteGroups | src/wal/heap.rs:955-988 | all decimal digits read in base ten are the groups read in base 10000 |
| NumericValue.RenderDenotes | src/wal/heap.rs:955-988 | for every weight and scale the rendered string, read as a literal, has the number's sign, exactly dscale fractional digits, no leading zeros, and its digits are the floor of the sum of groups[k] * 10000^(weight-k), times 10^dscale |
| NumericNormal.StoreUndoesRender | src/wal/heap.rs:955-1041 | rendering a stored number and storing the result gives it back if and only if its groups are trimmed at both ends, zero is unsigned at weight zero, and no digit lies past its scale |
| NumericNormal.RecodesExactly | src/wal/heap.rs:883-1056 | on all bytes: a stored numeric comes back from its text byte for byte if and only if it is in that form, long and whole, or a bare special value |
| NumericNormal.ShortFormIsLost | src/wal/heap.rs:897-905 | no numeric in the short form does |
| Jsonb.Ends | src/wal/heap.rs:1112-1124 | the running ends of all entries, or a refusal exactly when an entry word is missing |
| Jsonb.WriteValue | src/wal/heap.rs:1128-1154 | one entry appended to the output, by its type |
| Jsonb.Write | src/wal/heap.rs:1094-1176 | the recursive writer appends exactly the container's text, or refuses |
| Jsonb.EndRead | src/wal/heap.rs:1109-1124 | however each entry is stored, length or end offset, the running end is where its data ends |
| Jsonb.SlotRead | src/wal/heap.rs:1126-1152 | an entry's bytes are where the decoder looks, and skipping the pad leaves exactly its value |
| Jsonb.NumericRead | src/wal/heap.rs:1179-1190 | a numeric behind a short or a long header is rendered |
| Jsonb.BoxRenders | src/wal/heap.rs:1094-1176 | for every JSON tree laid out as a container, any subset of entries storing offsets, numerics and containers aligned: the decoder gives its canonical text if and only if it nests within the depth limit, and refuses it otherwise |

## Left out

- SQL discovery, COPY, pgwire, the pageserver oracle, HTTP, Parquet and Delta writers: I/O. `append` is one atomic step that
  carries its watermarks, as section "Transaction Identifiers" of the Delta protocol promises.
- Snapshots: a consistent cut taken under the table lock (src/snapshot.rs:3-9) is an enabling condition of a step, not
  derived from the lock.
- DDL routing, attach, rename and the filenode watermark: catalog-driven. A remap is modelled on its own (`Remap`), not as a
  step of the protocol, whose theorems are about runs without one.
- TOAST values in rows: the row decoder resolves them by a parameter; the chunk cache is modelled beside the protocol
  (`ToastCache`, `ToastGap`), with a chunk standing for the record that holds it.
- Value conversions: floats are their bits, lossy UTF-8 decoding and encoding are parameters of `ColumnTypes`, and shifting a
  date or timestamp by its epoch wraps, as an unchecked build does.
- Undecodable records: the physical theorems are about streams whose records decode against the version they target.
- WAL retention and slot position: the reported position may exceed an idle table's restart; that the WAL is still there is
  not claimed. Neither is `min_lsn` read-your-writes.
- CRC32C, lz4, zstd, the mixing function of the page checksum, JSON string quoting: parameters.
- LSNs, xids and sequence numbers are unbounded naturals; only the fields of codecs have their widths.
- Numeric literals with surrounding blanks, and the binary COPY form.
- Reads past the end that the source answers with a panic (image holes over 8192 bytes, a null bitmap too short, jsonb
  padding past its entry) are refusals here.
- Engine.Core.HandleChange: no oracle page fetch when the pre-image or its bytes are missing (src/engine.rs:830-860), no
  full-page images and no TOAST chunk branch.
- PhysicalRun.DecodeIsTrue: likewise without the oracle fallback.
- Reload.ReencodesExactly: without dropped columns' bytes. `Reload.DroppedBytesAreLost` has them where nothing is aligned
  and `Reload.OtherLengthIsLost` wherever they change the length; `Reload.DroppedZeroHides` shows that under alignment they
  may coincide with padding.
- PhysicalRun.ViewIsTableAlways: needs the key to identify what each op replaces; `PhysicalRun.LogShowsHistoryAlways` shows
  exactly that is needed over a whole history.
- Tail.TailStore.MarkFlushed: `Instant` readings are arguments; `clear` is left out.
- Chunking.ReadsBackExactlyWhen: for streams that end with a record; behind the last record a stranded reader may wait in
  silence. `Framing.FramingRoundTrip` has any ending.
- WalReader.WalReader.Feed: a reader that failed is not used again.
- Opcode tables, catalog row offsets and type maps: single-branch facts.
