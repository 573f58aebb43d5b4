# A verified model of libmdbx: dump and load, snapshots, crashes, page lists

This project models, in Dafny 4.11, the parts of libmdbx where a mistake loses data, and proves what they
promise. `dafny verify dfyconfig.toml` checks all of it.

**Dump and load** (`Bytes`, `Codec`, `Stdio`, `Readline`, `Numbers`, `Header*`, `Table`, `Dump`, `Loader`,
`RoundTrip`, `LeadingSpaces`, `LoaderTheorems`, `Rescue`, `Session`, `Pipeline`). The printer of `mdbx_dump.c` and the
parser of `mdbx_load.c` with their control flow: the one-character pushback, the doubling buffer, decoding in place,
the marker for a repeated key, header lines, the static variables that survive from table to table, and checkpoints by
number and by space. `Loader` gives the program as functions on values; `Session` is the program on its buffers, and
is proved to refine it. The database is a main table, which also holds the named tables, each an ordered multimap,
with committed and pending contents.

**Snapshots and crashes** (`Troika`, `Metas`, `ReaderTable`, `Pages`, `Mvcc`, `MvccTheorems`). One step system:
readers that begin, end, park and unpark; the writer's lock-free scan of the reader table, slot by slot; ousting; copy
on write, retiring, reclaiming, giving back; commits with and without sync; flushes; and a crash at any step, followed
by the recovery that the first opening process does, itself cut short by further crashes or not. Each step is one
atomic access to shared memory or one system call, but for those named under the assumptions. The choice among the
three meta pages is the program's own table, proved equal to the choice by comparison.

**Lists** (`BinarySearch`, `Pnl`, `Rkl`). Page number lists and lists of transaction numbers as the arrays they are,
with the shared binary search, allocation arithmetic, insertion, cutting, best fit, and the exchange of runs.

**Options** (`Getopt`). The small option parser with its state kept across calls.

Where the code does not do what its documentation, its messages or its names say, the model does what the code
does, and the exact condition under which both agree is proved:

- `mdbx_load -N` is documented to skip existing records, but the `continue` re-tests the loop condition and leaves the
  record loop, so the rest of the table is not loaded (`LoaderTheorems.NoOverwriteMeetsItsDocIff`). The same
  `continue` ends the loop under `-r` at the first record whose size is refused, where the message says "skip line"
  (`Rescue.RescueMeetsItsMessageIff`).
- `mdbx_load -p` sets the sequence first and empties the table then, which resets the sequence of a table that had
  rows (`RoundTrip.SequenceSurvivesIff`, witness `RoundTrip.SequenceIsLost`).
- `mdbx_dump -a` is documented to dump the main table and all others. It prints the main table only where it finds no
  other, passes over tables whose name holds a NUL, and of a main table whose keys all hold one it prints nothing and
  still reports success (`Pipeline.MainComesBackIff`, `Pipeline.NamedComesBackIff`, witnesses `Pipeline.MainIsLost`
  and `Pipeline.BinaryKeysAreLost`).
- Not all global values come back from a dump: the geometry is printed only where its bounds differ, the canary only
  where its v is not 0 (`HeaderTheorems.GlobalValuesComeBackIff`), and `mdbx_canary_put()` replaces v by the number of
  the loading transaction (`RoundTrip.CanaryComesBackIff`, witnesses `RoundTrip.CanaryIsLost`).
- In print format a value that begins with a space is read as the marker for a repeated value, so a dump with such a
  value does not give the tables back (`LeadingSpaces.RoundTripIff`).
- A table name is cut when its header line does not fit the line buffer, and at a newline
  (`HeaderTheorems.NameSurvivesIff`, witnesses `HeaderTheorems.NamesAreCut`), and the format of one table carries over
  to the next exactly when its header does not name one (`HeaderTheorems.FormatFromHeaderIff`, witness
  `HeaderTheorems.FormatLeaks`); headers printed by `mdbx_dump` do (`HeaderTheorems.PrintedHeaderNamesFormat`).
- `pnl_contains_span()` does not test that its search stayed inside the list, so the element behind it can make a page
  below all entries look like a member (`Pnl.StaleHitIsWrong`).
- `pnl_get_best_sequence()` subtracts the length from the limit without a test, so a run longer than the limit is not
  limited at all (`Pnl.DetentIsKeptIff`, witness `Pnl.DetentIsPassed`). Its callers do not get there: mdbx.c:39415
  tests the limit first, and mdbx.c:39820 and 39911 pass a limit that is no less than the number of payload pages
  (mdbx.c:40042, 40070-40072), to which the pages of the run belong.
- The bound asserted in `pnl_bytes2size()` applies before the size is halved, so it fails for the upper half of the
  lengths allowed (`Pnl.SizeAssertedIff`).
- `rkl_push()` of a number that is in the list already loses the list's last entry when two or more are greater
  (`Rkl.DuplicateIsHarmlessIff`).

The table below cites, for the engine, the place where the headers declare or promise a thing, and in brackets the
lines of its body in `mdbx.c`.

## Assumptions

- Input text is NUL-free; `isprint` means 0x20 to 0x7e; `char` is signed and eight bits wide; buffer lengths fit an
  `int`; memory for the loader does not run out.
- The engine below the loader is a parameter: an outcome for each put, the space figures, the number of the first
  write transaction, and the key order of a table with given flags. Where a theorem needs it, puts succeed and the
  order is a strict total one.
- Shared memory is sequentially consistent. A reader's taps of the metas are one step each; the head it first sees may
  be any older one, its retired counter is read in a further step, and the check afterwards compares with the head of
  that moment. Slots are bound to their threads, an unbound slot is an idle one. A reader that
  unparks reads the mark and the transaction of its slot in one step, before taking the mark back and after it.
- A meta page write is one write: until it is flushed a crash leaves the old content, the new one, or a torn page
  whose two transaction numbers differ, which counts as unusable. A page written since the last data sync may hold
  anything after a crash; others hold what was written.
- Before a durable commit's meta is written all data pages are synced, and the meta is flushed before the call
  returns. Left-over pages are given back under transaction numbers up to the cached oldest.
- `malloc()` and `realloc()` return nothing, or a block of at least the size asked for.

## Model

| member | source | states |
|---|---|---|
| `Codec.DecodeEncode` | mdbx_dump.c:73-88 | reading back what was printed for any byte string gives that string, in print and in bytevalue format |
| `Codec.PrintRoundTrip` | mdbx_load.c:437-452 | the same for the print decoder alone: escapes, doubled backslashes and plain characters undo the printer |
| `Codec.HexRoundTrip` | mdbx_load.c:453-463 | the same for the bytevalue decoder alone |
| `Codec.EncodedDigits` | mdbx_dump.c:73-88 | the two digits printed for a byte are hex digits, are read as that byte, and are no newline, NUL, space or backslash |
| `Codec.EncodedHasNoNewline` | mdbx_dump.c:73-88 | printed text never holds the line terminator or a NUL, whatever bytes are printed |
| `Codec.HexAcceptedIff` | mdbx_load.c:453-463 | a bytevalue line is refused exactly for odd length or a character that is no hex digit |
| `Codec.PrintAcceptedIff` | mdbx_load.c:437-452 | a print line is refused exactly when, at some token boundary, a backslash is followed neither by a backslash nor by two hex digits |
| `Codec.Unhex` | mdbx_load.c:362-372 | the digit arithmetic, with its char-width wrap-around, yields the byte the two digits stand for, for every pair of hex digits in either case |
| `Codec.Stdout.DumpVal` | mdbx_dump.c:73-88 | the output grows by exactly the text of the value, for every byte string and both formats |
| `Codec.DecodeInPlace` | mdbx_load.c:432-465 | decoding inside the buffer succeeds exactly when the line decodes, and leaves the decoded bytes at its front |
| `Codec.DecodePrintInPlace` | mdbx_load.c:437-452 | the write position never passes the read position, and the front of the buffer ends up as the decoded line |
| `Codec.DecodeHexInPlace` | mdbx_load.c:453-463 | the same for pairs of hex digits; odd length and non-digits are refused |
| `Stdio.Stdin.Fgets` | mdbx_load.c:386 | at most n - 1 bytes up to and with the first newline are stored and terminated, the rest of the input stays, and nothing in front of the target changes |
| `Stdio.ChunkIsFgetsLen` | mdbx_load.c:405-435 | the chunk one fgets() takes is determined by the input and the size alone |
| `Readline.ReadOne` | mdbx_load.c:374-468 | the call as written, with its pushback and growing buffer, returns what the line function of the input says, and where it reports the repeat marker it leaves the output value, the buffer and its contents untouched |
| `Readline.Assemble` | mdbx_load.c:405-435 | for a line of any length the doubling loop assembles exactly the line, whatever the chunk boundaries, with room for the terminator at every turn |
| `Readline.NextChunk` | mdbx_load.c:415-431 | one turn of the doubling loop writes inside the enlarged block and keeps what was there |
| `Readline.DecodeBuf` | mdbx_load.c:432-465 | the value returned points into the buffer and holds the decoded bytes; a malformed line is an error |
| `Readline.HeaderModeProgress` | mdbx_load.c:383-409 | with headers every successful call, the repeat marker and the end mark included, shortens the input net of pushback |
| `Readline.NoHeaderStuckIff` | mdbx_load.c:383-403 | without headers a call consumes nothing exactly when the next character is a space, and then no later call does, for any number of calls on either buffer |
| `Readline.ReadPrinted` | mdbx_load.c:374-468 | a printed value in front of any text is read back whole, and the text behind it is left |
| `Readline.ReadPrintedSpace` | mdbx_load.c:402-403 | a print-format value that begins with a space is taken for the repeat marker |
| `Readline.PrintedValueRoundTripIff` | mdbx_load.c:398-403 | in print format reading back gives the value exactly when it does not begin with a space |
| `Readline.ReadRepeatMarker` | mdbx_load.c:398-403 | the single space of the concise format is read as the marker and nothing more is consumed |
| `Numbers.StrToULLDec` | mdbx_load.c:100-112 | strtoull() with base 0 reads a printed decimal number below 2^64 back, to the end |
| `Numbers.ScanU64Dec` | mdbx_load.c:293-327 | sscanf() reads a printed decimal number back up to the next separator |
| `HeaderReader.ValStrInPlace` | mdbx_load.c:83-98 | matching, refusing and cutting the value out of the line in place agree with the value of the line, and a line that does not match is left as it was |
| `HeaderReader.ApplyInPlace` | mdbx_load.c:177-351 | the chain of keywords on the buffer has the effect that the line's text determines |
| `HeaderProofs.KeywordLine` | mdbx_load.c:177-351 | a line made of a keyword and a value reaches that keyword's effect, although other keywords are tried first and some are prefixes of others |
| `HeaderProofs.HeaderRuns` | mdbx_dump.c:120-162 | the printed header lines, applied one after the other, lead from the reset state to the loaded one |
| `HeaderProofs.ParseLines` | mdbx_load.c:168-175 | a text of lines that fit the buffer is parsed line by line, whatever follows it |
| `HeaderTheorems.HeaderRoundTrip` | mdbx_load.c:159-354 | parsing a printed header recovers name, format, sequence and the flags closed by 'any duplicate-kind flag implies dupsort', the geometry where upper differs from lower, the canary where its v is not 0, and leaves what follows |
| `HeaderTheorems.GlobalValuesComeBackIff` | mdbx_dump.c:120-137 | exactly when a geometry, map size or canary is recovered: upper differs from lower, the size is in range, v is not 0, or the value was there before |
| `HeaderTheorems.NameSurvivesIff` | mdbx_load.c:170 | of the names without NUL exactly those survive that are not empty, hold no newline, and whose line fits the line buffer, 4096 bytes with the terminator |
| `HeaderTheorems.NamesAreCut` | mdbx_dump.c:140-141 | the witnesses: a name with a newline, the empty one, and one of 4088 characters |
| `HeaderTheorems.NameBounded` | mdbx_load.c:170 | a name that comes out of any header is not empty, holds no newline and is no longer than the line buffer |
| `HeaderTheorems.NothingLeaksFromEarlierTables` | mdbx_load.c:160-166 | name, flags and sequence after a header depend on that header alone, not on the tables loaded before |
| `HeaderTheorems.FormatFromHeaderIff` | mdbx_load.c:202-211 | behind tables of different formats a header leads to one format if and only if some line of it names one; otherwise each keeps its own |
| `HeaderTheorems.PrintedHeaderNamesFormat` | mdbx_dump.c:120-162 | every printed header names its format, whatever the name of its table, so a dump made by mdbx_dump is not concerned |
| `HeaderTheorems.FormatLeaks` | mdbx_load.c:202-211 | the witness: a header that consists of its end mark keeps either format |
| `Table.UpsertIsPut` | mdbx_load.c:826 | a put keeps the table sorted, adds the record and removes exactly those in its place |
| `Table.UpsertAppends` | mdbx_load.c:826 | putting records in order appends them |
| `Dump.Cursor.NextDup` | mdbx_dump.c:184-195 | the cursor moves on exactly when the next row has the same key |
| `Dump.Dumper.DumpTbl` | mdbx_dump.c:98-205 | header, records and end mark of a table are printed, and the global part only for the first one |
| `Dump.Dumper.DumpMain` | mdbx_dump.c:400-496 | the loop over the main table's keys prints the tables found, passing over names with a NUL and plain records; only when there is none, it prints the main table, if that holds records |
| `Dump.Dumper.DumpRows` | mdbx_dump.c:176-205 | the nested cursor loops print every record once and in order; in concise style a key is replaced by a space exactly where it repeats |
| `Session.Session.ReadHdr` | mdbx_load.c:159-354 | the loop over header lines in the data buffer ends, and yields what the text determines |
| `Session.Session.ReadRecord` | mdbx_load.c:813-875 | one turn of the record loop: key and datum are the bytes the two lines or markers stand for, even where a buffer was moved in between |
| `Session.Session.ReadDatum` | mdbx_load.c:818-825 | reading the datum leaves the key's bytes alone, so a put behind a repeat marker sees the last explicit key |
| `Session.Session.PutRecord` | mdbx_load.c:826-838 | what a put's outcome leads to: next record, end of the record loop, or bailout with the last checkpoint kept |
| `Session.Session.MayCheckpoint` | mdbx_load.c:840-866 | the transaction is checkpointed by number of puts or by space, and the counter restarts |
| `Session.Session.ReadRecords` | mdbx_load.c:811-875 | the record loop ends on every input and keeps the last checkpoint on a bailout |
| `Session.Session.Run` | mdbx_load.c:741-915 | the whole program on its buffers and static variables refines the loader on values: same outcome, same committed database, for every input |
| `RoundTrip.OneRecord` | mdbx_load.c:813-838 | one printed record is read and put, with the key carried over where it was left out |
| `RoundTrip.AllRecords` | mdbx_load.c:811-875 | all printed records of a table are put in order, up to the end mark |
| `RoundTrip.TablesRestored` | mdbx_load.c:741-892 | the tables of a dump, the main one alone or named ones, are restored one by one into any database that admits them: where each is absent or empty, or is purged |
| `RoundTrip.LoadRestores` | mdbx_load.c:741-892 | so does the whole program: each table ends up in its place, and the canary is put |
| `RoundTrip.DumpLoadRoundTrip` | mdbx_load.c:741-892 | loading a dump into a new database gives back exactly the same tables, with rows in order, sequence and flags, concise or not and for every batch size; of the canary what CanaryComesBackIff says |
| `LeadingSpaces.RoundTripIff` | mdbx_load.c:398-403 | it does so if and only if the dump is in bytevalue format or no key and no datum begins with a space |
| `RoundTrip.CanaryComesBackIff` | mdbx_dump.c:131-137 | of the canary, x, y and z come back exactly when v is not 0 or they are all 0; v comes back exactly when it equals the number of the loading transaction, or is 0 (body of mdbx_canary_put(): mdbx.c, lines 15703-15719) |
| `RoundTrip.CanaryIsLost` | mdbx_load.c:753-761 | the witnesses: a canary 5, 7, 8, 9 comes back with v = 1, and 0, 7, 8, 9 as zeros |
| `RoundTrip.OpenKeepsSequenceIff` | mdbx_load.c:774-800 | opening a table keeps the header's sequence exactly when nothing is purged, the sequence is 0, or the table was absent or empty (body of tbl_purge(): mdbx.c, lines 63706-63731) |
| `RoundTrip.SequenceSurvivesIff` | mdbx_load.c:774-800 | loading a dump over a database gives each table its rows and flags, and its sequence exactly under that condition |
| `RoundTrip.SequenceIsLost` | mdbx_load.c:795 | the witness: sequence 5 loaded with -p over a table with one row becomes 0 |
| `Pipeline.DumpClean` | mdbx_dump.c:98-205 | a dump holds no NUL, whatever the keys and data |
| `Pipeline.DumpAndLoad` | mdbx_dump.c:98-205 | the printer with -a and the loader at work, one behind the other: the run succeeds exactly when something was dumped, and what was dumped is back |
| `Pipeline.EachTableIsBack` | mdbx_load.c:741-892 | each dumped table is found under its name as it was, and nothing else is found |
| `Pipeline.MainComesBackIff` | mdbx_dump.c:220 | -a is to dump the main table and all others: the main table comes back, whole, exactly when no named table is found and some key of it holds no NUL; loading succeeds exactly when anything is found |
| `Pipeline.NamedComesBackIff` | mdbx_dump.c:423-424 | a named table comes back, whole, exactly when its name holds no NUL |
| `Pipeline.MainIsLost` | mdbx_dump.c:487-488 | the witness: one record of the main table and a table whose name holds a NUL are lost beside another table |
| `Pipeline.BinaryKeysAreLost` | mdbx_dump.c:423-424 | the witness: of a main table with one integer key nothing is dumped |
| `LoaderTheorems.BatchingIsInvisible` | mdbx_load.c:840-866 | if the run succeeds for one batch size and dirty limit, it succeeds for every other with the same committed contents |
| `LoaderTheorems.BailoutKeepsCheckpointed` | mdbx_load.c:909-915 | after a bailout the committed contents are those of the records put before the last checkpoint; fewer records than the batch size are lost |
| `LoaderTheorems.PrintedBailoutCommits` | mdbx_load.c:840-866 | when the put of the m-th printed row fails and space is ample, the committed rows are the first b * (m / b) printed ones for batches of b, none without batches |
| `LoaderTheorems.NoOverwriteStops` | mdbx_load.c:827-828 | under -N the record loop ends at the first record that exists already |
| `LoaderTheorems.NoOverwriteMeetsItsDocIff` | mdbx_load.c:490 | -N skips just the existing records, as its help says, exactly when no new record stands behind an existing one |
| `LoaderTheorems.NoOverwriteLosesRows` | mdbx_load.c:827-828 | three rows of which the second exists: the third is lost |
| `Rescue.RescueStops` | mdbx_load.c:829-833 | under -r the record loop ends at the first record whose size the engine refuses |
| `Rescue.RescueMeetsItsMessageIff` | mdbx_load.c:829-833 | -r skips just the refused lines, as its message says, exactly when every accepted row behind a refused one was in the table before |
| `Rescue.RescueLosesRows` | mdbx_load.c:829-833 | three rows of which the second is refused: the third is lost |
| `Troika.TableIsPack` | mdbx.c++:45-55 | the precomputed table holds, for each of the 216 outcomes of comparing three metas, the choice by comparison (body: mdbx.c, lines 51591-51603) |
| `Troika.TapShadow` | mdbx.c++:45-55 | the choice looked up in the table is the choice by comparison, for all metas (body: mdbx.c, lines 51651-51669) |
| `Troika.TapIsSound` | mdbx.c++:45-55 | no meta is newer than the head, none is steadier than the steady point, and the slot to overwrite is neither of the two (body: mdbx.c, lines 51561-51580) |
| `Metas.Choices` | mdbx.c++:45-55 | in a reachable state the head slot holds the newest transaction, and outside a commit the steady point is the one certainly on disk and the tail is not (body: mdbx.c, lines 51561-51580) |
| `Metas.WriteTailKeepsInv` | mdbx.h:1336-1345 | writing a new meta to the tail keeps what every crash may leave distinct and the base on disk (body: mdbx.c, lines 45023-45068) |
| `Metas.UpgradeKeepsInv` | mdbx.h:1411-1418 | so does making a weak head steady in place (body: mdbx.c, lines 45013-45021) |
| `Metas.FlushKeepsInv` | mdbx.h:1336-1345 | so does flushing, after which a steady meta just written is the base (body: mdbx.c, lines 45087-45107) |
| `Metas.MetaArea.Rollback` | mdbx.h:2938-2946 | the opening loop ends; it refuses exactly clashing metas, an invalid steady point, and metas none of which is steady unless the head is valid and of the running system; a read-only process asks for recovery exactly where there is something to repair; otherwise exactly the metas newer than the steady point and than valid ones of the running system are overwritten (body: mdbx.c, lines 44598-44707) |
| `Metas.CrashIsRecoverable` | mdbx.h:1402-1407 | whatever a crash leaves of unflushed metas, the database opens, at a steady transaction no older than the base (body: mdbx.c, lines 44598-44707) |
| `Metas.RecoveredKeepsInv` | mdbx.h:1402-1407 | the metas after recovery are as good as before, with the recovered transaction for the head (body: mdbx.c, lines 44598-44707) |
| `Metas.RecoveryRestarts` | mdbx.h:1402-1407 | recovery ends in the same metas however often and wherever it is itself cut short by a crash (body: mdbx.c, lines 44598-44707) |
| `ReaderTable.ReaderStepKeepsInv` | mdbx-internals.h:3098-3137 | every atomic step of a reader, at any point of the writer's scan or oust, keeps the reader table's invariant (body: mdbx.c, lines 67651-67719) |
| `ReaderTable.WriterStepKeepsInv` | mdbx-internals.h:3124-3137 | so does every atomic step of the slot-by-slot scan and of ousting, at any point of any reader (body: mdbx.c, lines 52346-52418) |
| `ReaderTable.UndisturbedScan` | mdbx-internals.h:3124-3130 | with no reader interfering, a scan sets the cached oldest to exactly the least transaction posted, or to the steady one (body: mdbx.c, lines 52346-52418) |
| `ReaderTable.ActiveAboveFloor` | mdbx-internals.h:3127-3137 | the cached oldest never passes an active reader's transaction |
| `ReaderTable.OnlyParkedAreOusted` | mdbx.h:6225-6235 | a writer's step marks only readers parked at that moment and leaves active and just restored ones alone (body: mdbx.c, lines 52626-52663) |
| `ReaderTable.TakenBackVerifies` | mdbx.h:6259-6289 | once the mark is taken back, the check behind it cannot fail (body: mdbx.c, lines 67897-67918) |
| `Pages.TargetIsUnused` | mdbx-internals.h:3111-3115 | a step of the write transaction writes only pages that no snapshot from the oldest live one on uses (body: mdbx.c, lines 46698-46765) |
| `Pages.StepKeepsStore` | mdbx.h:1402-1411 | so no step of the writer touches the contents of a live snapshot (body: mdbx.c, lines 46698-46765) |
| `Pages.StepKeepsTxn` | mdbx-internals.h:2906-2907 | reclaiming, allocating, extending, rewriting, retiring and refunding keep every page in exactly one place (body: mdbx.c, lines 46698-46765) |
| `Pages.CommitKeepsInv` | mdbx-internals.h:2906-2907 | a commit, with its retired pages as a record of its own and left-over pages given back, yields a snapshot whose pages are each in the trees or in one GC record (body: mdbx.c, lines 66612-66761) |
| `Pages.CounterDifference` | mdbx-internals.h:2846-2850 | the difference of two snapshots' retired counters is the number of pages retired between them (body: mdbx.c, lines 66739-66740) |
| `Pages.RollbackKeepsInv` | mdbx.h:1361-1370 | rolling back to a live snapshot whose pages had reached the disk gives a sound store, whatever the unsynced pages hold |
| `Mvcc.NextKeepsInv` | mdbx-internals.h:3127-3137 | every step of readers, writer, flushes and crashes keeps the invariant of the whole system |
| `Mvcc.RunKeepsInv` | mdbx-internals.h:3127-3137 | so does every run |
| `Mvcc.CommitKeeps` | mdbx.h:1330-1345 | a commit, durable or weak, keeps every steady meta a crash may bring up on a snapshot that is on disk (body: mdbx.c, lines 66612-66761) |
| `Mvcc.CrashKeeps` | mdbx.h:1402-1407 | so does a crash with the recovery behind it (body: mdbx.c, lines 44598-44707) |
| `MvccTheorems.ActiveSnapshotIsWhole` | mdbx-internals.h:3127-3137 | in every reachable state an active reader's snapshot is whole in memory, at or above the cached oldest, and untouched by whatever the writer writes next |
| `MvccTheorems.PagesArePartitioned` | mdbx-internals.h:2906-2907 | in every reachable state and snapshot each page behind the metas is in the trees or in exactly one GC record, never both |
| `MvccTheorems.LagIsPagesRetired` | mdbx-internals.h:3172-3175 | the head's retired counter less a reader's is the number of pages retired since that reader's snapshot, although the counter is read in an access of its own |
| `MvccTheorems.UnparkFindsItsSnapshot` | mdbx.h:6259-6292 | over every run of park, oust, reclaim, commit and unpark, a reader active again in its parked transaction finds its original snapshot unrecycled |
| `MvccTheorems.OnlyParkedBecomeOusted` | mdbx.h:6225-6235 | over every run only parked readers become ousted (body: mdbx.c, lines 52626-52663) |
| `MvccTheorems.OustedNeverComesBack` | mdbx.h:6262-6264 | over every run a reader once ousted neither takes its mark back nor gets active again before it starts a new transaction (body: mdbx.c, lines 67875-67935) |
| `MvccTheorems.CrashIsSurvived` | mdbx.h:1361-1370 | a crash at any step, keeping any part of what was not flushed: the database opens at the newest steady meta left, whose snapshot is whole and a committed one |
| `MvccTheorems.SurvivesEveryCrashIff` | mdbx.h:1390-1400 | a committed transaction survives whatever a crash leaves exactly when it is no newer than the last steady one certainly on disk |
| `Metas.WorstImageIsBase` | mdbx.h:1390-1400 | a crash can leave the last steady meta certainly on disk as the newest one |
| `MvccTheorems.AckedIsNeverLost` | mdbx.h:1361-1366 | over every run, crashes included, no acknowledged durable commit is lost and nothing before it changes |
| `MvccTheorems.DurableCommitIsAcked` | mdbx.h:1361-1366 | after the flush behind a steady commit its transaction is the acknowledged one (body: mdbx.c, lines 45087-45124) |
| `BinarySearch.Bsearch` | mdbx-internals.h:3943-3960 | the search without branches finds the first element that is not before the item, for every length, whatever the element behind the list holds (body: mdbx.c, lines 7704-7749) |
| `BinarySearch.BsearchBranching` | mdbx-internals.h:3943-3960 | so does the form with branches (body: mdbx.c, lines 7704-7749) |
| `Pnl.AllocationRoundTrip` | mdbx-internals.h:3857-3881 | for every wanted length the allocation converts back to at least that length with under half a granule of slack and does not overflow |
| `Pnl.SizeAssertedIff` | mdbx-internals.h:3859 | the asserted bound holds for exactly the lengths up to 1073774588, about half of those allowed |
| `Pnl.SpanAt` | mdbx-internals.h:3973-3982 | in a descending list a run of pages is present exactly when one entry has the right distance |
| `Pnl.SpansCover` | mdbx-internals.h:3987-3994 | stepping by pnl_scan_span() covers each entry exactly once and in order |
| `Pnl.SpansAreMaximal` | mdbx-internals.h:3987-3994 | the runs are maximal: there is a gap below each |
| `Pnl.List.ScanSpan` | mdbx-internals.h:3987-3994 | the loop returns the length of the contiguous run at the given place |
| `Pnl.List.Search` | mdbx-internals.h:3943-3960 | the place of the first entry that is not above the page (body: mdbx.c, lines 61614-61624) |
| `Pnl.List.Contains` | mdbx-internals.h:3968-3971 | true exactly for the pages in the list |
| `Pnl.List.ContainsSpan` | mdbx-internals.h:3973-3982 | true exactly when all pages of the run are members, or the element behind the list makes a stale hit |
| `Pnl.StaleHitIsWrong` | mdbx-internals.h:3979 | a stale hit is always a wrong answer, and cannot happen for a page not below the least entry |
| `Pnl.CutPageIsStillReported` | mdbx-internals.h:3979 | a page just cut off the tail of a list is still reported as a member |
| `Pnl.List.Reserve` | mdbx-internals.h:3889-3900 | success gives the wanted capacity with the contents preserved, failure changes nothing, and the length error is raised exactly above the limit (body: mdbx.c, lines 61415-61444) |
| `Pnl.List.Append` | mdbx-internals.h:3891-3917 | appending adds the page at the end within the capacity, or changes nothing |
| `Pnl.List.InsertSpan` | mdbx-internals.h:3927 | the run is put at its place in a descending list (body: mdbx.c, lines 61498-61514) |
| `Pnl.InsertedDescendingIff` | mdbx-internals.h:3803-3808 | the list stays descending exactly when none of the run's pages was in it (body: mdbx.c, lines 61498-61514) |
| `Pnl.List.Cut` | mdbx-internals.h:4000 | exactly the entries from a place on are removed (body: mdbx.c, lines 61690-61698) |
| `Pnl.List.Merge` | mdbx-internals.h:3983 | merging in place from the ends, or copying where one list is wholly above the other, gives the merge of the two lists (body: mdbx.c, lines 61540-61595) |
| `Pnl.MergedMembers` | mdbx-internals.h:3983 | the merge holds exactly the pages of both lists (body: mdbx.c, lines 61540-61595) |
| `Pnl.MergedDescendingIff` | mdbx-internals.h:3983 | the merge is descending exactly when no page is in both lists (body: mdbx.c, lines 61540-61595) |
| `Pnl.List.GetBestSequence` | mdbx-internals.h:3996-3997 | the shortest usable run, the lowest of equal ones, is taken from its lower end, or nothing changes (body: mdbx.c, lines 61641-61674) |
| `Pnl.BestSequenceFoundIff` | mdbx-internals.h:3996-3997 | a run is found exactly when the list holds one of that length low enough (body: mdbx.c, lines 61641-61674) |
| `Pnl.BestSequenceTaken` | mdbx-internals.h:3996-3997 | exactly its pages are taken and the list stays descending (body: mdbx.c, lines 61641-61674) |
| `Pnl.DetentIsKeptIff` | mdbx-internals.h:3996-3997 | a page that is returned keeps its run below the limit exactly when the run is not longer than the limit itself, since the difference wraps around (body: mdbx.c, line 61649) |
| `Pnl.DetentIsPassed` | mdbx-internals.h:3996-3997 | the witness: with pages 4 and 3 free, two pages wanted below page 1 are found at 3 (body: mdbx.c, line 61649) |
| `Rkl.RklList.Contain` | mdbx.c++:107-129 | true exactly for the numbers in the interval or in the list (body: mdbx.c, lines 62087-62103) |
| `Rkl.RklList.Push` | mdbx.c++:107-129 | a new number joins the set and nothing else changes in it, through merging, insertion, growth or exchange; what a number already in the list leaves behind is stated exactly (body: mdbx.c, lines 62185-62327) |
| `Rkl.RklList.ExtendSolid` | mdbx.c++:107-129 | the interval takes up the list's entries it now touches; the set gains the number, or a duplicate is reported and nothing changes (body: mdbx.c, lines 62152-62183) |
| `Rkl.RklList.Exchange` | mdbx.c++:107-129 | exchanging a run of the list for the interval, moving entries in place, keeps the set (body: mdbx.c, lines 62251-62323) |
| `Rkl.RklList.Pop` | mdbx.c++:107-129 | the greatest or least number is returned and removed, and only it (body: mdbx.c, lines 62329-62345) |
| `Rkl.DuplicateIsHarmlessIff` | mdbx.c++:107-129 | adding a number already in the list keeps the set, and the order, exactly when at most one list entry is greater (body: mdbx.c, lines 62238-62242) |
| `Rkl.DuplicateLosesTheLast` | mdbx.c++:107-129 | with 10, 20, 30 in the list, adding 10 again loses 30 (body: mdbx.c, lines 62238-62242) |
| `Getopt.Parser.Next` | mdbx-wingetopt.h:71-111 | each call keeps the position at the start of a word or at a real character, and unless it returns EOF moves on; it agrees with the step on values |
| `Getopt.StepKeepsInv` | mdbx-wingetopt.h:71-111 | calls until EOF end, by words and characters left |
| `Getopt.WordCalls` | mdbx-wingetopt.h:79-110 | the calls on one word return its clustered options and its last option with the argument, joined or in the next word |
| `Getopt.RenderedOptionsAreParsed` | mdbx-wingetopt.h:67-111 | for every list of options rendered in any clustered or separate form the calls return exactly that list and then EOF with optind at the first operand, as section 12.2 of the POSIX Base Definitions asks |

## Left out

- HeaderReader.ApplyInPlace: the chain of tests in `readhdr()` is a loop over the list of keywords; the messages for ignored lines are not modelled.
- Session.Session.Run: the table loop without headers (`-T` and its end at the end of file), `-a` (append mode), and errors of engine calls other than opening a table and the puts are not modelled.
- Dump.Dumper.DumpMain: the list mode (`-l`), rescue mode, and tables that cannot be opened for other reasons than being plain records are not modelled.
- RoundTrip.LoadRestores: merging into a table that has rows, without `-p`, is covered by the loader but not by this theorem; table names are such that they survive in their headers (`HeaderTheorems.NameSurvivesIff`).
- LoaderTheorems.BailoutKeepsCheckpointed: a failing `mdbx_txn_info()` or checkpoint is not modelled.
- Rescue.RescueMeetsItsMessageIff: in the main table no row stands under the name of a table; such a put fails and ends the program.
- ReaderTable.ReaderStepKeepsInv: registering and releasing slots, cleaning up after dead processes, the handler for slow readers, and 32-bit compare-and-swap in two halves are not modelled.
- Metas.MetaArea.Rollback: the mode that sticks to one meta, and opening beside another process, are not modelled.
- Mvcc.CommitKeeps: `MDBX_NOMETASYNC` and `MDBX_UTTERLY_NOSYNC`, nested transactions, shrinking the file with its forwarded transaction number, the extra transaction numbers of very large commits, and writing an old meta back after a failed write are not modelled.
- MvccTheorems.UnparkFindsItsSnapshot: a reader that begins anew after being ousted is covered as a new transaction only.
- Pages.StepKeepsTxn: trees are sets of pages with contents; B-tree search, split, merge and the layout of GC records are not modelled, nor is which record or page an allocation picks.
- Reader table, metas and page store are values changed by steps, not objects: what a process sees between two of its own steps is then explicit in the interleaving.
- Pnl.List.ContainsSpan: runs of length 0 are not modelled.
- Pnl.List.GetBestSequence: page number 0, which no list holds, is excluded, since the result 0 says that nothing was found.
- Page list sifting, sorting and cropping; iterating over lists of transaction numbers and their holes, copying and merging them.
- Rkl.RklList.Push: the storage inside the object and the block from `malloc()` are one array; the granule of the allocation size is not modelled.
- Getopt.RenderedOptionsAreParsed: messages to the error stream; what `?` returns for unknown options and missing arguments is part of the step but not of this theorem.
- B-tree operations, defragmentation, the asynchronous executor, file and memory mapping primitives, and the programs for checking, copying, dropping and statistics.
- Signals, user interrupts, error messages and locales.
