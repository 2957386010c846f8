# Toku's sync core, modelled and proved in Dafny

Toku is an offline-first reading tracker. Several devices edit the same library and exchange an
operation log; each device merges the log by itself. This project models the parts that decide whether
the devices end up with the same library, and proves what they promise:

* **Hybrid logical clock** (`Calendar`, `Instant`, `InstantTexts`, `Hlc`, `StampTexts`, `HybridClock`).
  Timestamps, their canonical text, the RFC 3339 reader and writer, the stamp parser, and the mutable clock.
  All comparisons in the program are comparisons of text, so the text must be an order embedding. It is one up
  to counter 9999, and the step from 9999 to 10000 reverses. Over runs the clock follows the latest wall
  reading or remote stamp and leaves it only by counter carries.
* **Merge engine** (`Affinity`, `AffinityTexts`, `Library`, `MergeRules`, `Database`, `MergeEngine`). The tables
  as maps, each merge rule as a function on them, and the engine as a class whose methods run the rules step by
  step. What an op stores and reports is told apart from the rules, from the JSON object it carries and the
  tables before, in `StoredRows`, `StoredRemarks`, `StoredBooks`, `BookUpdates`, `Outcomes` and `RemarkOutcomes`.
  About whole runs: `BookRuns` (convergence, automaton, tombstones), `Ledger` (notes and reviews,
  conflict ledger), `ProgressRuns`, `TagRuns`, `SettingRuns`, `Redelivery`, on top of the last-write-wins
  slots of `Lww`; `DeliveryOrder` shows where the order of delivery does matter.
* **Op log** (`SyncLog`, `SyncRepository`, `PushQueue`, `Backfill`, `BackfillTheorem`, `BackfillJob`,
  `BackfillArrival`, `ReadableRows`). Seeded emission, the push queue, and the synthesis of missing Create ops,
  up to the row that such an op leaves on a peer.
* **Compaction** (`Snapshot`, `SnapshotAuthors`, `SnapshotAgain`, `SnapshotCount`, `Consistency`, `Compaction`,
  `CompactionRuns`, `CompactionTheorem`, `JoinedTables`, `ImportOutcome`, `ImportExact`). A snapshot and the rest of
  the log mean the same as the whole log, by a simulation over runs; into a library with rows of its own it only
  adds, and fails in exactly one way.
* **Backup and restore** (`Catalog`, `Backups`, `RestoredBooks`, `RestoredMatches`, `RestoredFields`,
  `RestoredColumns`, `RestoredRows`, `RestoredFacts`, `RestoredLinks`, `RestoredClocks`, `RestoreTheorem`,
  `RestoreOutcome`, `ReplaceRoundTrip`, `LibraryIo`). Which library book each backed-up book goes into, and what becomes of every
  row. Replace is lossless; Merge is idempotent, keeps every constraint, and fails in exactly one way.
* **Smart filters** (`Filter`, `FilterTokens`, `FilterTheorem`, `FilterExact`, `FilterFields`, `FilterWords`).
  Tokenizer, parser and printer on characters, with the round trip and its exact condition, and the texts that
  each field takes and refuses.
* **Smaller pieces**: reading streaks (`Streaks`), ISBN arithmetic (`Isbn`, and `IsbnCodes` for the standard's
  sums), greedy word wrap (`Wrap`, `WrapWords`).

Wall-clock readings, random ids and the order in which a query returns its rows are parameters or are
left open. A database error is an outcome of the model, and where the program runs in a transaction the
model returns to the earlier state.

`dafny verify dfyconfig.toml` checks everything.

## Where the code and its own documentation disagree

The model follows the code.

* Stamps are said to be of fixed width with milliseconds. The parser also takes finer fractions, other
  offsets and four-digit years that end up in year 10000, and such a stamp is not read back from its own
  text (`Hlc.ParsedIsPortable`, `Hlc.FineFractionIsLost`, `Hlc.LateStampIsLost`).
* The log's next stamp is said to sort after every existing one. It does exactly when the wall clock has
  moved on or the greatest counter is not 9999 (`SyncLog.EmissionDominates`).
* Applying an op twice is said to give the same result as once. It does, except that the second Create of
  a note or review adds the field clocks that the first did not write (`Redelivery.RedeliveryIsExact`,
  `Redelivery.SecondNoteCreateAddsClock`).
* Merging after a remote stamp is said to give a stamp after it. Its saturated counter does not advance
  (`HybridClocks.MergeAdvances`), and the carry written after `saturating_add` can never run.
* A status update that arrives as a number is stored without asking the automaton
  (`BookRuns.UntypedStatusLeavesAutomaton`), and two status updates converge only when the automaton
  answers alike in both orders (`BookRuns.StatusOrderMatters`, `BookRuns.StatusDependsOnOrder`).
* Field-by-field last write wins holds between the edits of a live entity. An edit that overtakes the
  create is lost (`DeliveryOrder.EarlyOpsAreLost`), one that comes after the deletion as well
  (`DeliveryOrder.UpdateAfterDeletionIsLost`), and a value that cannot be stored stops the fields behind it
  in one order only (`DeliveryOrder.UnstorableValueStopsLaterFields`).
* A collision of two devices is said to be recorded. It is if the field has a clock row of another device; a
  create writes none, so the first edit after it overwrites silently (`Ledger.LossIsSilentExactly`,
  `Ledger.FirstEditAfterCreateIsSilent`).
* A snapshot is said to hold the full library state. A page count or duration that was stored as text, and a
  number in any integer column that is no 64-bit integer, is lost on import. So compaction preserves meaning
  only while the integer columns hold integers (`CompactionTheorem.SnapshotMeansTheSame`,
  `CompactionTheorem.TextPageCountIsLost`, `CompactionTheorem.FractionalRatingIsLost`). Authors that no book
  credits are left out (`SnapshotAuthors.CreditsReload`). Shelves, works, series, ISBNs and files have no
  place in it.
* An export is said to read the entire library. It fails as a whole if an integer column holds text or a
  fraction (`LibraryIos.LibraryIo.ExportLibrary`).
* Backfill is said to cover every syncable live row. It reaches exactly those whose rows parse
  (`BackfillTheorem.BooksCovered` and its companions); a book whose status came as a number, or whose
  work came as a text that is no UUID, is live and never backfilled, nor is anything on it
  (`BackfillTheorem.UntypedStatusIsNotBackfilled`, `BackfillTheorem.NamedWorkIsNotBackfilled`).
* Restore writes the clocks before it compares notes and reviews, "so that the comparisons see incoming
  clocks". As a result an existing note or review whose content clock is in the backup is never
  overwritten, even by a newer one (`RestoreTheorem.OverwriteNeedsNoClock`).
* Restore's provenance merge accepts a clock for the work of a book but has no column to write for it
  (`RestoredFields.RestoreKeepsIdentity`, `RestoredFields.RestoredFieldIsLatest`).
* A merge restore is additive, but a tag or shelf renamed since the backup was made makes all of it fail
  (`RestoreOutcome.RestoreSucceedsExactly`).
* Backfill adds one op for each tag, except that two spellings of one tag type on the same book get one
  each (`Backfills.BackfillIsMinimal`).
* Adding and removing a tag carries clocks, but the last delivered op wins
  (`TagRuns.TagsFollowDelivery`); a deleted setting leaves no clock and can be brought back by an older
  op (`SettingRuns.DeletionForgetsClock`).
* A quoted filter value with a space parses, but printing drops the quotes (`FilterExact.QuotesAreLost`).
* The word wrap's limit is said to count characters; it counts bytes (`Wraps.WrapFits`). On ASCII that is the
  same (`Wraps.AsciiWrapCountsChars`); other words may take more lines (`Wraps.BytesBreakLine`).
* ISBN-10 validation accepts an `X` in any place; only in the last one does the conversion to ISBN-13
  give a valid code (`Isbns.ConvertedIsValid`).

## Model

| member | source | states |
|---|---|---|
| Calendar.DateOfDay | crates/toku-core/src/sync.rs:42-50 | the proleptic Gregorian date of a day is valid and counts back to that day |
| Calendar.GregorianCount | crates/toku-core/src/sync.rs:42-50 | the days before a year are 365 each and one more for every 4th, but not every 100th, but every 400th |
| Calendar.MonthStarts | crates/toku-core/src/sync.rs:42-50 | the days before a month are those of the calendar, with the leap day from March on |
| Calendar.UnixEpochIsDay719528 | crates/toku-core/src/sync.rs:122-133 | 1 January 1970 is day 719528, and back |
| Calendar.DayOrder | crates/toku-core/src/sync.rs:42-50 | for valid dates, calendar order is day order |
| Calendar.MomentOfMillis | crates/toku-core/src/sync.rs:42-50 | breaking an instant into date and time fields loses nothing |
| Calendar.MomentOrder | crates/toku-core/src/sync.rs:42-50 | field-by-field order of two instants is their order in milliseconds |
| Text.PadOrder | crates/toku-core/src/sync.rs:42-50 | numbers that fit a zero-padded width are ordered by their text |
| Text.PadReadsBack | crates/toku-core/src/sync.rs:42-80 | a padded number of any size parses back to itself |
| Instants.InstantOrder | crates/toku-core/src/sync.rs:42-50 | the date part of the text has one width and orders instants, for four-digit years |
| Instants.Rfc3339ReadsBack | crates/toku-db/src/repo.rs:2095-2121 | a time written as RFC 3339 in UTC reads back to the nanosecond, unless its year has five digits |
| InstantTexts.InstantIsRead | crates/toku-core/src/sync.rs:58-91 | a text of date, separator, time, fraction of any length and zone is read if and only if there is such a date, time and offset, as the instant in UTC with the first nine digits of its fraction; all three separators, both letters and three signs |
| StampTexts.EpochInUtc | crates/toku-db/src/repo.rs:2095-2121 | the RFC 3339 text of the epoch, character by character |
| StampTexts.FractionLength | crates/toku-db/src/repo.rs:2095-2121 | a time is written with none, three, six or nine digits of fraction, the fewest that tell it |
| Hlc.CanonicalOrder | crates/toku-core/src/sync.rs:42-97 | text order is lexicographic order on (milliseconds, counter, prefix) for four-digit years, counters up to 9999 and any prefixes |
| Hlc.SuccessorOrder | crates/toku-core/src/sync.rs:42-97 | stamps one counter apart keep their order in the text if and only if the lower counter is not 9999 |
| Hlc.CanonicalRoundTrip | crates/toku-core/src/sync.rs:42-91 | parsing inverts writing if and only if the stamp has a four-digit year, whole milliseconds and a hyphen-free prefix of 12 bytes, for every 16-bit counter |
| Hlc.ParsedIsPortable | crates/toku-core/src/sync.rs:58-91 | the stamp of a text that parses can be written and read again if and only if the fourth to ninth digits of its fraction are zeros and its offset does not move a time on 31 December 9999 beyond midnight |
| Hlc.FineFractionIsLost | crates/toku-core/src/sync.rs:58-91 | a concrete text with tenths of milliseconds parses, and its canonical text reads back as another stamp |
| Hlc.LateStampIsLost | crates/toku-core/src/sync.rs:58-91 | a concrete text with a negative offset parses, and its canonical text does not |
| StampTexts.StampIsRead | crates/toku-core/src/sync.rs:58-91 | a stamp is read if and only if its instant is, its counter fits 16 bits, in any number of digits or with a plus sign, and its prefix has 12 bytes; as that instant, counter and prefix |
| StampTexts.FewHyphens | crates/toku-core/src/sync.rs:58-72 | a text with fewer than two hyphens is no stamp |
| HybridClocks.HybridClock.constructor | crates/toku-core/src/sync.rs:119-133 | a new clock stands at the Unix epoch with counter 0 and the first 12 characters of the device |
| HybridClocks.HybridClock.NowAt | crates/toku-core/src/sync.rs:154-168 | from the old time and counter and the wall reading cut to milliseconds: a later reading becomes the time with counter 0, otherwise the counter goes up by one, or at 65535 the time by one millisecond; strictly above the previous stamp in every case |
| HybridClocks.HybridClock.UpdateAt | crates/toku-core/src/sync.rs:178-209 | the clock's new state, strictly above the previous stamp, and above the remote stamp if and only if the merge does not saturate |
| HybridClocks.MergeAdvances | crates/toku-core/src/sync.rs:178-209 | the same of the merge rule, with the exact saturating case |
| HybridClocks.ClockRunIsStrictlyIncreasing | crates/toku-core/src/sync.rs:154-209 | over any calls with any forward or backward wall clock, every stamp is strictly above all earlier ones |
| HybridClocks.ClockRunReachesInputs | crates/toku-core/src/sync.rs:154-209 | over any run no stamp is before any wall reading or remote stamp so far, or before the start |
| HybridClocks.ClockRunStaysNear | crates/toku-core/src/sync.rs:154-209 | and beyond the latest of these by one millisecond at most for each counter that was used up |
| HybridClocks.ClockRunShowsLatest | crates/toku-core/src/sync.rs:154-209 | so with counters left its time is exactly the latest of start, wall readings and remote stamps |
| HybridClocks.CallCounts | crates/toku-core/src/sync.rs:154-209 | with counters left a call starts the counter over when the wall clock is alone in front, and otherwise adds one to the greatest counter at the time it shows |
| HybridClocks.TextOfNewClock | crates/toku-core/src/sync.rs:42-50 | the canonical text of a new clock, character by character |
| HybridClocks.ClockRunPassesRemotes | crates/toku-core/src/sync.rs:178-209 | every later stamp of a run is above each remote stamp passed in, unless that step saturated |
| HybridClocks.ClockRunKeepsMillis | crates/toku-core/src/sync.rs:146-209 | a clock fed whole milliseconds keeps whole milliseconds |
| HybridClocks.AboveIsBefore | crates/toku-core/src/sync.rs:93-97 | on whole milliseconds the clock's order is the causal order the text carries |
| Statuses.StatusTextParses | crates/toku-core/src/book.rs:243-288 | every status is read back from its text |
| Library.IntegersAreStored | crates/toku-db/src/merge.rs:1161-1169 | an integer is bound as text and an integer column stores the integer itself, or a real if it does not fit 64 bits |
| StoredBooks.BookStored | crates/toku-db/src/merge.rs:78-159 | the create of an unknown book adds exactly one row if its rating is absent or 0 to 10, with the object's values in all twelve columns, the defaults of title, format and status where they are absent, and a clock for each book field it carries; otherwise it adds none |
| StoredBooks.ColumnUpdated | crates/toku-db/src/merge.rs:187-248 | an update of one column by a value of its type writes that column and its clock if and only if it is newer and the column admits it, and nothing else |
| BookUpdates.UpdateStored | crates/toku-db/src/merge.rs:187-248 | in an update of several columns each takes its newer value if and only if neither it nor a column before it stops the update; a column stops it by a status text that is off the automaton or by a value that cannot be stored |
| BookUpdates.UpdateApplied | crates/toku-db/src/merge.rs:161-251 | an update that nothing stops is applied if it brings a newer value, else skipped |
| BookUpdates.UpdateStopped | crates/toku-db/src/merge.rs:187-251 | one that stops is rejected if the first column to stop it is a status text and the stored status is known, and fails otherwise |
| BookUpdates.ColumnsAscend | crates/toku-db/src/merge.rs:187-248 | the columns visited are the twelve named ones, in ascending order of their names |
| StoredBooks.StatusMovesAlongEdges | crates/toku-db/src/merge.rs:274-310 | a newer known status of a live book is taken if and only if it stays or follows one of the seven listed moves |
| StoredBooks.StatusIsNamed | crates/toku-core/src/book.rs:275-288 | the names of each status, in any ASCII case, and no others |
| StoredBooks.BookDeleted | crates/toku-db/src/merge.rs:253-270 | a deletion marks a live book with clock and device and changes nothing else |
| StoredRows.SessionStored | crates/toku-db/src/merge.rs:325-377 | a session row is added if and only if book and start are text, the rating is absent or 0 to 10, the id is free and the book is known; its eight columns are the object's values one by one, and otherwise the table is unchanged |
| StoredRows.ProgressStored | crates/toku-db/src/merge.rs:392-471 | a progress row is added if and only if book, value and time are there, the id is free, book and session are known and the value is above all of its book and type; with the object's values in its seven columns |
| StoredRows.TagStored | crates/toku-db/src/merge.rs:487-537 | a create ensures the tag of that folded name and type, with the new id if there was none, and links it to a known book; no other tag or link changes |
| StoredRows.TagRemoved | crates/toku-db/src/merge.rs:539-590 | a deletion takes that tag off the book and changes nothing else |
| StoredRows.SettingStored | crates/toku-db/src/merge.rs:984-1036 | a setting is inserted with the object's key and value and the op's clock if and only if its key is free |
| StoredRows.SettingEdited | crates/toku-db/src/merge.rs:984-1036 | a stored one takes a newer value and clock and keeps its key |
| StoredRemarks.NoteStored | crates/toku-db/src/merge.rs:604-640 | a new note holds the object's book and content, and no clock is written; it is added if and only if the book is known |
| StoredRemarks.NoteEdited | crates/toku-db/src/merge.rs:642-729 | an edit replaces the content if and only if it is newer than the field's clock, and then sets clock and device |
| StoredRemarks.ReviewStored | crates/toku-db/src/merge.rs:763-800 | the same for a new review with content and rating |
| StoredRemarks.ReviewEdited | crates/toku-db/src/merge.rs:802-950 | an edit of a review does so for each of the two fields it carries, by that field's own clock |
| StoredRemarks.RemarkDeleted | crates/toku-db/src/merge.rs:731-974 | a deletion marks a live note or review with clock and device and changes nothing else |
| Outcomes.SessionOutcome | crates/toku-db/src/merge.rs:325-377 | the outcome of every session op, case by case |
| Outcomes.ProgressOutcome | crates/toku-db/src/merge.rs:392-471 | of every progress op |
| Outcomes.TagOutcome | crates/toku-db/src/merge.rs:487-590 | of every tag op that names a tag |
| Outcomes.SettingOutcome | crates/toku-db/src/merge.rs:984-1053 | of every setting op |
| Outcomes.NoteEditOutcome | crates/toku-db/src/merge.rs:642-729 | the edit of a note is applied if and only if it is newer, and reports a conflict with both values and the stored clock if and only if its text differs from one that another device wrote |
| RemarkOutcomes.ReviewEditOutcome | crates/toku-db/src/merge.rs:802-950 | the edit of a review is applied if and only if one of its fields is newer, and reports the conflicts of content and rating in this order |
| Outcomes.RemarkCreateOutcome | crates/toku-db/src/merge.rs:604-800 | the create of a new note or review is rejected without an object and fails without a known book |
| Outcomes.BookCreateOutcome | crates/toku-db/src/merge.rs:78-159 | the create of a new book is rejected without an object and fails on a rating out of range |
| Outcomes.DeletionOutcome | crates/toku-db/src/merge.rs:253-974 | the deletion of a book, note or review is applied if and only if it is there and not deleted |
| Affinities.IntegerReadsBack | crates/toku-db/src/merge.rs:1161-1169 | the written text of an integer is read as that number |
| AffinityTexts.PaddedIntegerReadsBack | crates/toku-db/src/merge.rs:1161-1169 | so is its text with any of six kinds of white space around it, or with a plus sign |
| AffinityTexts.DecimalFractionIsRead | crates/toku-db/src/merge.rs:1161-1169 | digits with a point among them, and an exponent behind them in either letter and with any sign, are read as the number they spell |
| AffinityTexts.OtherTextIsNoNumber | crates/toku-db/src/merge.rs:1161-1169 | a text with any character but white space, digits, point, sign and exponent letter is none |
| MergeEngines.MergeEngine.ApplyOp | crates/toku-db/src/merge.rs:51-64 | the new tables and the outcome are those of the merge rules |
| MergeEngines.MergeEngine.MergeBookCreate | crates/toku-db/src/merge.rs:78-159 | inserts a book with defaults and the clocks of its fields, or merges into an existing one |
| MergeEngines.MergeEngine.MergeBookUpdate | crates/toku-db/src/merge.rs:161-251 | per-field last write wins; a missing or deleted book is skipped |
| MergeEngines.MergeEngine.MergeBookFields | crates/toku-db/src/merge.rs:187-248 | the field loop; a refused status ends it and keeps the fields written before |
| MergeEngines.MergeEngine.MergeBookDelete | crates/toku-db/src/merge.rs:253-270 | sets the tombstone once |
| MergeEngines.MergeEngine.ValidateStatusTransition | crates/toku-db/src/merge.rs:274-310 | the verdict on a new status text: same status or an edge of the automaton |
| MergeEngines.MergeEngine.MergeSessionCreate | crates/toku-db/src/merge.rs:325-377 | append-only insert with its failures |
| MergeEngines.MergeEngine.MergeProgressCreate | crates/toku-db/src/merge.rs:392-471 | inserts only a value above all those of the book and type |
| MergeEngines.MergeEngine.MergeTagCreate | crates/toku-db/src/merge.rs:487-537 | ensures the tag by folded name and type, then links it |
| MergeEngines.MergeEngine.MergeTagDelete | crates/toku-db/src/merge.rs:539-590 | removes the link of that tag only |
| MergeEngines.MergeEngine.MergeNoteCreate | crates/toku-db/src/merge.rs:604-640 | inserts a note without clocks, or merges into an existing one |
| MergeEngines.MergeEngine.MergeNoteUpdate | crates/toku-db/src/merge.rs:642-729 | last write wins on the content, with a ledger row for a collision |
| MergeEngines.MergeEngine.MergeReviewCreate | crates/toku-db/src/merge.rs:763-800 | inserts a review without clocks, or merges into an existing one |
| MergeEngines.MergeEngine.MergeReviewUpdate | crates/toku-db/src/merge.rs:802-950 | the same for content and rating, one after the other |
| MergeEngines.MergeEngine.MergeSettingUpsert | crates/toku-db/src/merge.rs:984-1036 | last write wins per row; a second row for a key fails |
| MergeEngines.MergeEngine.UpsertEntityHlc | crates/toku-db/src/merge.rs:1072-1090 | sets clock and device of one field |
| MergeEngines.MergeEngine.StoreConflict | crates/toku-db/src/merge.rs:1117-1157 | adds a ledger row unless one for the field and remote clock exists |
| MergeRules.BookFrame | crates/toku-db/src/merge.rs:70-270 | a book op changes one book and nothing else |
| MergeRules.NoteFrame | crates/toku-db/src/merge.rs:596-753 | a note op changes one note, its clocks and the ledger only |
| MergeRules.ReviewFrame | crates/toku-db/src/merge.rs:755-974 | a review op changes one review, its clocks and the ledger only |
| MergeRules.SettingFrame | crates/toku-db/src/merge.rs:976-1053 | a setting op changes one setting and keeps its key |
| MergeRules.FactFrame | crates/toku-db/src/merge.rs:316-590 | session, progress and tag ops change neither books, notes, reviews, settings nor clocks |
| Lww.PutAllIsLatest | crates/toku-db/src/merge.rs:187-248 | a slot after any writes holds the greatest clock's write, or the start when none is newer |
| Lww.WritesConverge | crates/toku-db/src/merge.rs:187-248 | writes with distinct clocks leave the same slot in any order and multiplicity |
| Lww.RunsConverge | crates/toku-db/src/merge.rs:161-251 | a slot that every op keeps alive and writes by its clock ends the same in every order of delivery |
| BookRuns.BookFieldsConverge | crates/toku-db/src/merge.rs:161-251 | two runs over the same ops, in any order and mixed with ops elsewhere, end with the same value and clock in a field of a live book: those of the greatest clock, or the start; for any field but the status, if in each op no status and no unstorable value comes before it |
| BookRuns.StepKeepsBook | crates/toku-db/src/merge.rs:78-310 | no op removes a book, moves a clock back, changes a deleted book, or moves a text status off the automaton |
| BookRuns.RunKeepsBook | crates/toku-db/src/merge.rs:78-270 | over any run the book stays, clocks never go back and a deleted book is frozen whatever the later clocks |
| BookRuns.RunFollowsAutomaton | crates/toku-db/src/merge.rs:201-241 | at every step of a run with text statuses the status stays or follows an edge of the automaton |
| BookRuns.RunKeepsStatusesValid | crates/toku-core/src/book.rs:255-288 | every book of every reachable library has a status of the automaton |
| BookRuns.UntypedStatusLeavesAutomaton | crates/toku-db/src/merge.rs:201-241 | a newer status that is no text is stored unchecked, null excepted, and the book leaves the automaton if and only if the bound text is no status, which holds of every number and truth value |
| BookRuns.StatusOrderMatters | crates/toku-db/src/merge.rs:201-241 | two status updates leave the same status in both orders if and only if the first one already leads there, or the automaton gives the newer one the same answer before and after the older one; with the final status of each order when the newer one is newer than the stored clock |
| BookRuns.StatusDependsOnOrder | crates/toku-db/src/merge.rs:201-241 | so a wanted book marked as being read and then as read ends differently in the two orders |
| DeliveryOrder.EarlyOpsAreLost | crates/toku-db/src/merge.rs:161-753 | an update or deletion of a book, note or review that is not there leaves no trace |
| DeliveryOrder.UpdateBeforeCreateIsLost | crates/toku-db/src/merge.rs:78-185 | a newer update that overtakes the create of its book is lost |
| DeliveryOrder.UpdateAfterDeletionIsLost | crates/toku-db/src/merge.rs:161-270 | an update and a deletion do not commute |
| DeliveryOrder.UnstorableValueStopsLaterFields | crates/toku-db/src/merge.rs:187-248 | a null title keeps the fields behind it from being written in one order and not in the other |
| Ledger.FieldsConverge | crates/toku-db/src/merge.rs:642-950 | notes and reviews: any two runs over the same ops end with the same value, clock and writing device in each field, those of the greatest clock |
| Ledger.NoSilentLoss | crates/toku-db/src/merge.rs:642-1157 | whenever a delivery overwrites or drops a different value of another device, the run ends with a ledger row holding the delivered value, and the local value with its clock if that was overwritten or the op came for the first time; also for runs that start with rows of earlier ops |
| Ledger.NoSilentLossFromEmptyLedger | crates/toku-db/src/merge.rs:642-1157 | in a library with an empty ledger, every delivery that overwrites or drops a different value of another device ends with a ledger row of the delivered value |
| Ledger.LossIsSilentExactly | crates/toku-db/src/merge.rs:642-950 | the step of an edit that overwrites or drops a different value leaves no ledger row if and only if there was none and the field has no clock row or was last written by the same device |
| Ledger.FirstEditAfterCreateIsSilent | crates/toku-db/src/merge.rs:604-729 | the first edit after a create overwrites the text without a row |
| Ledger.StepEdits | crates/toku-db/src/merge.rs:642-950 | what one edit does to value, clock and ledger of both fields, and that any other op leaves clocks and ledger alone |
| ProgressRuns.InsertedValuesIncrease | crates/toku-db/src/merge.rs:392-471 | the entries inserted for one book and type have strictly increasing values along any run |
| ProgressRuns.RunReachesWhatWasOffered | crates/toku-db/src/merge.rs:392-471 | after any run a value is reached if and only if it was at the start or was delivered |
| ProgressRuns.MaximumIsOrderIndependent | crates/toku-db/src/merge.rs:392-471 | the final maximum is the same in every delivery order |
| TagRuns.TagsFollowDelivery | crates/toku-db/src/merge.rs:487-590 | over any run a tag is on a book if and only if the last delivered op on it added it, or there was none and it was there |
| TagRuns.TagOrderMatters | crates/toku-db/src/merge.rs:487-590 | adding and removing one tag ends differently in the two orders, whatever the clocks |
| SettingRuns.SettingsConverge | crates/toku-db/src/merge.rs:984-1036 | a setting that is not deleted ends with the same value and clock in every order, those of the greatest clock |
| SettingRuns.DeletionForgetsClock | crates/toku-db/src/merge.rs:984-1053 | after a deletion any upsert brings the setting back, however old |
| SettingRuns.SessionsNeverChange | crates/toku-db/src/merge.rs:316-377 | no run changes or removes a session |
| Redelivery.RedeliveryIsHarmless | crates/toku-db/src/merge.rs:47-64 | applying any op a second time, also one refused halfway or failed, changes no table and applies nothing; a second note or review Create adds at most the op's own field clocks |
| Redelivery.RedeliveryIsExact | crates/toku-db/src/merge.rs:47-64 | applying an op twice in a row equals applying it once if and only if it is not the Create of a new note or review on a known book that carries a field whose clock row is missing or older |
| Redelivery.SecondNoteCreateAddsClock | crates/toku-db/src/merge.rs:604-729 | after the Create of a note that had no clock row there still is none, and the same op again adds it |
| Redelivery.SecondWalk | crates/toku-db/src/merge.rs:187-248 | walking again over the book an update has left writes nothing and stops at the same field |
| SyncLog.MaxHlcIsMax | crates/toku-db/src/sync_repo.rs:138-153 | the greatest clock of a log occurs in it and none is above it |
| SyncLog.NextFollowsWall | crates/toku-db/src/sync_repo.rs:138-153 | the next stamp of any log is never before the wall clock or 1970; in an empty or unreadable log it is the wall clock with counter 0, or else 1970 with counter 1 |
| SyncLog.NextFollowsLog | crates/toku-db/src/sync_repo.rs:138-153 | above a readable greatest stamp with counters left it shows the latest of wall clock, 1970 and that stamp, and counts on exactly at the stamp's own time |
| SyncLog.EmittedOpCarriesDraft | crates/toku-db/src/sync_repo.rs:95-132 | a local op is appended as drafted, with device and next stamp, and waits to be pushed |
| SyncLog.ReceivedOpIsKept | crates/toku-db/src/sync_repo.rs:385-406 | a received op is appended as it is unless its id is known |
| PushQueues.PrefixOfUuid | crates/toku-core/src/sync.rs:119-133 | the device part of a stamp is the first two groups of the UUID |
| SyncLog.EmissionDominates | crates/toku-db/src/sync_repo.rs:95-153 | the next local stamp is above every clock of the log if and only if the wall clock has passed the greatest one or its counter is not 9999 |
| SyncLog.RunKeepsOrder | crates/toku-db/src/sync_repo.rs:95-153 | over any interleaving of emission, reception and push, each op waiting to be pushed is above all ops before it |
| SyncLog.QueueIsEmissionOrder | crates/toku-db/src/sync_repo.rs:176-212 | sorting the queue by clock gives emission order |
| PushQueues.QueueIsSorted | crates/toku-db/src/sync_repo.rs:176-212 | the queue of any log holds the ops not yet pushed and no others, none before one with a smaller clock |
| SyncLog.MarkedLeaveQueue | crates/toku-db/src/sync_repo.rs:215-235 | marking ops as pushed takes exactly them out of the queue |
| SyncRepositories.SyncRepository.NextLocalHlc | crates/toku-db/src/sync_repo.rs:138-153 | the seeded clock's stamp |
| SyncRepositories.SyncRepository.EmitLocalOp | crates/toku-db/src/sync_repo.rs:95-132 | nothing without a device; otherwise the log grows by the local op and a book's named clocks are raised, or nothing is logged on a failure |
| SyncRepositories.SyncRepository.UpsertBookProvenance | crates/toku-db/src/sync_repo.rs:159-173 | raises the clocks that are missing or older and no others |
| SyncRepositories.SyncRepository.InsertRemoteOp | crates/toku-db/src/sync_repo.rs:385-406 | appends an op that needs no push, unless its id is known |
| SyncRepositories.SyncRepository.GetUnpushedOps | crates/toku-db/src/sync_repo.rs:176-212 | the queue sorted by clock, which in an ordered log is emission order |
| SyncRepositories.SyncRepository.MarkOpsPushed | crates/toku-db/src/sync_repo.rs:215-235 | exactly the named ops leave the queue |
| SyncRepositories.SyncRepository.GetOrCreateDevice | crates/toku-db/src/sync_repo.rs:296-319 | an identity is created once and then kept |
| SyncRepositories.EmittedFieldsAreProtected | crates/toku-db/src/sync_repo.rs:90-173 | after a local emission, a remote update that is not newer cannot change the fields it named |
| Backfills.EmittedSubject | crates/toku-db/src/backfill.rs:161-213 | an emitted op is found again under the key its row is looked up by |
| Backfills.ExistingExactly | crates/toku-db/src/backfill.rs:161-203 | a subject counts as having an op if and only if the log holds a Create op about it |
| Backfills.BackfillIsComplete | crates/toku-db/src/backfill.rs:75-149 | afterwards exactly the old subjects and those of the live rows that parse have a Create op, and a second run, over tables that differ in book clocks only, finds nothing missing |
| BackfillTheorem.BooksCovered | crates/toku-db/src/backfill.rs:75-97 | a live book without an op gets one if and only if its row parses |
| BackfillTheorem.SessionsCovered | crates/toku-db/src/backfill.rs:96-111 | a session of a live book without an op gets one if and only if both rows parse |
| BackfillTheorem.ProgressCovered | crates/toku-db/src/backfill.rs:113-126 | a progress entry of a live book without an op gets one if and only if both rows parse |
| BackfillTheorem.TagsCovered | crates/toku-db/src/backfill.rs:127-145 | a tag on a live book without an op gets one if and only if the book's row parses |
| BackfillTheorem.UnreadableBookIsNotBackfilled | crates/toku-db/src/backfill.rs:75-149 | no op is added for a live book whose row does not parse, nor for its sessions, progress and tags |
| BackfillTheorem.UntypedStatusIsNotBackfilled | crates/toku-db/src/backfill.rs:75-149 | after a newer status that is a number, a truth value or another value whose text is no status, the book is live and neither it nor its sessions, progress and tags are backfilled |
| BackfillTheorem.NamedWorkIsNotBackfilled | crates/toku-db/src/repo.rs:2193-2230 | the same after a newer work that is no UUID |
| BackfillTheorem.DeletedBookIsNotBackfilled | crates/toku-db/src/backfill.rs:75-149 | no op is added for a deleted book, nor for its sessions, progress and tags |
| BackfillArrivals.CreatedBookIsReadable | crates/toku-db/src/repo.rs:2193-2230 | the row of a created book parses if and only if format and status are known names, the three numbers fit 32 bits and the work is a UUID or absent, told from the object |
| BackfillArrivals.UuidSpellings | crates/toku-db/src/repo.rs:2193-2230 | the hyphenated, braced, URN and simple spellings of a UUID are read |
| BackfillArrivals.KindsAreNamed | crates/toku-core/src/book.rs:75-435 | the names of formats, progress types and tag types |
| ReadableRows.CreatedSessionIsReadable | crates/toku-db/src/repo.rs:2260-2290 | the row of a created session parses if and only if its times can be parsed and its numbers fit 32 bits |
| ReadableRows.CreatedProgressIsReadable | crates/toku-db/src/repo.rs:2231-2258 | that of a progress entry, if and only if its times can be parsed, its value fits 32 bits and its type is a known name |
| Backfills.BackfillIsMinimal | crates/toku-db/src/backfill.rs:75-149 | only rows without an op get one, and exactly one each if and only if no two missing tags of a book differ only in the spelling of their type |
| Backfills.ShortNamesMakeTwins | crates/toku-core/src/book.rs:406-435 | such tags exist |
| Backfills.EmissionsAscend | crates/toku-db/src/backfill.rs:18-20 | with room in the four-digit counter for the whole run, each emitted op is above everything before it |
| Backfills.BooksSortFirst | crates/toku-db/src/backfill.rs:75-97 | then every book Create sorts below every session, progress and tag Create of the run |
| Backfills.BookOpsDescribeRows | crates/toku-db/src/repo.rs:2074-2088 | the merge engine reads a book's columns back from its op, except the work, with status and format in canonical spelling |
| Backfills.InUtcKeepsInstant | crates/toku-db/src/repo.rs:2095-2121 | a time rewritten in UTC is the same instant, unless its year then has five digits |
| Backfills.SessionOpsDescribeRows | crates/toku-db/src/repo.rs:2095-2105 | a session is read back from its op with its times in UTC, otherwise unchanged |
| Backfills.ProgressOpsDescribeRows | crates/toku-db/src/repo.rs:2112-2121 | a progress entry is read back from its op, its time in UTC and its type in canonical spelling |
| BackfillArrivals.SessionArrives | crates/toku-db/src/repo.rs:2095-2105 | the op emitted for a session, merged by a peer that knows the book and not the session, adds exactly that session with its times in UTC and the op's creation time |
| BackfillArrivals.ProgressArrives | crates/toku-db/src/repo.rs:2112-2121 | so with a progress entry above those of the peer, its time in UTC and its type in canonical spelling |
| BackfillArrivals.TagArrives | crates/toku-db/src/backfill.rs:127-145 | so with a tag, under its folded name and canonical type, on the peer's book |
| BackfillArrivals.BookArrives | crates/toku-db/src/repo.rs:2074-2088 | so with a book: all columns but the work, status and format in canonical spelling |
| BackfillJobs.LoadExisting | crates/toku-db/src/backfill.rs:162-203 | collects the subjects of the log's Create ops |
| ReadableRows.TallyCounts | crates/toku-db/src/backfill.rs:75-149 | the four counts are the numbers of entries of each type |
| BackfillJobs.EmitMissing | crates/toku-db/src/backfill.rs:84-97 | one loop: extends the log by the rows without an op and keeps the tally |
| BackfillJobs.BackfillSyncOps | crates/toku-db/src/backfill.rs:56-149 | nothing without a device; otherwise visits each live book, session, progress entry and tag whose row parses once, books first, and emits those without an op, with the counts by type |
| BackfillJobs.SecondRun | crates/toku-db/src/backfill.rs:20-22 | a run over the rows that a first run leaves adds nothing to its log and counts nothing |
| BackfillJobs.BackfillTwice | crates/toku-db/src/backfill.rs:56-73 | calling the backfill twice: the second call returns zero counts and leaves the log of the first |
| Snapshots.SnapshotRepository.ExportSnapshot | crates/toku-db/src/snapshot.rs:24-170 | the snapshot lists every exported table once, and every author credit with its author |
| Snapshots.SnapshotRepository.ApplySnapshot | crates/toku-db/src/snapshot.rs:173-387 | the import rules of tables and authors with the number of rows seen, or no change when a reference dangles |
| SnapshotAuthors.CreditsReload | crates/toku-db/src/snapshot.rs:55-238 | importing the exported credits into empty tables gives back the credits and exactly the authors that some book credits |
| SnapshotAgain.ImportTwice | crates/toku-db/src/snapshot.rs:173-387 | applying a snapshot twice equals applying it once in every table, authors and credits included, also over a library that was not empty |
| Snapshots.ListedRowsLoad | crates/toku-db/src/snapshot.rs:173-387 | inserting the listed rows of a table into an empty one gives the table |
| ImportOutcome.ImportJoins | crates/toku-db/src/snapshot.rs:173-387 | after an import that succeeds the library has its own rows as they were; sessions, progress, notes, reviews and links are those of both, and every other book is one of the snapshot |
| ImportExact.TagsAdded | crates/toku-db/src/snapshot.rs:285-318 | a tag of the snapshot is there afterwards if and only if its name and type were, or its id was free |
| ImportExact.SettingsAdded | crates/toku-db/src/snapshot.rs:365-385 | a setting, if and only if its id was there or its key was free |
| ImportExact.BooksAdded | crates/toku-db/src/snapshot.rs:180-212 | every book of a consistent library is |
| ImportExact.ImportSucceedsExactly | crates/toku-db/src/snapshot.rs:173-387 | importing the snapshot of a consistent library into any library fails if and only if some tag in use has its name and type there under another id, and its own id is unknown there |
| ImportExact.ImportWithAuthorsSucceedsExactly | crates/toku-db/src/snapshot.rs:173-387 | the same with the author tables |
| ImportOutcome.CreditsJoin | crates/toku-db/src/snapshot.rs:210-238 | authors and credits that are there stay as they are |
| ImportOutcome.ImportKeepsConsistency | crates/toku-db/src/snapshot.rs:173-387 | an import that succeeds keeps every key, reference and column constraint, whatever the snapshot holds |
| Consistency.StepConsistent | crates/toku-db/src/merge.rs:51-64 | every op keeps the key, reference and column constraints |
| Consistency.RunConsistent | crates/toku-db/src/merge.rs:51-64 | so does every run |
| Compaction.ReimportKeepsCells | crates/toku-db/src/snapshot.rs:24-240 | a book survives export and import if and only if its page count, duration and rating hold integers or nothing |
| Compaction.ImportInvertsExport | crates/toku-db/src/snapshot.rs:24-387 | importing any snapshot of a consistent library into an empty one gives the library without clocks and ledger |
| Compaction.ImportInvertsExportWithAuthors | crates/toku-db/src/snapshot.rs:24-387 | the same with the credits and the credited authors |
| Compaction.Bootstrap | crates/toku-db/src/snapshot.rs:24-387 | exporting one library and applying the snapshot to an empty one succeeds and makes it the library without clocks and ledger, with all seven counts those of the tables |
| CompactionRuns.StepMirrors | crates/toku-db/src/merge.rs:51-64 | two libraries that differ in clocks older than every op to come, in ledger and in tag ids stay so under every such op |
| CompactionTheorem.CompactionPreservesMeaning | crates/toku-db/src/snapshot.rs:24-387 | if every later op is newer than every earlier one and the integer columns hold integers or nothing when the snapshot is taken, snapshot plus later ops give the same books, sessions, progress, tags by name, notes, reviews and settings as the whole log |
| CompactionTheorem.SnapshotMeansTheSame | crates/toku-db/src/snapshot.rs:24-387 | a snapshot means the same as the library it was taken of if and only if page count, duration and rating of every book hold an integer or nothing |
| CompactionTheorem.IntegerColumnUpdate | crates/toku-db/src/merge.rs:187-248 | a newer value that an integer column admits is stored; the library stays fit for a snapshot if and only if an integer or nothing is stored, and anything else is read back as nothing |
| CompactionTheorem.TextPageCountIsLost | crates/toku-db/src/merge.rs:187-248 | a newer update with any page count that is no number is stored as text, which export and import lose |
| CompactionTheorem.FractionalRatingIsLost | crates/toku-db/src/merge.rs:187-248 | a newer rating of any fraction between 0 and 10 passes the check, is stored as it is, and export and import lose it |
| CompactionTheorem.StaleOpDivergesAfterSnapshot | crates/toku-db/src/snapshot.rs:173-387 | without that order they need not: a stale op is skipped on the full log and applied after the snapshot |
| RestoredBooks.MatchAgain | crates/toku-db/src/library_io.rs:706-756 | after a merge restore every book of the backup finds the library book it was matched with |
| RestoredMatches.RestoredIntoMatch | crates/toku-db/src/library_io.rs:706-756 | every book of an exported backup is restored into its match in the library: the book of its id, else the holder of its Goodreads id, else of its Calibre id, else of the first of its ISBNs in list order that the library has, else itself |
| RestoredMatches.SharedIsbnMatches | crates/toku-db/src/library_io.rs:743-755 | an unknown id with unknown source ids and a known ISBN goes into the holder of the first such ISBN, and no row is added for it |
| RestoredMatches.InsertedExactlyWhenUnknown | crates/toku-db/src/library_io.rs:632-756 | a book keeps its own id and is inserted if and only if its id, its source ids and all its ISBNs are unknown; it is then stored as backed up |
| RestoredMatches.NoOtherBooks | crates/toku-db/src/library_io.rs:632-667 | every book afterwards is one of the library or an unknown one of the backup |
| RestoredBooks.SecondPass | crates/toku-db/src/library_io.rs:632-667 | a second pass over the books changes neither books nor provenance |
| RestoredBooks.StageIsSound | crates/toku-db/src/library_io.rs:632-794 | at every point of the book loop: no failure, library books keep their identity, source ids stay unique, provenance refers, and all clocks of the books done are reached |
| RestoredFields.RestoredFieldIsLatest | crates/toku-db/src/library_io.rs:761-857 | each field of a matched book, the work included, ends with the greatest effective clock among its own and those offered for it, and each written column with that clock's value |
| RestoredColumns.RestoredColumn | crates/toku-db/src/library_io.rs:761-857 | each of the eleven listed columns of a library book either stays with its clock, or takes value and clock of one backup row for it that is newer; and no backup row for it is newer than its clock afterwards |
| RestoredFields.RestoreKeepsIdentity | crates/toku-db/src/library_io.rs:797-859 | a matched book keeps source ids, creation time, tombstone or its absence, and work |
| RestoredFields.RestoreReachesClocks | crates/toku-db/src/library_io.rs:761-794 | in every book, also a new one, each field's effective clock ends at least at the backup's |
| RestoredFields.MergeStamps | crates/toku-db/src/library_io.rs:761-857 | merging a book leaves its row alone unless the clock of a written column rises, and then sets the incoming update time; each provenance row is the old one or a backup's with its clock made explicit |
| RestoreTheorem.OverwriteNeedsNoClock | crates/toku-db/src/library_io.rs:546-554 | an existing note or review is overwritten if and only if the backup has no content clock for it and a later update time |
| RestoreTheorem.NamesSucceed | crates/toku-db/src/library_io.rs:410-461 | restoring tags or shelves succeeds if and only if no new one meets a taken id |
| RestoreTheorem.RestoreTwice | crates/toku-db/src/library_io.rs:358-625 | restoring a backup twice equals restoring it once, in every table |
| RestoreOutcome.RestoreSucceedsExactly | crates/toku-db/src/library_io.rs:358-625 | a merge restore of an exported library into a consistent one fails if and only if the id of a tag or shelf to insert belongs to a differently named one |
| RestoreOutcome.RenamedTagBlocksRestore | crates/toku-db/src/library_io.rs:410-431 | a concrete library that its own older backup cannot be merged into |
| RestoreOutcome.RestoreKeepsConsistency | crates/toku-db/src/library_io.rs:358-625 | after a merge restore no reference dangles in any table, including links after remapping, and all unique keys are unique |
| RestoreOutcome.RestoreKeepsExportable | crates/toku-db/src/library_io.rs:358-625 | a library that can be backed up can still be backed up after merging a backup into it |
| Catalogs.CatalogSucceeds | crates/toku-db/src/library_io.rs:379-611 | authors, works, series, files and import logs with their links never make a restore fail |
| RestoredRows.RestoredLibraryRows | crates/toku-db/src/library_io.rs:546-557 | row by row after a merge restore: new notes and reviews as backed up on the matched book, existing ones overwritten exactly without a backup clock and with a later update time, settings by last write wins on their key, all others untouched |
| RestoredFacts.RestoredFactRows | crates/toku-db/src/library_io.rs:463-545 | ISBNs, sessions and progress of the library stay, and those only the backup has are added on the book that theirs was restored into |
| RestoredFacts.RestoredNameRows | crates/toku-db/src/library_io.rs:410-503 | tags and shelves of the library stay, new ones are added, and each link of the backup leads from the restored book to the tag or shelf that now has the name |
| RestoredFacts.RestoredCatalogRows | crates/toku-db/src/library_io.rs:379-611 | so with authors, works, series, files and import logs |
| RestoredLinks.RestoredLinkRows | crates/toku-db/src/library_io.rs:463-611 | credits, volumes and import entries of the library stay, each of the backup is there under the book that its own was restored into, and there are no others |
| RestoredClocks.ReplaceOverwritesNothing | crates/toku-db/src/library_io.rs:982-1105 | in replacing mode no note or review that is already there is overwritten |
| RestoredClocks.ReplaceKeepsSettings | crates/toku-db/src/library_io.rs:1107-1146 | and no setting |
| RestoredRows.ClocksAfterRestore | crates/toku-db/src/library_io.rs:923-953 | every entity clock ends at the greatest of the library's and the backup's for it, and is one of them |
| RestoredClocks.ClocksMoveWithBooks | crates/toku-db/src/library_io.rs:923-953 | the clock of a book goes to the book it was restored into, any other keeps its entity; where one goes there is a clock at least as great, and where none goes nothing changes |
| ReplaceRoundTrip.ReplaceIsLossless | crates/toku-db/src/library_io.rs:60-717 | replacing any library by a backup of a consistent one gives exactly that one in every table, with provenance, clocks and tombstones |
| LibraryIos.LibraryIo.ExportLibrary | crates/toku-db/src/library_io.rs:60-348 | succeeds if and only if every integer column of a book holds a 64-bit integer or nothing, and then lists every table once |
| RestoredColumns.ExportableExactly | crates/toku-db/src/library_io.rs:1236-1256 | the three columns and the 64-bit range, written out |
| LibraryIos.LibraryIo.FindExistingBook | crates/toku-db/src/library_io.rs:706-756 | the match by id, Goodreads id, Calibre id, then first known ISBN; what it comes to is stated by RestoredMatches.RestoredIntoMatch |
| LibraryIos.LibraryIo.MergeBookFields | crates/toku-db/src/library_io.rs:761-794 | the field merge of one book |
| LibraryIos.LibraryIo.RestoreBookRows | crates/toku-db/src/library_io.rs:632-667 | the book loop with its id map and failures |
| LibraryIos.LibraryIo.RestoreNamed | crates/toku-db/src/library_io.rs:410-461 | the tag and shelf loops |
| LibraryIos.LibraryIo.RestoreClockRows | crates/toku-db/src/library_io.rs:923-953 | clocks only rise |
| LibraryIos.LibraryIo.RestoreRemarkRows | crates/toku-db/src/library_io.rs:982-1105 | the note and review loops |
| LibraryIos.LibraryIo.RestoreSettingRows | crates/toku-db/src/library_io.rs:1107-1146 | the settings loop, by key |
| LibraryIos.LibraryIo.RestoreCatalogRows | crates/toku-db/src/library_io.rs:379-611 | the insert-if-absent loops over authors, works, series, files and import logs, or a failure when a reference dangles |
| LibraryIos.LibraryIo.RestoreLibrary | crates/toku-db/src/library_io.rs:358-625 | the whole restore, or the old library after a failure |
| Filters.Tokenize | crates/toku-core/src/filter.rs:208-254 | the tokens of a text, or none when a quoted token does not end |
| Filters.ParseOrExpr | crates/toku-core/src/filter.rs:258-271 | the grammar's alternatives, with the position after them |
| Filters.ParseAndExpr | crates/toku-core/src/filter.rs:273-286 | the grammar's conjunctions |
| Filters.ParseAtomExpr | crates/toku-core/src/filter.rs:288-310 | a group in parentheses or a condition |
| Filters.Parse | crates/toku-core/src/filter.rs:137-148 | one expression that uses up the text; which texts it takes is stated by the members of FilterFields and FilterWords |
| FilterFields.NumbersAccepted | crates/toku-core/src/filter.rs:368-388 | rating and pages with each of the five operators take every number from -2^63 to 2^63 - 1 and refuse every other |
| FilterWords.PlusNumbersAccepted | crates/toku-core/src/filter.rs:368-388 | also with a plus sign |
| FilterFields.OtherWordsRefused | crates/toku-core/src/filter.rs:368-388 | they refuse a word with any other character |
| FilterFields.WordsAccepted | crates/toku-core/src/filter.rs:368-388 | status, tag, mood, pace, author, format and shelf take any word and refuse every comparison |
| FilterFields.DatesAccepted | crates/toku-core/src/filter.rs:403-425 | the two date fields take every four-digit year and every day of two-digit month and day, with each operator |
| FilterFields.OtherDatesRefused | crates/toku-core/src/filter.rs:403-425 | they refuse another length, another character in the year, and a day without its hyphens |
| FilterWords.OtherDaysRefused | crates/toku-core/src/filter.rs:403-425 | and another character in month or day |
| FilterFields.FieldNames | crates/toku-core/src/filter.rs:61-76 | the names of each field, in any ASCII case, and no others |
| FilterWords.UnknownFieldRefused | crates/toku-core/src/filter.rs:312-325 | a word without a colon, or with another name before it, is refused |
| FilterWords.EqualsSignIsDropped | crates/toku-core/src/filter.rs:327-340 | an equals sign in front of the value changes nothing |
| FilterWords.ValueMayStandApart | crates/toku-core/src/filter.rs:342-393 | the value may be the next word after any white space, unless that is a keyword in any case |
| FilterWords.NoValue | crates/toku-core/src/filter.rs:342-366 | a parenthesis is no value, and a missing one is refused |
| FilterWords.LoneParenRefused | crates/toku-core/src/filter.rs:288-310 | an expression with a parenthesis that is not closed, or was not opened, is refused |
| FilterFields.KnownNumbers | crates/toku-core/src/filter.rs:456-467 | the documented comparisons of pages and rating parse to themselves |
| FilterFields.KnownExpressions | crates/toku-core/src/filter.rs:497-524 | the conjunction binds tighter than the alternative, and parentheses group, on the text |
| FilterTokens.PrintTokenizes | crates/toku-core/src/filter.rs:169-254 | the printed text has exactly the expression's tokens, whatever comes after it |
| FilterWords.PrintedName | crates/toku-core/src/filter.rs:44-59 | a field is printed by the first of its names |
| FilterTheorem.PrintedFilterParses | crates/toku-core/src/filter.rs:137-401 | every printable expression, with one operand or more per node, is read back from its text with nested operators of a kind merged |
| FilterTheorem.FlattenKeepsMeaning | crates/toku-core/src/filter.rs:258-286 | the merged expression evaluates the same under every valuation |
| FilterTheorem.FlattenKeepsText | crates/toku-core/src/filter.rs:169-204 | and prints the same text |
| FilterTheorem.FilterRoundTrip | crates/toku-core/src/filter.rs:137-401 | all of these together, and from then on the text reads back as itself |
| FilterExact.ConditionSurvivesExactly | crates/toku-core/src/filter.rs:200-401 | a condition is read back from its text if and only if it is valid and its value is one word, does not start like an operator and is not wrapped in quotes |
| FilterExact.TypedFilterSurvives | crates/toku-core/src/filter.rs:137-401 | whatever text parses, if its values are plain the filter can be printed and read back with the same meaning |
| FilterExact.QuotesAreLost | crates/toku-core/src/filter.rs:312-401 | a quoted value with a space or parenthesis parses but does not survive printing |
| Streaks.ComputeStreaks | crates/toku-core/src/stats.rs:353-392 | total counts the distinct days, longest is the greatest run of consecutive days, current is the maximal run ending with the last day if that is no earlier than yesterday |
| Streaks.SortedIsSorted | crates/toku-core/src/stats.rs:362-365 | sorting and deduplicating keeps the set of days |
| Isbns.ParseIsExact | crates/toku-core/src/isbn.rs:12-42 | parsing yields exactly the valid codes, and a code's text reads back as the code |
| IsbnCodes.Valid13IsStandard | crates/toku-core/src/isbn.rs:105-118 | thirteen digits are a valid code if and only if d1 + 3 d2 + d3 + .. + 3 d12 + d13, written out, is divisible by 10 |
| IsbnCodes.Valid10IsStandard | crates/toku-core/src/isbn.rs:86-103 | ten symbols are one if and only if 10 d1 + 9 d2 + .. + 2 d9 + d10, written out, is divisible by 11 |
| IsbnCodes.Check13IsStandard | crates/toku-core/src/isbn.rs:120-131 | the computed check digit makes up for the written-out sum of twelve digits |
| IsbnCodes.Check10IsStandard | crates/toku-core/src/isbn.rs:133-148 | the computed check symbol makes up for that of nine |
| IsbnCodes.CodesOfDune | crates/toku-core/src/isbn.rs:154-178 | the codes of the program's own examples are valid, with and without hyphens and with a letter |
| IsbnCodes.WrongCodes | crates/toku-core/src/isbn.rs:198-207 | a wrong check digit and a wrong length are refused |
| IsbnCodes.ConversionsOfDune | crates/toku-core/src/isbn.rs:179-197 | 0441013597 converts to 9780441013593 and back, and a 979 code has no ISBN-10 |
| Isbns.CheckCompletes10 | crates/toku-core/src/isbn.rs:86-148 | exactly one symbol completes nine digits to a valid ISBN-10 |
| Isbns.CheckCompletes13 | crates/toku-core/src/isbn.rs:106-131 | exactly one digit completes twelve digits to a valid ISBN-13 |
| Isbns.ConvertedIsValid | crates/toku-core/src/isbn.rs:46-56 | the ISBN-13 of a valid ISBN-10 is valid if and only if no `X` stands among the first nine symbols |
| Isbns.TenToThirteenAndBack | crates/toku-core/src/isbn.rs:46-71 | converting such an ISBN-10 and back gives the original |
| Isbns.ThirteenToTenAndBack | crates/toku-core/src/isbn.rs:46-71 | converting a 978 ISBN-13 gives a valid ISBN-10 that converts back |
| Isbns.OneError10 | crates/toku-core/src/isbn.rs:86-104 | changing one symbol of a valid ISBN-10 makes it invalid |
| Isbns.OneError13 | crates/toku-core/src/isbn.rs:106-120 | changing one digit of a valid ISBN-13 makes it invalid |
| Isbns.Swap10 | crates/toku-core/src/isbn.rs:86-104 | swapping any two different symbols of a valid ISBN-10 makes it invalid |
| Isbns.NeighbourSwap13 | crates/toku-core/src/isbn.rs:106-120 | an ISBN-13 misses a swap of neighbours if and only if the digits differ by five |
| Wraps.WrapText | crates/toku-cli/src/account.rs:169-187 | the loop gives the greedy lines of the text's words |
| WrapWords.WordsArePartedBySpace | crates/toku-cli/src/account.rs:169-187 | any character with the White_Space property parts the words of a text |
| WrapWords.OneWordOrNone | crates/toku-cli/src/account.rs:169-187 | a text without one is one word, or none if it is empty |
| Wraps.WrapKeepsWords | crates/toku-cli/src/account.rs:169-187 | line by line the words are those of the text |
| Wraps.WrapFits | crates/toku-cli/src/account.rs:169-187 | every line is within the limit in bytes or a single word |
| Wraps.WrapIsShortest | crates/toku-cli/src/account.rs:169-187 | no other lines with the same words and within the limit in bytes are fewer |
| Wraps.AsciiWrapCountsChars | crates/toku-cli/src/account.rs:168-187 | for words in ASCII every line is within the limit in characters, and no grouping into such lines has fewer |
| Wraps.BytesBreakLine | crates/toku-cli/src/account.rs:168-187 | two words that share a line by characters are broken apart if and only if their bytes exceed the limit |

## Left out

- MergeEngines.MergeEngine.ApplyOp: the creation and update times of books, notes and reviews are not in the tables of the merge model, because no merge rule reads them. The backup model has them.
- Affinities.ParseNumber: numbers are exact, where SQLite rounds to 64-bit floating point.
- Text.LowerCase: case folding is ASCII only, as in SQLite's NOCASE; Rust's `to_lowercase` on statuses, formats and tag types also folds other alphabets.
- Instants.ParseInstant: a leap second (`:60`) does not parse, and neither does the one day of year 0 that a positive offset moves before it.
- Hlc.HlcTimestamp: instants before year 0 are not representable.
- HybridClocks.MergeAt: the 16-bit counter wraps, as in a release build; a debug build panics at 65535 instead.
- MergeEngines.MergeEngine.MergeBookFields: fields are visited in the ascending order of a JSON object; other key orders would end a refused update at another field.
- Snapshots.Load: the rating check of a session is not applied again on import; an exported session has passed it.
- Snapshots.SnapshotRepository.ExportSnapshot: rows come in any order; the order of the queries is not modelled.
- Backfills.Readable: the keys of rows, and references to them, are taken to be UUIDs, as those of every op are; the program's row readers also drop rows whose keys, or whose creation and update times of books and tags, do not parse.
- LibraryIos.LibraryIo.RestoreLibrary: the per-table result counters and the search text are not modelled.
- Filters.ParseFilter: errors carry no message.
- Streaks.ComputeStreaks: days are consecutive numbers; the conversion from calendar dates is not part of this member.
- Conflict resolution (`apply_resolution`): it uses an unseeded clock and overwrites the clock row unconditionally, so none of the order results covers it.
- Encryption, checksums, the sync server and client, cursors, authentication.
- SQL text, migrations, full-text search and the repository's other queries.
- The JSON form of ops, filters, snapshots and backups; fields are typed maps.
- Statistics with floating point, calendars of finished books, CLI, TUI and rendering.
