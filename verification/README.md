# Kaleidoscope, modelled and proved in Dafny

Kaleidoscope is an observability platform: a gateway takes telemetry in, stores keep
it, an alerting process evaluates rules over it, and a command-line tool reads it back.
This project models the parts whose correctness is a matter of arithmetic or of what
can happen over a whole run, and proves what they promise.

- **Calendar, Decimal, Iso8601**: the tool's timestamps. Civil dates and day numbers
  are inverse to each other and count real calendar days; the printer and the parser
  are inverse where 64 bits allow it; the accepted language is characterised exactly.
- **EditDistance, NearestMatch**: the suggestion engine. The two-row computation is the
  length of a shortest chain of edits; suggestions do not depend on catalogue order.
- **ZScore**: the online mean and variance against their two-pass definitions.
- **BodyCap**: the bounded gRPC body reader. Verdicts depend on bytes, not on framing.
- **Readiness**: the gateway's lock-free phase, over all interleavings of its steps.
- **WalRecovery, TextCodec, DurableLog**: the write-ahead log at the level of its text,
  and the snapshot-and-log protocol shared by two stores, over all runs with crashes
  between disk steps and in the middle of a line, again and again.
- **Tiering, Sweeps, FileBackedTiering**: tier metadata in memory and on disk. The
  file-backed store runs that protocol and agrees with the in-memory store.
- **RuleMachine, Inhibition, Deliveries, Reloads, Storm, RuleStateStore, RuleLoop,
  RuleHistory, LostPages, RuleCatalogue**: alerting. What a rule's emissions mean, what suppression
  delivers, what reloads keep, when a storm can go silent, what the durable states keep,
  no re-paging across crashes and reloads, and what becomes of every page.
- **LogOverlay**: the demo overlay, whose filtered read is its plain read, filtered.

State that the program updates in place is a class with the same fields; each method is
proved against a function, and the theorems are about that function over whole runs.
`dafny verify dfyconfig.toml` checks the project.

## Where the code and its documentation differ

The model follows the code, and says exactly when the documented property holds.

- A sweep is documented as idempotent (crates/cinder/src/store.rs:120-122). With a zero
  warm threshold a second sweep at the same time moves the same item again
  (`Sweeps.SecondSweepCanMove`); `Sweeps.SecondSweepIsIdle` gives the exact condition.
- A flip of the readiness phase is documented as landing from any other phase
  (crates/aperture/src/readiness.rs:136-138). Begun in `Starting` it can miss, because a
  promotion may come between its two compare-exchanges (`Readiness.InterloperMisses`,
  `Readiness.FlipLandsExactly`).
- Recovery drops a torn tail but does not remove it from the file, so the next
  acknowledged append makes the log unreadable unless a snapshot empties it first
  (`DurableLog.AppendBehindCut`). A record recovered without its newline is lost again
  by a second cut write (`DurableLog.SecondCut`, `Tiering.RecoveredItemVanishes`), and
  if a snapshot holds it by then, older records are replayed over it, which can give an
  entry that was never there (`Tiering.RepeatMixesRecords`).
- A failed append is meant to leave memory and disk equal, but part of its line, or all
  of it, may be in the file; `DurableLog.PartialWrite` says exactly when that is
  harmless. What the next append then does depends on the writer's buffer: it completes
  the failed line from it (`DurableLog.DelayedWrite`), or, when the rest of the line is
  gone, as after a restart, it makes the log unreadable
  (`DurableLog.AppendBehindFailure`).
- The parser accepts years up to 9999, but its 64-bit result wraps after
  2554-07-21T23:34:33.709551615Z (`Iso8601.ParseOverflows`, `Iso8601.FormatOfParse`).
- Suppression is meant to collapse a storm, not to silence it. Within one generation it
  can silence one exactly when a cycle of the inhibits relation is entered from outside
  (`Storm.SilenceExactly`).
- A reload is documented as letting no removed inhibitor go on suppressing a survivor
  (crates/beacon/src/inhibition.rs:108-114). It does when another rule that does not
  fire declares the inhibition: the page stays held and nothing inhibits it.
  `Reloads.ReloadKeepsInvExactly` gives the exact condition, and
  `Storm.ReloadSilenceExactly` the catalogues for which such a reload can silence a
  storm. A reload can also drop a held page of a rule that goes on firing, or remove a
  rule whose page is out; `Reloads.ReloadKeepsStepExactly` says when deliveries still
  alternate.
- A resolution is documented as going out only for a page that did
  (crates/beacon/src/inhibition.rs:160-164). After a restart the resolver does not know
  of pages lost before it: `LostPages.OrphanResolution` is a run that delivers a
  resolution only, and `LostPages.OrphanExactly` says exactly when that happens. A
  reload that comes between the persisting of a resolution and its observation leaves
  the flag of the rule on, and the rule goes on inhibiting
  (`RuleHistory.WrongFlagExactly`, `RuleHistory.DroppedResolutionInhibits`).
- A firing state starts at the tick that pages, not at the pending start plus the
  duration as the comment at crates/beacon/src/state_machine.rs:57-59 says; compare
  crates/beacon/src/state_machine.rs:109, `RuleMachine.FiringSince` and the two ticks of
  `RuleMachine.FiringSinceIsLate`.

## Model

| member | source | states |
|---|---|---|
| `Calendar.CivilFromDaysInverse` | crates/kaleidoscope-cli/src/lib.rs:696-708 | for every integer day, negative eras included: the intermediate era day, era year, day of year and month stay in their commented ranges, the date is a date of the calendar, and its day number is the day |
| `Calendar.DaysFromCivilInverse` | crates/kaleidoscope-cli/src/lib.rs:719-728 | every calendar date of every year is recovered from its day number |
| `Calendar.NextDayCounts` | crates/kaleidoscope-cli/src/lib.rs:719-728 | the day number counts calendar days: the successor of a date under the month lengths and the leap rule has the next number, and 1970-01-01 is day 0 |
| `Calendar.DaysAreMonotone` | crates/kaleidoscope-cli/src/lib.rs:719-728 | one date is before another exactly when its day number is smaller |
| `Calendar.ErasAreFloors` | crates/kaleidoscope-cli/src/lib.rs:696-722 | truncating division of the shifted numerator is floor division, for days and for years of either sign |
| `Calendar.YearFitsI32` | crates/kaleidoscope-cli/src/lib.rs:704-708 | the exact interval of days whose year survives the cast to 32 bits |
| `Calendar.YearOfEraSplits` | crates/kaleidoscope-cli/src/lib.rs:700-701 | the correction terms name the one year of the era that holds the day |
| `Calendar.MonthOfDaySplits` | crates/kaleidoscope-cli/src/lib.rs:702-704 | the month formula names the one month that holds the day of year, with the calendar's month lengths |
| `Decimal.PaddedRoundTrip` | crates/kaleidoscope-cli/src/lib.rs:688-688 | a number printed at a fixed width has that width and reads back |
| `Decimal.ValueRoundTrip` | crates/kaleidoscope-cli/src/lib.rs:821-830 | a run of digits is what printing its value at its length gives |
| `Iso8601.ParseDigits` | crates/kaleidoscope-cli/src/lib.rs:821-830 | the digit loop returns the value of the run, or the position of the first byte that is no digit |
| `Iso8601.ParseIso8601` | crates/kaleidoscope-cli/src/lib.rs:798-917 | the whole parser with its checks in order equals the parse function that the following rows are about |
| `Iso8601.ParseAccepts` | crates/kaleidoscope-cli/src/lib.rs:798-910 | the accepted language, both ways: a text is accepted exactly when it is the layout of a valid clock of the years 1970 to 9999 with zero to nine fraction digits |
| `Iso8601.AcceptedByBytes` | crates/kaleidoscope-cli/src/lib.rs:798-910 | the same byte by byte: the lengths, each punctuation character at its place, digits everywhere else, and the two-digit numbers that are in their ranges |
| `Iso8601.ValueByBytes` | crates/kaleidoscope-cli/src/lib.rs:905-916 | the value of an accepted text from its digits and the day number, modulo 2^64 |
| `Iso8601.ShortFractions` | crates/kaleidoscope-cli/src/lib.rs:890-910 | a fraction of fewer than nine digits means the same as when zeros fill it up |
| `Iso8601.ParseIsSound` | crates/kaleidoscope-cli/src/lib.rs:798-917 | an accepted text is the layout of what was read from it, and the result is that instant modulo 2^64 |
| `Iso8601.ParseOfLayout` | crates/kaleidoscope-cli/src/lib.rs:798-917 | every layout of a valid clock and fraction parses to its instant modulo 2^64 |
| `Iso8601.ErrorsAreTrue` | crates/kaleidoscope-cli/src/lib.rs:736-753 | each error is true of the text and is the first that applies in the parser's order: the length; the first wrong punctuation byte; the first byte in a digit slot that is no digit, in the fraction only when the clock is right; all six fields being numbers, the first that is out of its range |
| `Iso8601.ParseOfFormat` | crates/kaleidoscope-cli/src/lib.rs:679-689 | printing and parsing gives back every 64-bit instant |
| `Iso8601.EpochText` | crates/kaleidoscope-cli/src/lib.rs:679-689 | instant zero is printed as 1970-01-01T00:00:00.000000000Z |
| `Iso8601.FormatOrder` | crates/kaleidoscope-cli/src/lib.rs:679-689 | byte order of printed timestamps is time order, and different instants print differently |
| `Iso8601.LayoutOrder` | crates/kaleidoscope-cli/src/lib.rs:688-688 | the same order for every nine-digit text of the years 1970 to 9999, beyond 64 bits too |
| `Iso8601.FormatOfParse` | crates/kaleidoscope-cli/src/lib.rs:798-917 | an accepted text of nine fraction digits is reprinted as it was exactly when it is not after the print of the last 64-bit instant |
| `Iso8601.ParseOverflows` | crates/kaleidoscope-cli/src/lib.rs:912-916 | the seconds never overflow, and the nanoseconds wrap exactly after 2554-07-21T23:34:33.709551615Z |
| `Iso8601.FirstTextThatWraps` | crates/kaleidoscope-cli/src/lib.rs:912-916 | the text one nanosecond later is accepted and read as the epoch |
| `Iso8601.SecondsOrder` | crates/kaleidoscope-cli/src/lib.rs:912-914 | seconds since the epoch order clocks as the calendar and the time of day do |
| `EditDistance.Levenshtein` | crates/codex/src/fuzzy.rs:39-70 | the two swapped rows compute the length of a shortest chain of single-character insertions, deletions and substitutions |
| `EditDistance.FillRow` | crates/codex/src/fuzzy.rs:53-67 | one row of prefix distances yields the next |
| `EditDistance.DistIsShortest` | crates/codex/src/fuzzy.rs:39-70 | the recurrence value is reached by some chain of edits and by no shorter one |
| `EditDistance.DistIsMetric` | crates/codex/src/fuzzy.rs:39-70 | identity, symmetry and the triangle inequality |
| `EditDistance.EditClose` | crates/codex/src/fuzzy.rs:59-64 | one edit anywhere in a string changes a distance by at most one |
| `NearestMatch.NearestIsLeast` | crates/codex/src/fuzzy.rs:85-109 | the suggestion is at most two edits away and closer than any other name, or as close and before it: a proper prefix of it, or smaller at the first character where they differ; there is none exactly when all names are further than two |
| `Sequences.LexLessMeans` | crates/codex/src/fuzzy.rs:99-103 | the recursive order is the order of the first difference, a proper prefix first |
| `NearestMatch.OrderDoesNotMatter` | crates/codex/src/fuzzy.rs:85-109 | catalogues with the same names give the same suggestion, whatever their order and repetitions |
| `NearestMatch.NearestField` | crates/beacon/src/loader.rs:293-307 | the loader's loop finds the first of the closest fields within distance three, or none exactly when all are further |
| `ZScore.ZScoreObserver.constructor` | crates/augur/src/zscore.rs:57-65 | a new observer has seen nothing, and its warm-up is at least two samples |
| `ZScore.ZScoreObserver.Observe` | crates/augur/src/zscore.rs:84-128 | mean and m2 stay the arithmetic mean and the sum of squared deviations of the whole history; an anomaly is reported exactly when warmed up and the squared deviation from the prior baseline meets the squared threshold times the variance; the score squared times the variance is the squared deviation, its sign is that of the deviation, and it is zero without a baseline that varies |
| `ZScore.VarianceOfTwo` | crates/augur/src/zscore.rs:74-82 | the sample variance of the smallest baseline |
| `ZScore.ZScoreObserver.Reset` | crates/augur/src/zscore.rs:134-138 | back to an empty history |
| `ZScore.WelfordStep` | crates/augur/src/zscore.rs:107-111 | the one-pass update of mean and m2 is the step of the two-pass definitions, for every sequence and value |
| `ZScore.OrderIndependent` | crates/augur/src/zscore.rs:107-111 | mean and squared deviations depend on the multiset of observations alone |
| `ZScore.SpreadIsNonNegative` | crates/augur/src/zscore.rs:107-111 | squared deviations from any centre are never negative, so m2 is not |
| `ZScore.ScoreBySquares` | crates/augur/src/zscore.rs:95-117 | the test of the z-score against the threshold is a comparison of squares |
| `BodyCap.CollectWithinCap` | crates/aperture/src/body_size_cap.rs:368-410 | the streaming reader's outcome depends on the concatenated bytes before a read failure only, and the buffer holds at most limit + 5 bytes before every append |
| `BodyCap.ChunkingDoesNotMatter` | crates/aperture/src/body_size_cap.rs:368-410 | two readable bodies with the same bytes get the same outcome, observed size included; an accepted body is forwarded byte for byte; and the exact condition of acceptance |
| `BodyCap.VerdictIsStable` | crates/aperture/src/body_size_cap.rs:380-428 | a refusal on a prefix is the refusal of every extension, with the same observed size |
| `BodyCap.FailuresAreNotAccepted` | crates/aperture/src/body_size_cap.rs:368-410 | a body whose read fails is never accepted; it is an error exactly when no refusal came first |
| `BodyCap.MessageWithinCap` | crates/aperture/src/body_size_cap.rs:416-428 | an honestly framed message is refused exactly when it is longer than the limit, whatever its bytes |
| `BodyCap.FramedVerdict` | crates/aperture/src/body_size_cap.rs:380-428 | the verdict on every frame, honest or not: refused with the length it announces when that is over the limit, with one byte over the limit when it brings more than the limit, let through otherwise |
| `BodyCap.EveryBodyIsFramed` | crates/aperture/src/body_size_cap.rs:416-428 | every body is such a frame, or shorter than a header and let through |
| `BodyCap.Call` | crates/aperture/src/body_size_cap.rs:317-349 | no cap and a zero cap pass through unread; otherwise forward, refuse with limit and size, or internal error, by the bytes alone |
| `Readiness.PhaseOnlyRises` | crates/aperture/src/readiness.rs:85-219 | over every interleaving of any number of calls split at their atomic steps: the phase stays or rises Starting, Ready, terminal, and Ready implies both listeners bound |
| `Readiness.EmissionsAreChanges` | crates/aperture/src/readiness.rs:106-219 | log lines written plus those about to be written equal the phase changes, which the rank bounds |
| `Readiness.RunEmissions` | crates/aperture/src/readiness.rs:106-219 | at most two lines over a whole run, and exactly one per change once all calls returned |
| `Readiness.FlipLands` | crates/aperture/src/readiness.rs:139-219 | a flip begun after Starting has left the phase terminal when it returns, in every run |
| `Readiness.FlipLandsExactly` | crates/aperture/src/readiness.rs:139-219 | from any reachable state, a flip called now lands in all continuations if and only if the phase is not Starting at the call |
| `Readiness.InterloperMisses` | crates/aperture/src/readiness.rs:139-219 | the run in which a promotion between the two compare-exchanges makes both fail |
| `Readiness.ReadinessState.constructor` | crates/aperture/src/readiness.rs:60-72 | a fresh state is Starting with nothing bound |
| `Readiness.ReadinessState.Atomic` | crates/aperture/src/readiness.rs:85-219 | each atomic step on the object's fields is a step of the interleaved machine |
| `Readiness.ReadinessState.Perform` | crates/aperture/src/readiness.rs:85-219 | a call that runs alone: a flip is sticky, always lands and leaves the listeners alone, a mark promotes exactly when both listeners are then bound, and one line is logged exactly when the phase changed |
| `WalRecovery.Replay` | crates/wal-recovery/src/lib.rs:51-96 | the line loop applies exactly the records of the readable lines, or reports the number of the line it refuses |
| `WalRecovery.ReplayExactly` | crates/wal-recovery/src/lib.rs:51-96 | for every text: the replay is refused at the first line, not the rest behind the last newline, that is neither empty nor a record; otherwise it reads exactly the lines that are records, in order, and skips empty lines anywhere |
| `WalRecovery.SplitIsLines` | crates/wal-recovery/src/lib.rs:61-68 | the lines are what lies between the newlines |
| `WalRecovery.IntactLog` | crates/wal-recovery/src/lib.rs:51-96 | a log read back is what was appended |
| `WalRecovery.TornTailIsDropped` | crates/wal-recovery/src/lib.rs:51-96 | a log that ends in cut writes, however many, reads as its whole records; a single write that lacks only its newline still counts |
| `WalRecovery.GluedLineIsRefused` | crates/wal-recovery/src/lib.rs:51-96 | a line made of several writes, or of a part of one, is refused with its line number, whatever follows |
| `WalRecovery.RecordsBehind` | crates/wal-recovery/src/lib.rs:51-96 | whole lines in front of any text add their records and shift the line numbers of what follows |
| `TextCodec.JsonLikeCodecsExist` | crates/wal-recovery/src/lib.rs:51-96 | the assumptions on the encoding can be met for every type whose values a text tells apart |
| `DurableLog.RunIsDurable` | crates/cinder/src/file_backed.rs:145-249 | over every run of appends, failed appends, snapshots, reopens and crashes between disk steps or anywhere in an append, repeatedly: memory is the replay of the committed records, and reopening gives the same, or is refused exactly when a record was written behind a cut one |
| `DurableLog.AcknowledgedSurvive` | crates/cinder/src/file_backed.rs:420-435 | the acknowledged records are among the committed ones, in order; the others are at most one record per append cut by a crash, and records replayed a second time over a snapshot |
| `DurableLog.CommittedWereAccepted` | crates/cinder/src/file_backed.rs:304-330 | every committed record was acceptable in the state it is replayed onto |
| `DurableLog.AppendBehindCut` | crates/cinder/src/file_backed.rs:187-193 | after an append the store reopens if and only if the log had no cut line: open drops a torn tail without truncating it |
| `DurableLog.PartialWrite` | crates/cinder/src/file_backed.rs:420-435 | a write that stopped after any number of bytes, by a failure or a crash, onto any readable log: the disk still recovers to the memory exactly when nothing was written; on an intact log, the record is not whole or has no effect; behind a cut line, no newline was written and no recovered record is spoilt that has an effect |
| `DurableLog.AppendBehindFailure` | crates/cinder/src/file_backed.rs:420-435 | a failed append that left part of its line, the rest of it not in the writer's buffer, makes the next acknowledged append unreadable |
| `DurableLog.DelayedWrite` | crates/cinder/src/file_backed.rs:420-435 | a failed line that the buffered writer puts into the file with the next append: memory and disk agree if and only if the next record hides the failed one |
| `DurableLog.SecondCut` | crates/cinder/src/file_backed.rs:187-193 | a second crash behind a cut line loses nothing if and only if the line was not a whole record lacking its newline, or that record has no effect |
| `Tiering.ReplayTwice` | crates/cinder/src/file_backed.rs:437-470 | replaying a log onto the map it produced changes nothing, overwriting placements and skipped migrations included |
| `Tiering.ReplaySuffix` | crates/cinder/src/file_backed.rs:437-470 | nor does replaying any suffix of it |
| `Tiering.ReplayByKey` | crates/cinder/src/file_backed.rs:437-470 | a replay works key by key |
| `Tiering.ReplayOutcome` | crates/cinder/src/file_backed.rs:437-470 | what a replay leaves of an item, from the records alone: its last placement and its last record decide, and a migration of an item never placed does nothing |
| `Tiering.SnapshotCrashPoints` | crates/cinder/src/file_backed.rs:206-249 | opening before the rename, between rename and truncation, and after truncation gives the same map, with a torn tail in the log or not |
| `Tiering.TieringRunIsDurable` | crates/cinder/src/file_backed.rs:145-435 | over every run, repeated crashes included: memory and recovery are the replay of the committed records, acknowledged records are among them in order, and every committed migration names an item present at that point |
| `Tiering.RecoveredItemVanishes` | crates/cinder/src/file_backed.rs:187-193 | the run in which a recovered placement is gone after a second cut write |
| `Tiering.RepeatMixesRecords` | crates/cinder/src/file_backed.rs:187-249 | the run that opens with an entry that was never there: an older migration replayed over a newer placement that the snapshot holds and the log has lost |
| `Tiering.TieringCodecsExist` | crates/cinder/src/file_backed.rs:73-89 | the tiering records have an encoding with the assumed properties |
| `Sweeps.CollectDue` | crates/cinder/src/store.rs:234-248 | the scan lists, each once, exactly the hot entries that are hot_to_warm old and the warm ones that are warm_to_cold old, in whatever order the map yields |
| `Sweeps.SweepByFields` | crates/cinder/src/store.rs:232-264 | the sweep of every entry from its fields and the policy alone: hot to warm, warm to cold, or unchanged |
| `Sweeps.SweepIsMoves` | crates/cinder/src/store.rs:232-264 | moving the due entries one by one in any order is the sweep: each due entry one tier on, nothing else changed |
| `Sweeps.MovesInOrder` | crates/cinder/src/store.rs:249-264 | migrating distinct items one after the other moves each of them once, whatever the order |
| `Sweeps.SweepsMoveForward` | crates/cinder/src/store.rs:232-264 | over any sequence of sweeps an item's tier rank rises by the number of its moves, at most two, and its placement time stays |
| `Sweeps.SecondSweepIsIdle` | crates/cinder/src/store.rs:232-264 | a second sweep at the same time finds nothing due if and only if the warm threshold is positive or the first sweep had no hot entry to move |
| `Sweeps.SecondSweepCanMove` | crates/cinder/src/store.rs:120-122 | the documented idempotence fails with a zero warm threshold |
| `Sweeps.InMemoryTieringStore.PlaceItem` | crates/cinder/src/store.rs:165-184 | the map after a placement |
| `Sweeps.InMemoryTieringStore.MigrateItem` | crates/cinder/src/store.rs:199-220 | an unknown item is an error and changes nothing; a known one keeps its placement time |
| `Sweeps.InMemoryTieringStore.EvaluateAt` | crates/cinder/src/store.rs:232-264 | every entry afterwards, from its fields at entry and the policy: due hot ones are warm, due warm ones cold, all else unchanged; and the count is the number of due ones |
| `FileBackedTiering.OpenStore` | crates/cinder/src/file_backed.rs:145-201 | opening leaves the files alone and recovers what the protocol recovers or reports the unreadable line; a log that ends in cut writes gives a store whose memory and disk agree |
| `FileBackedTiering.FileBackedTieringStore.ValidMeansRecoverable` | crates/cinder/src/file_backed.rs:145-201 | what the methods keep, cut writes in the log or not, means that a reopen gives the map in memory or is refused at the glued line |
| `FileBackedTiering.FileBackedTieringStore.AppendWal` | crates/cinder/src/file_backed.rs:420-435 | a good append adds one line; a failed one any part of it |
| `FileBackedTiering.FileBackedTieringStore.PlaceItem` | crates/cinder/src/file_backed.rs:262-289 | on any store a step of the protocol, and memory and disk stay in step unless a failed write left bytes that replay reads |
| `FileBackedTiering.FileBackedTieringStore.MigrateItem` | crates/cinder/src/file_backed.rs:304-330 | unknown item, failed write and success on any store: a step of the protocol or no change, memory and disk in step as for a placement |
| `FileBackedTiering.FileBackedTieringStore.EvaluateAt` | crates/cinder/src/file_backed.rs:342-391 | on any store: on success every entry and the count as in the in-memory sweep, from the fields and the policy; on a failed append exactly a prefix of the chosen order is moved, in memory and on disk alike, with what the failed write left behind it |
| `FileBackedTiering.FileBackedTieringStore.Snapshot` | crates/cinder/src/file_backed.rs:206-249 | the two disk steps of a snapshot, on any store; the map in memory is untouched, and a log that ends in cut writes, or is unreadable, is repaired |
| `RuleMachine.FiresExactly` | crates/beacon/src/state_machine.rs:87-128 | over any ticks from Inactive, a rule pages at a tick if and only if it is the first of its unbroken active stretch, after the opening one, at or after the opening time plus the duration; the incident starts at that tick |
| `RuleMachine.FiresByTimes` | crates/beacon/src/state_machine.rs:87-128 | the same for a given stretch, from the tick times alone, a clock that goes back included |
| `RuleMachine.PendingFires` | crates/beacon/src/state_machine.rs:104-115 | a pending rule fires exactly at or after its start plus the duration, or at once without a duration |
| `RuleMachine.ResolvesExactly` | crates/beacon/src/state_machine.rs:87-128 | a resolution comes at a tick if and only if it is the first inactive one after a page, and it carries that page's start |
| `RuleMachine.StateIsMeant` | crates/beacon/src/state_machine.rs:87-128 | what each state says about the ticks so far |
| `RuleMachine.FiringSince` | crates/beacon/src/state_machine.rs:57-59 | the time in a firing state is the documented deadline if and only if the paging tick falls on it; for a positive duration it is never before it |
| `RuleMachine.FiringSinceIsLate` | crates/beacon/src/state_machine.rs:104-112 | two ticks after which it is later |
| `Inhibition.InhibitionResolver.constructor` | crates/beacon/src/inhibition.rs:72-84 | a new resolver has the whole inhibits list of the last rule of every name and no other names, all flags off and nothing held |
| `Inhibition.NewInhibits` | crates/beacon/src/inhibition.rs:72-84 | one rule inhibits another in the relation exactly when the last rule of its name lists it |
| `Inhibition.NewByRules` | crates/beacon/src/inhibition.rs:72-84 | the relation keeps every list whole and in order |
| `Inhibition.InhibitionResolver.RebuildFrom` | crates/beacon/src/inhibition.rs:115-132 | from the rules and the carry-over: the relation is that of the rules, flags of known names are carried over and others off, and exactly the held pages of known rules that some other rule declares to inhibit stay |
| `Inhibition.InhibitionResolver.HasActiveInhibitorOf` | crates/beacon/src/inhibition.rs:207-220 | the scan answers whether some other firing rule inhibits the target |
| `Inhibition.InhibitionResolver.ObserveEmission` | crates/beacon/src/inhibition.rs:168-204 | the new maps and the emissions handed out, releases in the declared order |
| `Inhibition.ObserveKeepsInv` | crates/beacon/src/inhibition.rs:168-204 | every observation keeps: a held page belongs to a firing rule and some other firing rule inhibits it |
| `Inhibition.ReleaseRemoves` | crates/beacon/src/inhibition.rs:181-200 | a release pass lets go exactly the held pages without an active inhibitor |
| `Deliveries.DeliveriesAlternate` | crates/beacon/src/inhibition.rs:168-204 | with alternating inputs, deliveries per rule alternate starting with a page, in step with what is firing and not held |
| `Deliveries.PageExactly` | crates/beacon/src/inhibition.rs:168-181 | a page is held, and otherwise delivered, exactly when some other rule that is on declares to inhibit its rule, from the rules and the inputs |
| `Deliveries.ResolutionExactly` | crates/beacon/src/inhibition.rs:182-204 | a resolution is delivered unless it cancels its held page; then come, in the order in which the rule lists them and each once, the held pages of the rules that no other rule that is on declares to inhibit |
| `Deliveries.HeldAfterResolution` | crates/beacon/src/inhibition.rs:182-204 | and all other held pages stay |
| `Deliveries.PagesAreConserved` | crates/beacon/src/inhibition.rs:168-204 | unless a rule pages twice in a row, pages received equal pages delivered, still held and cancelled by their resolution; a resolution may come first, as after a restart |
| `Deliveries.FlagsAreLastWord` | crates/beacon/src/inhibition.rs:168-204 | whatever is observed, held pages have a firing inhibitor and the flags are the last word of the inputs |
| `Deliveries.FiringPagesAreOut` | crates/beacon/src/inhibition.rs:168-204 | whatever is observed, a firing rule whose page is not held had it delivered |
| `Deliveries.ResolutionsBalance` | crates/beacon/src/inhibition.rs:168-204 | resolutions received equal resolutions delivered plus cancellations, for any inputs |
| `Reloads.RebuildIsSafe` | crates/beacon/src/inhibition.rs:93-147 | after any run of observations and reloads, under any new catalogue: names are exactly the catalogue's, flags of survivors are kept, a held page belongs to a firing rule, and a page stays held exactly when its rule survives with a declared inhibitor |
| `Reloads.RebuildIsIdentity` | crates/beacon/src/inhibition.rs:93-147 | after any run of observations and reloads, reloading the live catalogue changes nothing |
| `Reloads.LiveKnows` | crates/beacon/src/inhibition.rs:72-204 | every live resolver, after any number of reloads, is about the rules of its catalogue only and holds pages of firing rules with declared inhibitors |
| `Reloads.ReloadKeepsInvExactly` | crates/beacon/src/inhibition.rs:104-132 | a reload keeps that a held page has a firing inhibitor if and only if every page that stays held has one among the new inhibitors |
| `Reloads.HeldAreInhibited` | crates/beacon/src/inhibition.rs:115-204 | over runs of observations and such reloads, a held page has a firing inhibitor at every point |
| `Reloads.ReloadKeepsStepExactly` | crates/beacon/src/inhibition.rs:115-132 | a reload keeps the resolver in step with what was delivered if and only if no rule whose page is out is removed and no held page of a survivor is dropped |
| `Reloads.DeliveriesAcrossReloads` | crates/beacon/src/inhibition.rs:115-204 | over runs of observations and such reloads, deliveries per rule alternate, a page first |
| `Storm.HeldPagesLeadUp` | crates/beacon/src/inhibition.rs:168-220 | whatever is observed in one generation: without cycles other than self-inhibition, each held page has an upstream chain of firing rules to one whose page was delivered |
| `Storm.SilenceExactly` | crates/beacon/src/inhibition.rs:168-220 | within one generation, over all inputs in which no rule pages twice in a row, a catalogue admits a wholly silent storm if and only if its relation has a cycle inhibited by a rule outside of it |
| `Storm.SecondPageSilences` | crates/beacon/src/inhibition.rs:168-204 | a rule that does page twice in a row silences a cycle that nothing enters |
| `Storm.EnteredCycleSilences` | crates/beacon/src/inhibition.rs:168-220 | the inputs that silence such a catalogue |
| `Storm.AloneIsNeverHeld` | crates/beacon/src/inhibition.rs:168-220 | a cycle that nothing else inhibits is never wholly held, over all inputs in which no rule pages twice in a row |
| `Storm.ReloadSilenceExactly` | crates/beacon/src/inhibition.rs:104-132 | a reload to a catalogue can silence a storm if and only if some rule of it is inhibited by another, cycle or not |
| `Storm.ReloadSilences` | crates/beacon/src/inhibition.rs:104-132 | the catalogue and inputs that end so: a page is held that nothing inhibits, and nothing else fires |
| `Storm.HeldPagesLeadUpAcrossReloads` | crates/beacon/src/inhibition.rs:115-220 | whatever is observed, across reloads that keep inhibitors and held pages, held pages lead up to a delivered one if the live catalogue has no cycle |
| `RuleStateStore.ReplayIsLatestWins` | crates/beacon/src/state_store.rs:215-267 | replay gives each rule its last record, or what the snapshot had |
| `RuleStateStore.StatesAreDurable` | crates/beacon/src/state_store.rs:215-303 | over every run with crashes, repeated or not, a reopen gives each rule its latest committed state, and is refused exactly when a record was written behind a cut one |
| `RuleStateStore.CrashInPut` | crates/beacon/src/state_store.rs:319-328 | a crash inside a put, on an intact log, is a crash just before or just after it, exactly from its last byte on |
| `RuleStateStore.StateCodecsExist` | crates/beacon/src/state_store.rs:359-374 | the state records have an encoding with the assumed properties |
| `RuleStateStore.OpenStates` | crates/beacon/src/state_store.rs:215-267 | opening recovers what the protocol recovers, a log that ends in cut writes included, or reports the unreadable line |
| `RuleStateStore.FileBackedRuleStateStore.PutState` | crates/beacon/src/state_store.rs:319-328 | on any store a step of the protocol: append, then memory; in step unless a failed write left bytes that replay reads |
| `RuleStateStore.FileBackedRuleStateStore.Snapshot` | crates/beacon/src/state_store.rs:270-303 | the two disk steps of a snapshot, on any store; repairs the log |
| `RuleStateStore.FileBackedRuleStateStore.LoadAll` | crates/beacon/src/state_store.rs:315-317 | what is loaded is the memory, and what a reopen would recover unless the log is unreadable |
| `RuleLoop.NoRepaging` | crates/beacon-server/src/main.rs:465-513 | over every interleaving of the loops' steps with crashes, restarts and reloads of any catalogue: two pages of one rule handed out by the resolver come from different evaluations, and some evaluation strictly between them saw the condition inactive |
| `RuleLoop.LoopsMatchTheStore` | crates/beacon-server/src/main.rs:465-491 | the durable state equals the loop's state at every step although a put is made only on change |
| `RuleHistory.StoreIsMachine` | crates/beacon-server/src/main.rs:465-491 | through crashes, restarts and reloads the stored state of a rule is that of the rule machine after its persisted evaluations, while its name means one rule |
| `RuleHistory.PagesAreEmissions` | crates/beacon-server/src/main.rs:465-498 | and what is persisted with it is what the machine emits there |
| `LostPages.CrashLosesForGood` | crates/beacon-server/src/main.rs:476-498 | a crash loses exactly the pages that are held or persisted and not yet handed to the resolver; they never come out, and their rule is stored as firing until an inactive evaluation |
| `LostPages.PageFate` | crates/beacon-server/src/main.rs:399-513 | a page that is not out yet is lost by an action if and only if its own rule's observation cancels or replaces it, the process ends, or a reload comes before it was observed or leaves it without a declared inhibitor |
| `LostPages.OrphanExactly` | crates/beacon-server/src/main.rs:476-498 | a resolution that is due goes out if and only if no page of its rule is held, and then its page never went out if and only if a crash, a start or a reload took it |
| `LostPages.OrphanResolution` | crates/beacon-server/src/main.rs:476-498 | the run in which all that is ever delivered is a resolution |
| `RuleHistory.ResolverIsHistory` | crates/beacon-server/src/main.rs:399-498 | over every run, the live resolver is that of the emissions and reloads since the process started, and what was delivered is what it handed out behind what earlier processes did |
| `RuleHistory.ProcessHasNoSecondPage` | crates/beacon-server/src/main.rs:465-498 | until it reloads, no process, a restarted one included, shows its resolver two pages of a rule in a row, and every flag means that its rule fires or has its resolution due |
| `RuleHistory.WrongFlagExactly` | crates/beacon-server/src/main.rs:399-434 | over every run, exactly when a flag is on of a rule that does not fire: a reload drops a resolution that was due, until the rule is observed again or the process ends |
| `RuleHistory.DroppedResolutionInhibits` | crates/beacon-server/src/main.rs:399-434 | such a rule goes on inhibiting in the new catalogue |
| `RuleHistory.HeldPagesLeadUpInRuns` | crates/beacon-server/src/main.rs:465-513 | in every state of every process whose reloads kept inhibitors and held pages, and whose live catalogue has no cycle, each held page leads up to a delivered one |
| `RuleHistory.SilenceInRuns` | crates/beacon-server/src/main.rs:465-513 | a process that has not reloaded is silent only if a cycle of its catalogue is entered from outside |
| `LostPages.StoreIsOnDisk` | crates/beacon-server/src/main.rs:476-486 | once the puts of a run are committed by the file-backed store, opening it gives the store of the run or is refused at a glued line |
| `RuleLoop.SpawnGeneration` | crates/beacon-server/src/main.rs:258-278 | each loop starts from its recovered state, the first of a name takes it, and what is left belongs to no rule |
| `RuleCatalogue.DetectDuplicateNames` | crates/beacon/src/loader.rs:160-181 | exactly the colliding names are reported, once each; exactly their rules are dropped, the others kept in the order they had; the result has one rule per name |
| `LogOverlay.Query` | crates/kaleidoscope-demo-overlay/src/log.rs:262-274 | a plain read is the stable merge by time of the inner records and exactly the demo records whose time, now less their offset and not below zero, lies in the half-open range; other tenants pass through, errors too |
| `LogOverlay.QueryWith` | crates/kaleidoscope-demo-overlay/src/log.rs:280-299 | the predicate read returns exactly the plain read filtered, over an inner store that filters |
| `LogOverlay.SortCommutesWithFilter` | crates/kaleidoscope-demo-overlay/src/log.rs:280-299 | filtering a stable sort is a stable sort of the filtered records |
| `LogOverlay.StableSortIsUnique` | crates/kaleidoscope-demo-overlay/src/log.rs:272-273 | a stable sort by time has one result, whatever the algorithm |
| `LogOverlay.OverlayAgrees` | crates/kaleidoscope-demo-overlay/src/log.rs:262-299 | merging then filtering and filtering then merging give the same records in the same order |

## Left out

- DurableLog.RunIsDurable: a failed append leaves bytes only where they change nothing that replay reads; runs assume that the buffer of the writer is empty after a failure. What the other failures, and a buffer that is not empty, do to the next open is `DurableLog.PartialWrite` and `DurableLog.DelayedWrite`; runs are not followed beyond them.
- WalRecovery.Replay: JSON is an abstract encoding with the properties of `JsonLike` (lines hold no newline and read back; cut lines and anything written behind one do not parse). Lossy UTF-8 decoding, the warning for a dropped tail, and file-system errors are not modelled.
- FileBackedTiering.FileBackedTieringStore.AppendWal: how a write ends is a parameter; fsync backends, the start-up probe, file paths and snapshot write errors before the rename are outside, and so are bytes that a failed flush keeps in the buffer of the writer.
- Iso8601.ParseIso8601: 64-bit arithmetic wraps, as in a release build; a debug build panics there instead.
- Calendar.CivilFromDaysInverse: over unbounded integers; where the 32-bit year is exact is `Calendar.YearFitsI32`, and 64-bit overflow of extreme day numbers is not modelled.
- ZScore.ZScoreObserver.Observe: arithmetic is over the reals; the standard deviation is a parameter constrained to be the root of the variance, and IEEE rounding, NaN and infinities are not modelled. Tenant, time and reason of an anomaly are left out.
- NearestMatch.NearestIsLeast: the distance is the function that `EditDistance.Levenshtein` is proved to compute; the loader's own copy of that routine is the same algorithm and is not modelled a second time.
- RuleCatalogue.DetectDuplicateNames: the order, file and wording of the diagnostics are left out.
- BodyCap.Call: the HTTP arm, response texts and the log line are left out.
- Readiness.PhaseOnlyRises: interleavings are sequentially consistent, not those of the acquire/release memory model.
- RuleLoop.NoRepaging: puts succeed and a restart finds a readable log (a crash inside a put on an intact log is `RuleStateStore.CrashInPut`); a reload is one atomic step (the old tasks stop, the new ones start), so the short overlap of two generations is not modelled; a page counts as delivered when the resolver hands it out, so the order on the wire across tasks, sink failures and which rule's sinks carry a released page are outside.
- Deliveries.DeliveriesAlternate: one resolver generation; reloads are in `Reloads.DeliveriesAcrossReloads`, under the condition that `Reloads.ReloadKeepsStepExactly` shows to be exact.
- RuleMachine.FiresExactly: incidents carry name and times only; query, severity and labels are copied fields.
- LogOverlay.QueryWith: the inner store is assumed to filter; the demo table's own rows and the attributes of log records are parameters or left out. The sort is by insertion; `LogOverlay.StableSortIsUnique` makes the algorithm irrelevant.
- Metrics recorders and the reading operations of the tiering stores (tier and entry lookups, listing by tier): easy members.
- Token validation, bearer parsing, OTLP translation, the forwarding sink, the concurrency limiter, shutdown orchestration, service-level query strings, rare-event counting, command-line arguments and the Prism front end.
- Signals, timers, HTTP fetches and the tokio runtime: their effects are actions or parameters of the models.
