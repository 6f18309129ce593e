# A verified model of the trading archive, its chart, and the byte-level macros beside it

The repository collects market quotes into MariaDB tables, archives them day by day into CSV files,
shows them on a live chart, and carries the MariaDB client headers it is built against. This project
models the four places where it has real logic and proves what they guarantee.

**The daily archive.** `Archive` is a labelled step machine over tables, files and a clock: a run selects
yesterday's rows, writes them to a file unless the file exists, drops an empty file and deletes the
window. Every statement may throw, the process may die between any two, rows keep arriving and catalogues
keep growing. `ArchiveSafety` proves that no row is lost over any run, `ArchiveConservation` when archiving
is exactly once, `ArchiveWitnesses` gives the runs in which it is not, `ArchivePossible` that the machine leaves
nothing out that can happen, and `ArchiveJob` that the archiver's own methods are runs of the machine, what
they leave behind when a statement throws, and that repeated sites do nothing. `Calendar`, `DateText` and
`WindowText` give the window its meaning as a Gregorian day, `Scheduler` says on which days the archiver runs and
`ArchiveDaily` what that means for the store, `Csv` and `ArchiveText` what can be read off its files,
`Recorder` what the change-only inserts preserve.

**The live chart.** `Chart` is the component with its timers and requests in flight; responses arrive in
any order with any content. `ChartHistory` tells what it holds from the events alone, `ChartComponent` is the
component in place, handler by handler.
`ChartRaces` and `ChartRefinement` settle what depends on the order of responses.

**The buffered file cache.** `IoCache` is IO_CACHE with its inline fast paths, `IoCacheRuns` compares whole
reading and writing sessions with a plain byte stream.

**Byte order, alignment, time.** `Bits` and `ByteOrder` hold a theory of bit operations and byte strings of
every length; `Korr` and `Stores` instantiate it for the load and store macros, `Align` for the alignment
macros, `Timespec` for time comparison.

## Assumptions

- The clock never goes back, and a row is dated by the clock when it is inserted, because the insert gives
  only an id and a value.
- Entries are added to the catalogues and never removed.
- One archiver runs at a time; each SQL statement is atomic; a file is complete on disk once it is closed.
- Which statements throw, which accesses to the disk are refused, which empty files cannot be deleted and what
  the clock shows at each reading are inputs: every choice is covered. Whether a file can be deleted does not
  change during a run.
- Clocks show years from 0 on. Days have file names of their own up to the year 9999 (`FileNameUniqueIff`),
  which is also where the dates of the database end; the archive machine names files by day.
- `Calendar.set` with a day outside the month follows the documented lenient rule of `java.util.Calendar`;
  dates are Gregorian.
- A client shows clickable entries only for the list it has received.
- The functions that the IO_CACHE headers only declare (`_my_b_read`, `_my_b_get`, `_my_b_write`,
  `my_b_flush_io_cache`) have stand-in bodies that do what their comments say and no more.

## Where the code does less than one might hope

For each of these a lemma gives the exact condition, and further lemmas give inputs or whole runs.

- A row whose id is missing from the catalogue when the SELECT looks is deleted without being archived,
  since the SELECT joins with the catalogue and the DELETE does not (`HeldIffNeverTakenUnlisted`,
  `UnlistedRowIsLost`).
- An exception between the completion of a non-empty file and the DELETE leaves rows in both places
  (`ConservedIffNeverBroken`, `ExceptionDuplicates`, `DeathDuplicates`); one during the writing leaves a
  half-written file (`InterruptionLeavesPartIff`, `ExceptionLeavesPart`, `DeathLeavesPart`). In either case the file is in the way of its day for
  good: duplicates stay duplicated and unarchived rows stay unarchived (`FileInTheWayStays`).
- The archiver archives on every day if and only if the scraping loop looks at the clock every day and midnight
  never falls between two readings of the clock that belong to one run (`ArchivedDailyIff`,
  `MidnightAtStartUp`, `MidnightAfterLook`). After a day without a look it waits until the same day-of-month
  comes round (`NextRunIsFirstOn`, `StalledFebruary`).
- A refused insert is never made up for, because the last value moves on regardless
  (`ReplayIffNothingRefused`, `RefusedChangeIsLost`).
- A response in flight when the component is destroyed starts a timer that nobody stops
  (`QuietAfterDestroyIff`, `TimerAfterDestroy`).
- The chart can show another index than the selected one with nothing pending, when responses come out of
  order and also when a load fails (`ShowsSelectionIff`, `OutOfOrderShowsAnother`,
  `FailedLoadShowsAnother`). A poll that was not sent at the date the chart ends with falsifies it
  (`PollExactIffCurrent`): two polls in flight show points twice (`TwoPollsInFlight`), and a poll that is
  overtaken by an older load loses points (`OvertakenLoadLosesPoint`).
- `MY_ALIGN` wraps to zero near the end of the range (`AlignUpIsLeast`, `AlignUpWrapsAt255`), and so do
  deadlines (`LongerWaitLaterIff`, `LongerWaitEarlier`).
- The older archiver computes the right window only on days 2 to 25 of years up to 9999 (`CutIsYesterday`,
  `ComputeWindow`).

## Model

| member | source | states |
|---|---|---|
| ArchiveSafety.NoRowLost | Java/RecupIndices/src/Recup/BDD.java:47-93 | over every run, with exceptions, deaths, restarts, inserts and new catalogue entries anywhere, each copy of a row inserted while its id was listed, or whose id was listed from the start, is still in its table or in the complete file of its table and day; complete files hold rows of their own day only, by id and date |
| ArchiveSafety.HeldIffNeverTakenUnlisted | Java/RecupIndices/src/Recup/BDD.java:53-88 | over every run and for every row: all copies ever inserted are in the table or in the complete file of its day if and only if no DELETE has taken the row out after a SELECT that did not see its id |
| ArchiveSafety.SurvivesIffListed | Java/RecupIndices/src/Recup/BDD.java:53-88 | the same in one step: a row taken out by the DELETE is in the file if and only if its id was in the catalogue when the SELECT looked |
| ArchiveSafety.InterruptionLeavesPartIff | Java/RecupIndices/src/Recup/BDD.java:62-93 | an exception or death leaves a half-written file behind if and only if it comes while rows are written |
| ArchiveSafety.FileInTheWayStays | Java/RecupIndices/src/Recup/BDD.java:55-60 | a file that is not in hand, half-written or complete, is never completed, replaced or removed in any later state, and what its table holds of its day is never deleted |
| ArchiveSafety.InterruptionStays | Java/RecupIndices/src/Recup/BDD.java:55-93 | after an exception or death between the creation of a file and the DELETE, that file and the rows of its day stay as they were left in every later state |
| ArchiveWitnesses.UnlistedRowIsLost | Java/RecupIndices/src/Recup/BDD.java:53-88 | for every site and row, a run without any exception that deletes the unlisted row and archives it nowhere |
| ArchiveWitnesses.ExceptionDuplicates | Java/RecupIndices/src/Recup/BDD.java:62-92 | for every site and row, a run from a first day after which the row is in the table and in the complete file |
| ArchiveWitnesses.ExceptionLeavesPart | Java/RecupIndices/src/Recup/BDD.java:62-92 | for every site and row, a run from a first day that leaves a half-written file in the way of the row |
| ArchiveWitnesses.DeathLeavesPart | Java/RecupIndices/src/Recup/BDD.java:62-83 | for every site and row, a run from a first day in which the process dies while rows are written and a half-written file stays in the way of the row |
| ArchiveWitnesses.DeathDuplicates | Java/RecupIndices/src/Recup/BDD.java:83-88 | for every site and row, runs from a first day in which the process dies after the close, before and after the look for an empty file, and the row is in the table and in the complete file |
| ArchivePossible.InterruptionsAreFree | Java/RecupIndices/src/Recup/BDD.java:47-93 | in every state with a run in hand, and in no other, the process may die, and only the job goes; in every state with a site in hand, and in no other, an exception may end the work on it, and only that |
| ArchivePossible.SurroundingsAreFree | Java/RecupIndices/src/Recup/BDD.java:31-93 | in every state, also while a file is in hand, any row may be inserted and any catalogue may grow; the clock may go on to any later moment; a run may begin if and only if none is in hand |
| ArchivePossible.SurroundingsChange | Java/RecupIndices/src/Recup/BDD.java:31-45 | an insert adds one row dated now to one table, an enrolment one entry to one catalogue, the clock moves alone, and a beginning sets all sites to do for the day before, each and nothing else |
| ArchivePossible.OneStatementAtATime | Java/RecupIndices/src/Recup/BDD.java:53-88 | the statements come in program order: in every state at most one of them is possible, the next one |
| ArchivePossible.CanFinish | Java/RecupIndices/src/Recup/BDD.java:41-93 | from every point at which a run can stand the archiver can finish it by its own statements alone |
| ArchiveConservation.Conservation | Java/RecupIndices/src/Recup/BDD.java:31-93 | from a first day on, with ids always listed once, over every run without an exception or death between the completion of a non-empty file and the DELETE: whenever no file is in hand, tables and complete files hold everything ever inserted exactly once; a complete file holds exactly its day's rows, sorted, and none of them is left in the table |
| ArchiveConservation.ConservedIffNeverBroken | Java/RecupIndices/src/Recup/BDD.java:31-93 | from a first day on, with ids always listed once, over every run that ends without a file in hand: tables and complete files hold everything ever inserted exactly once if and only if no exception or death ever came between the completion of a non-empty file and the DELETE |
| ArchiveConservation.InterruptionBreaksIff | Java/RecupIndices/src/Recup/BDD.java:83-92 | the same in one step: an exception or death breaks conservation if and only if it comes after a non-empty file was completed and before the DELETE |
| ArchiveConservation.TablesHoldOnlyToday | Java/RecupIndices/src/Recup/BDD.java:31-45 | when runs finish daily without exceptions, after each run the tables of the sites hold only rows dated on or after the day it began |
| ArchiveDaily.DailyLooksArchiveDaily | Java/RecupIndices/src/Recup/BDD.java:31-93 | launched at start-up and then as the looks at the calendar decide, undisturbed: at all times without a file in hand everything is held exactly once; and if every day has a look and no run crosses midnight, every finished run leaves only rows dated on or after the day it began |
| ArchiveDaily.ConsecutiveIsOnSchedule | Java/RecupIndices/src/Recup/BDD.java:31-45 | undisturbed runs that begin on consecutive days always find everything before their window swept |
| ArchiveJob.ExecuteSelect | Java/RecupIndices/src/Recup/BDD.java:53 | the rows of the window joined with the catalogue, once per catalogue entry, ordered by id and date |
| ArchiveJob.SelectIsNestedLoops | Java/RecupIndices/src/Recup/BDD.java:53 | the answers to the SELECT are exactly the rearrangements, by id and then by date, of nested loops over catalogue and table |
| ArchiveJob.ExecuteDelete | Java/RecupIndices/src/Recup/BDD.java:88 | removes every row of the window and no other |
| ArchiveJob.Bdd.WriteFile | Java/RecupIndices/src/Recup/BDD.java:62-86 | creation, row loop, close and drop of an empty file are machine steps; it finishes if and only if none of these statements throws, after as many statements as there are rows and two, and then the file holds the whole selection, or does not exist if that is empty and the file could be deleted; otherwise the file is as far as the statements made had brought it |
| ArchiveJob.Bdd.WriteRows | Java/RecupIndices/src/Recup/BDD.java:71-81 | the row loop writes and counts every row of the selection if and only if no statement throws, and otherwise leaves the rows before the first that does |
| ArchiveJob.Bdd.Write | Java/RecupIndices/src/Recup/BDD.java:47-93 | one table: a run of the machine whatever throws; it succeeds if and only if the table exists and no statement throws, of which there is only the SELECT if the file exists; then nothing if the file exists, else the complete file and an emptied window; otherwise the tables are as before, and the file is none, the rows before the one that threw, all rows unclosed, or complete, according to the statement that threw |
| ArchiveJob.Bdd.Run | Java/RecupIndices/src/Recup/BDD.java:31-45 | the window is the day before today; the whole job is a run of the machine and keeps the safety invariant; site by site it leaves what the statements made leave; if the tables exist, as many sites fail as statements throw, and if none does the effect is that of the calls in order |
| ArchiveJob.SecondWriteIsNoOp | Java/RecupIndices/src/Recup/BDD.java:47-93 | writing a table whose window has been dealt with succeeds, and the unchanged store is its only outcome, whatever the catalogue |
| ArchiveJob.RepeatsDoNothing | Java/RecupIndices/src/Recup/BDD.java:41-44 | a site list that repeats tables has exactly the outcomes of the list of their first occurrences |
| Calendar.Normalise | Java/RecupIndices/src/Recup/BDD.java:36 | for every integer day-of-month, a valid date whose day number is that many days from the first of the month |
| Calendar.YesterdayIsPredecessor | Java/RecupIndices/src/Recup/BDD.java:33-37 | day-of-month minus one is the latest date before today, across month ends, year ends and leap years, and tomorrow undoes it |
| Calendar.WindowsTile | Java/RecupIndices/src/Recup/BDD.java:35-37 | every moment lies in exactly one daily window, that of the following day |
| DateText.FormatInjective | Java/RecupIndices/src/Recup/BDD.java:55 | different days have different texts, whatever the length of the year |
| DateText.FileNameUniqueIff | Java/RecupIndices/src/Recup/BDD.java:55 | the first ten characters name a day uniquely if and only if its year has four digits, or five and the day is the thirtieth of a month without a thirty-first |
| DateText.CutIsYesterday | Java/BDD/src/v01/Launcher.java:15-21 | rewriting the day digits of the date text gives the previous calendar day if and only if the year has four digits and the day is not the first of a month |
| DateText.ComputeWindow | Java/BDD/src/v01/Launcher.java:14-22 | the older archiver computes the window of the calendar-based one if and only if the year has four digits and the day is one of 2 to 25, and on the other days of such years none |
| WindowText.WindowCutsOutYesterday | Java/RecupIndices/src/Recup/BDD.java:35-37 | for years of four digits, a moment as text is at or after the lower bound and before the upper one, in text order, if and only if it is a moment of the day before |
| Csv.WriteFile | Java/RecupIndices/src/Recup/BDD.java:64-83 | the loops produce the labels and then every row in order, count the rows, and a reader of the format gets them back |
| Csv.RoundTripIffClean | Java/RecupIndices/src/Recup/BDD.java:64-81 | the file reads back exactly if and only if no field holds a semicolon or starts with a line end |
| ArchiveText.DeterminesIffDistinct | Java/RecupIndices/src/Recup/BDD.java:64-81 | with clean columns, the text of an archive file determines its rows if and only if different ids, values and dates look different |
| ArchiveText.ReadByLabel | Java/RecupIndices/src/Recup/BDD.java:53-81 | a reader who goes by the labels finds every row in order, the id under ID, the value under VALEUR and the date under DATE |
| ArchiveText.TextDeterminesHistory | Java/RecupIndices/src/Recup/BDD.java:47-93 | over any two calm runs, complete files of a table and day with the same text stand for the same insertions of that day |
| Recorder.Indice.AddVal | Java/RecupIndices/src/Recup/Indice.java:19-32 | the last value always becomes the new one; a row is added exactly when it changed and the insert went through |
| Recorder.Indice.Record | Java/RecupIndices/src/Recup/Indice.java:13-32 | a whole feed leaves exactly the recorded rows |
| Recorder.ReplayIffNothingRefused | Java/RecupIndices/src/Recup/Indice.java:21-30 | replayed as a step function from the first value, the log shows the feed at every instant if and only if no attempted insert was refused |
| Recorder.RefusedChangeIsLost | Java/RecupIndices/src/Recup/Indice.java:21-30 | of two changes the first of which is refused, the log never shows the first |
| Recorder.NeighboursDiffer | Java/RecupIndices/src/Recup/Indice.java:21-24 | with all inserts accepted, no two neighbouring entries are equal, the start value included |
| Recorder.ShortestLog | Java/RecupIndices/src/Recup/Indice.java:21-24 | no log whatever that reproduces the feed is shorter |
| Chart.EveryInterleaving | Front/src/app/indices/indices.component.ts:46-162 | after every sequence of clicks, ticks, destructions and responses in any order: labels and data are parallel and belong to the points shown, a non-empty series has its exact extremes and last date, at most one timer runs and it is the known one, and polls have a chart to push to |
| ChartHistory.CountersAre | Front/src/app/indices/indices.component.ts:66-82 | over every run, told from the events: no counters before totals have been delivered; then the four sums of the last totals, each plus the points that polls have delivered since |
| ChartHistory.ShownAre | Front/src/app/indices/indices.component.ts:83-153 | over every run, told from the events: the points on show are those of the last load answered and of the polls since, and the chart has their values in order |
| ChartHistory.ChoicesAre | Front/src/app/indices/indices.component.ts:46-159 | over every run, told from the events: the period last chosen, the list delivered, the index last clicked in it or its first, and the number of ticks |
| ChartHistory.TimersAre | Front/src/app/indices/indices.component.ts:61-125 | over every run, told from the events: a timer is started by every load answered with points and stopped by every load answered and by destruction, and by nothing else |
| ChartHistory.RequestsAre | Front/src/app/indices/indices.component.ts:46-159 | every event takes the answered request out of flight and sends exactly the requests of its handler |
| ChartHistory.ChangeTimeAsks | Front/src/app/indices/indices.component.ts:155-159 | with a selection, a change of the period sets it and sends exactly one load, for the selection and that period, and changes nothing else |
| ChartHistory.ClickAsks | Front/src/app/indices/indices.component.ts:111-116 | a click on an offered index selects it and sends for its totals and its values for the period in force, and changes nothing else |
| Chart.ReduceMax | Front/src/app/indices/indices.component.ts:161 | the left fold is a member of the series and at least every other |
| Chart.ReduceMin | Front/src/app/indices/indices.component.ts:162 | the left fold is a member of the series and at most every other |
| Chart.LabelMeaning | Front/src/app/indices/indices.component.ts:92-93 | the label of a date is its hours and minutes in the today view and day plus time otherwise |
| ChartRaces.QuietAfterDestroyIff | Front/src/app/indices/indices.component.ts:61-124 | after destruction no timer ever runs if and only if no non-empty load arrives any more |
| ChartRaces.TimerAfterDestroy | Front/src/app/indices/indices.component.ts:61-124 | a load answered after destruction starts a timer |
| ChartRaces.ShowsSelectionIff | Front/src/app/indices/indices.component.ts:83-153 | after every run and for every index: all points shown belong to it if and only if the last answered load was empty or asked for it, and every non-empty poll answer since was asked for it |
| ChartRaces.InOrderShowsSelection | Front/src/app/indices/indices.component.ts:83-159 | if responses arrive in request order and no load fails, then whenever no load is pending all points shown belong to the selected index |
| ChartRaces.InOrderShowsPeriod | Front/src/app/indices/indices.component.ts:83-159 | if responses arrive in request order and no load fails, then whenever no load is pending the load on show is the one for the index and the period now selected |
| ChartRaces.LabelsFollowPeriod | Front/src/app/indices/indices.component.ts:83-159 | in whatever order responses come, as long as no load fails: whenever no load is pending every label is the one of its point in the period now selected |
| ChartRaces.OutOfOrderShowsAnother | Front/src/app/indices/indices.component.ts:83-116 | a run from the first state, with two loads answered in the opposite order, that ends with another index than the selected one on show and nothing pending |
| ChartRaces.FailedLoadShowsAnother | Front/src/app/indices/indices.component.ts:83-116 | a run from the first state, all in order, in which the second load fails, that ends the same way |
| ChartRefinement.PollExactIffCurrent | Front/src/app/indices/indices.component.ts:127-143 | a chart that shows a prefix of the series and receives the answer to a poll, sent at the date of any point, shows the whole series if and only if that is the date the chart ends with |
| ChartRefinement.TwoPollsInFlight | Front/src/app/indices/indices.component.ts:118-153 | a run from the first state with two ticks before the first answer shows a point twice |
| ChartRefinement.OvertakenLoadLosesPoint | Front/src/app/indices/indices.component.ts:83-153 | a run from the first state in which an older load is answered between a tick and its answer never shows a point |
| ChartRefinement.PollingIsReloading | Front/src/app/indices/indices.component.ts:83-153 | with one selection and one poll at a time, however the series grows before and after the server reads it and polls are answered or fail, chart, extremes and last date equal a full load of the series as read for the last answered poll |
| ChartRefinement.FreshLoadIsInStep | Front/src/app/indices/indices.component.ts:83-109 | a non-empty full load is a starting point for that |
| ChartRefinement.PollingCatchesUp | Front/src/app/indices/indices.component.ts:118-153 | whenever the series grows by a point, a tick and the answer to its poll bring the chart level with it |
| ChartComponent.IndicesComponent.Receive | Front/src/app/indices/indices.component.ts:46-153 | handling any response to any request in flight makes the machine's step and keeps the invariant |
| ChartComponent.IndicesComponent.HandleVals | Front/src/app/indices/indices.component.ts:86-106 | a full load stops the timer, replaces the chart, and for a non-empty series sets extremes, date and a new timer |
| ChartComponent.IndicesComponent.HandleNews | Front/src/app/indices/indices.component.ts:130-150 | new points are pushed in order, and date, counters and extremes follow |
| ChartComponent.IndicesComponent.ClickIndice | Front/src/app/indices/indices.component.ts:111-116 | makes the step of a click, which selects and asks for totals and values |
| ChartComponent.IndicesComponent.ChangeTimeTo | Front/src/app/indices/indices.component.ts:155-159 | makes the step of a change of period, which sets it and asks for values again |
| ChartComponent.IndicesComponent.Tick | Front/src/app/indices/indices.component.ts:118-129 | a tick of a live timer always sends a poll, from the last date, for the selection |
| ChartComponent.IndicesComponent.NgOnDestroy | Front/src/app/indices/indices.component.ts:61-64 | stops the known timer |
| ChartComponent.GetMax | Front/src/app/indices/indices.component.ts:161 | the loop computes the fold and the maximum |
| ChartComponent.GetMin | Front/src/app/indices/indices.component.ts:162 | the loop computes the fold and the minimum |
| IoCache.Cache.Read | MariaDB/include/mysql/server/my_sys.h:523-532 | one access to the disk exactly if the buffer does not suffice; if it is granted, the next bytes of the file, as many as there are, with status and error telling how many; if it is refused, a hard error with nothing moved; the rest of the destination is untouched |
| IoCache.Cache.Get | MariaDB/include/mysql/server/my_sys.h:545-553 | the next byte or EOF exactly at the end; one access to the disk exactly if the buffer is empty, and EOF with a hard error if that is refused |
| IoCache.Cache.Fill | MariaDB/include/mysql/server/my_sys.h:564-578 | gives up the buffer, loads the bytes after it, and returns their number; zero with a hard error if and only if the disk refuses |
| IoCache.Cache.Write | MariaDB/include/mysql/server/my_sys.h:534-543 | the status is zero if and only if the disk grants every access, of which there is none if the data fit the buffer and at most two otherwise; the stream grows by the data, or by what fitted |
| IoCache.Cache.WriteByte | MariaDB/include/mysql/server/my_sys.h:555-562 | the stream grows by the byte if and only if the status is zero, that is, unless the buffer is full and the disk refuses |
| IoCache.Cache.Contents | MariaDB/include/mysql/server/my_sys.h:580-592 | my_b_tell, counted from request_pos, and my_b_write_tell, counted from write_buffer, both equal the length of file plus pending bytes of a write cache |
| IoCacheRuns.ReadSession | MariaDB/include/mysql/server/my_sys.h:523-587 | every session of reads and gets, with any counts and any buffer size: no request fails if and only if the disk grants every access, at most one a request, and then all are answered as the plain stream answers; otherwise as many fail as accesses were refused and the others are answered so; the bytes delivered are consecutive |
| IoCacheRuns.PlainIsConsecutive | MariaDB/include/mysql/server/my_sys.h:523-553 | whatever is asked for, the bytes delivered are a piece of the file from the start |
| IoCacheRuns.ReadByFilling | MariaDB/include/mysql/server/my_sys.h:564-578 | filling until zero visits the remaining bytes in order, each once, one buffer a fill, until the disk refuses a fill; if it refuses none, all of them |
| IoCacheRuns.WriteSession | MariaDB/include/mysql/server/my_sys.h:534-562 | all calls succeed if and only if the disk grants every access, at most two a call; file and pending buffer hold what was there and then all bytes written in order, up to the first failed call, which ends the session |
| IoCacheRuns.WriteThenRead | MariaDB/include/mysql/server/my_sys.h:523-592 | what one cache wrote and flushed another reads back, whatever the buffer sizes and the cutting of calls; it succeeds if the disks grant as many accesses as the calls can need |
| ByteOrder.LoadOfStore | MariaDB/include/mysql/server/byte_order_generic.h:35-95 | for every length and integer, loading a store gives the integer modulo 256 to the length |
| ByteOrder.StoreOfLoad | MariaDB/include/mysql/server/byte_order_generic.h:35-95 | storing a load gives the same bytes |
| ByteOrder.ByteOfStore | MariaDB/include/mysql/server/byte_order_generic.h:64-95 | for every length, byte i of a store is the value shifted right by 8 i, cut to a byte |
| ByteOrder.SignedRoundTrip | MariaDB/include/mysql/server/byte_order_generic.h:20-34 | a signed load gives back exactly the integers of the two's complement range |
| ByteOrder.ShiftAndSwap | MariaDB/include/mysql/server/byte_order_generic_x86_64.h:89-122 | for every word size, load low byte first, shift to the top, swap: the big-endian value |
| Korr.Uint2korr | MariaDB/include/mysql/server/byte_order_generic.h:35-36 | the little-endian value of two bytes |
| Korr.Uint3korr | MariaDB/include/mysql/server/byte_order_generic.h:37-39 | the little-endian value of three bytes |
| Korr.Uint4korr | MariaDB/include/mysql/server/byte_order_generic.h:40-43 | the little-endian value of four bytes |
| Korr.Uint5korr | MariaDB/include/mysql/server/byte_order_generic.h:44-48 | the little-endian value of five bytes |
| Korr.Uint6korr | MariaDB/include/mysql/server/byte_order_generic.h:49-54 | the little-endian value of six bytes |
| Korr.Uint8korr | MariaDB/include/mysql/server/byte_order_generic.h:55-63 | the little-endian value of eight bytes |
| Korr.Sint2korr | MariaDB/include/mysql/server/byte_order_generic.h:20-21 | the two's complement value of two bytes |
| Korr.Sint3korr | MariaDB/include/mysql/server/byte_order_generic.h:22-29 | the or-ed bytes with the sign byte are the two's complement value of three bytes |
| Korr.Sint4korr | MariaDB/include/mysql/server/byte_order_generic.h:30-33 | the two's complement value of four bytes |
| Korr.Sint8korr | MariaDB/include/mysql/server/byte_order_generic.h:34 | the two's complement value of eight bytes |
| Korr.Int4net | MariaDB/include/mysql/server/my_byteorder.h:20-27 | the two's complement value of four bytes in network order |
| Korr.FastUint5korr | MariaDB/include/mysql/server/byte_order_generic_x86_64.h:37-42 | word, byte, shift and or give the little-endian value of five bytes |
| Korr.FastUint6korr | MariaDB/include/mysql/server/byte_order_generic_x86_64.h:43-48 | two words, shift and or give the little-endian value of six bytes |
| Korr.MiUint5korr | MariaDB/include/mysql/server/byte_order_generic_x86_64.h:89-96 | the big-endian value of five bytes |
| Korr.MiUint6korr | MariaDB/include/mysql/server/byte_order_generic_x86_64.h:98-105 | the big-endian value of six bytes |
| Korr.MiUint7korr | MariaDB/include/mysql/server/byte_order_generic_x86_64.h:107-115 | the big-endian value of seven bytes |
| Korr.MiUint8korr | MariaDB/include/mysql/server/byte_order_generic_x86_64.h:117-122 | the big-endian value of eight bytes |
| Korr.FastLoadsAgree | MariaDB/include/mysql/server/byte_order_generic_x86_64.h:20-51 | every word-at-a-time load agrees with the byte-at-a-time one, wherever it is legal |
| Korr.MiLoadsReverse | MariaDB/include/mysql/server/byte_order_generic_x86_64.h:87-122 | the high-byte-first loads of five to eight bytes are the little-endian values of the reversed bytes |
| Stores.Int2store | MariaDB/include/mysql/server/byte_order_generic.h:64-67 | the array is unchanged except for the two low bytes at the offset |
| Stores.Int3store | MariaDB/include/mysql/server/byte_order_generic.h:68-72 | the array is unchanged except for the three low bytes at the offset |
| Stores.Int4store | MariaDB/include/mysql/server/byte_order_generic.h:73-77 | the array is unchanged except for the four low bytes at the offset |
| Stores.Int5store | MariaDB/include/mysql/server/byte_order_generic.h:78-83 | the array is unchanged except for the five low bytes at the offset |
| Stores.Int6store | MariaDB/include/mysql/server/byte_order_generic.h:84-90 | the array is unchanged except for the six low bytes at the offset |
| Stores.Int8store | MariaDB/include/mysql/server/byte_order_generic.h:91-95 | the array is unchanged except for the eight low bytes at the offset |
| Stores.StoreWord | MariaDB/include/mysql/server/byte_order_generic_x86_64.h:53-78 | a store through a cast pointer writes the same bytes as the byte-at-a-time store, for every width |
| Stores.FastInt5store | MariaDB/include/mysql/server/byte_order_generic_x86_64.h:66-69 | same array as the byte-at-a-time five-byte store |
| Stores.FastInt6store | MariaDB/include/mysql/server/byte_order_generic_x86_64.h:71-74 | same array as the byte-at-a-time six-byte store |
| Stores.StoreThenLoad | MariaDB/include/mysql/server/byte_order_generic.h:35-95 | at any offset, the loads of 2, 3, 4, 5, 6 and 8 bytes give a stored value back modulo the width |
| Stores.StoreThenLoadSigned | MariaDB/include/mysql/server/byte_order_generic.h:20-34 | the signed loads of 2, 3, 4 and 8 bytes give a stored value back exactly when it was in range |
| Stores.StoreThenLoadHighFirst | MariaDB/include/mysql/server/byte_order_generic_x86_64.h:87-122 | the high-byte-first loads of 5, 6, 7 and 8 bytes, and int4net, give back what was stored high byte first |
| Stores.Float8storeBig | MariaDB/include/mysql/server/big_endian.h:31-38 | writes the stored form of a big-endian machine, the eight bytes of memory backwards, and nothing else |
| Stores.DoublestoreSwapped | MariaDB/include/mysql/server/little_endian.h:28-36 | writes the stored form of a machine with swapped words, the two words in the opposite order, and nothing else |
| Stores.DoublestoreWords | MariaDB/include/mysql/server/byte_order_generic_x86.h:77-80 | writes the stored form of a little-endian machine, by two word stores, and nothing else |
| Stores.Float8getBig | MariaDB/include/mysql/server/big_endian.h:40-49 | the eight bytes read backwards |
| Stores.DoublegetSwapped | MariaDB/include/mysql/server/little_endian.h:37-46 | the two words read in the opposite order |
| Stores.StoredFormIsPortable | MariaDB/include/mysql/server/my_byteorder.h:29-40 | the stored form of a double is low byte first on every kind of machine, and each kind reads what any other wrote as the same double |
| Stores.ExchangeDouble | MariaDB/include/mysql/server/my_byteorder.h:29-40 | the same through the store and load forms themselves, for every pair of machines |
| Align.AlignDownIsGreatest | MariaDB/include/mysql/server/my_global.h:857 | for every power of two, a multiple not above A, the greatest such, and idempotent |
| Align.AlignUpIsLeast | MariaDB/include/mysql/server/my_global.h:856 | always a multiple; at least A if and only if A plus the alignment fits the type, and then the least such multiple |
| Align.AlignUpWrapsAt255 | MariaDB/include/mysql/server/my_global.h:856 | aligning the byte 255 to eight gives zero |
| Align.AlignUpVersusDown | MariaDB/include/mysql/server/my_global.h:856-857 | for every A the two differ by nothing or by one alignment, modulo the range of the type |
| Align.AlignUpTwice | MariaDB/include/mysql/server/my_global.h:856 | aligning up is idempotent for every A |
| Align.TestAllBits | MariaDB/include/mysql/server/my_global.h:505 | the mask test holds if and only if every bit of b is set in a |
| Align.SetBitsAre | MariaDB/include/mysql/server/my_global.h:504 | exactly the bits below the count that the type has are set |
| Timespec.CmpTimespecIsCmpNum | MariaDB/include/mysql/server/my_pthread.h:331-345 | on normalised values the comparison is that of the nanosecond counts; splitting and counting undo each other |
| Timespec.LongerWaitLaterIff | MariaDB/include/mysql/server/my_pthread.h:308-345 | the longer of two waits has the later deadline if and only if the sum does not wrap between them |
| Timespec.LongerWaitEarlier | MariaDB/include/mysql/server/my_pthread.h:308-345 | a clock reading at which the longer of two waits has the earlier deadline |
| Timespec.OneSecondMore | MariaDB/include/mysql/server/my_pthread.h:306-345 | a second more on the clock or a second more to wait is one second more of the deadline, unless the sum wraps |

## Scheduler

`Scheduler` models `verifDate` and the start-up of the scraping loop in
`Java/RecupIndices/src/Recup/Launcher.java`.

- `Scheduler.Launcher.constructor` (lines 161-163): after the start-up run the next one waits for the day-of-month after the day noted.
- `Scheduler.Launcher.VerifDate` (lines 75-86): one look at the calendar runs the archiver or not, as the specification of looks says, and notes the next day-of-month.
- `Scheduler.Launcher.LoopVals` (lines 67-71): over a sequence of looks, the archiver archives on exactly the days the specification gives.
- `Scheduler.ArchivedDailyIff` (lines 67-86, 153-163): for every start-up and every sequence of looks that goes forward in time, the archiver archives on every day from start-up to the last look, once each and in order, if and only if each of those days has a look and no run has midnight between the readings of the clock that belong to it.
- `Scheduler.MidnightAtStartUp` (lines 153-163): for every day, a start-up run that ends after midnight is followed by a day with a look and no run.
- `Scheduler.MidnightAfterLook` (lines 75-86): for every day, a look just before midnight starts a run that archives for the day after.
- `Scheduler.RunsDailyIff` (lines 67-86): the archiver is started on every day after the last run up to the last look, once each and in order, if and only if each of those days has a look.
- `Scheduler.RunsBound` (lines 67-86): it is started at most once a day.
- `Scheduler.NextRunIsFirstOn` (lines 75-86): the next run is the first look on tomorrow's day-of-month in whatever month; unless that is tomorrow it is at least 29 days after the run.
- `Scheduler.StalledFebruary` (lines 78-83): a run on 30 January 2023, no look on the 31st, then looks on every day of February: no run.

## Left out

- IoCache.Cache.Write: the sizes at which the real cache aligns its flushes to disk blocks, append caches, sharing between threads and asynchronous input are not modelled.
- IoCache.Cache.WriteByte: a buffer of at least one byte is required, as the source relies on when it stores through the write position after a flush.
- ArchiveJob.Bdd.Run: the process dying inside a call is a step of the machine (`Die`), not of the methods; the methods model exceptions. The messages written to the console are not modelled.
- ChartComponent.IndicesComponent.Receive: counters are integers rather than their decimal text, and values are reals without NaN.
- Korr.Sint2korr: bytes are unsigned; compilers on which plain char is signed reach the same value by another conversion.
- ArchiveText.DeterminesIffDistinct: the texts of the columns come from the database driver and are parameters.
- The older archiver beyond its window: apart from not dropping an empty file and leaving when the file exists, it is the same protocol.
- The 32-bit x86 forms of the codecs: each is textually the byte-at-a-time form, a single word access, or the two word accesses of its double, all of which are modelled.
- `float4store`, `shortstore`, `longstore` and their loads: byte moves of the same kind at other widths.
- Scraping pages, SQL text, JDBC, HTTP, templates, routing and styling: only their effect on tables, files and responses is modelled.
- Headers that only declare functions, and tables of error numbers and options: there is no logic to model.
- The near copies of the archiver and the recorder under `Java/RecupLocal`, and the trading experiments.
