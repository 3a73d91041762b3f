# A verified model of the test harness cores

This Dafny project models the parts of the repository whose correctness is not obvious from
reading one function, and proves what they are for:

- **Result comparison** (`dbHelper/compare_results.go`): rows of nullable cells are normalized,
  keyed, stably sorted and compared. The modules `Utf8`, `CaseFolding`, `RowKey`, `Sorting` and
  `CompareResults` build up to one statement: a comparison succeeds exactly when the rows of the
  two results can be paired off so that paired rows match. `ResultFiles` adds file mode and proves
  that it accepts exactly the file pairs the script `python/main.py` accepts. `FailureFiles` is the
  collision-free naming of the files written for a mismatch.
- **Scheduler and worker pools** (`dbHelper/compare_results.go`, `dbHelper/run_sqls.go`): the
  swap-remove scheduler is a class with arrays (`Scheduler`); the two pools (`ComparePool`,
  `RunSqlPool`) are state machines with one program counter per worker, and `WorkerPool` holds the
  overrun and termination arguments they share.
- **Insert runs** (`dbHelper/insert_values.go`): partitioning and batching are methods
  (`InsertValues`), the concurrent run is a state machine (`InsertPool`).
- **Key/value server** (`cpp/server.cpp`): tokenizer, workspace and receive loop
  (`KeyValueServer`).
- **Barrier** (`cpp/bench.cpp`): a state machine (`Barrier`).
- **Window data** (`go/main/insert_window.go`): partitioning and batching loops (`InsertWindow`).

`Basics` holds sums over sequences, images and pairings, `Traces` the reasoning about whole runs
of a state machine. `dafny verify dfyconfig.toml` checks the whole project.

## Conventions

- A *schedule* is any list of events. An event that is not enabled (a blocked or finished worker,
  an out-of-range random choice) leaves the state alone, so a theorem about every schedule is a
  theorem about every interleaving, every random choice and every outcome of an execution.
  Check, scheduling, execution, error test, every atomic counter update and both halves of the
  first-failure recording are separate steps. Cancelling a Go context cancels its children in the
  same step, and releasing a mutex or leaving a `sync.Once` goes with the last action inside it.
- Strings that Go handles as bytes are sequences of bytes; the UTF-8 decoder is that of Table 3-7
  of the Unicode Standard, a malformed byte reading as U+FFFD, which is what Go's range loop does.
- Integers are unbounded. None of the counters can reach the width of the source's integers in a
  run that ends.
- The Unicode fold tables are a parameter: any partition of the scalar values into classes. The
  library sorts are represented by their contract, which has exactly one solution.
- Python is assumed to open its files as UTF-8.

## Results that are not promises kept

- The barrier in `cpp/bench.cpp` is safe, but it can hang: with two or more threads there is a
  schedule after which no thread can move (`Barrier.CanGetStuckIff`, an equivalence).
- Messages with missing or surplus tokens let fields of earlier messages show through. The exact
  condition under which they do not is `SelfContained`, which a client can check before sending:
  for one message and any two workspaces (`KeyValueServer.StaleFieldsHiddenIff`), for any two
  histories that a connection can really have (`KeyValueServer.HistoryHiddenIff`), and for whole
  sessions (`KeyValueServer.SessionsForgetIff`).
- A comment in `dbHelper/run_sqls.go:48-49` says that the first SQL error cancels all workers. The
  code stops only scheduling and still counts the failures of executions in progress, which can
  happen exactly when two workers can each have a run (`RunSqlPool.LaterFailuresAreCountedIff`).
- Comments in `dbHelper/compare_results.go:180-182` and `dbHelper/run_sqls.go:136-137` say that the
  runner is single-threaded. `dbHelper/runner.go:9-17` starts every task at once: in an insert run
  n statements can be in flight together exactly when there are n tasks and n rows
  (`InsertPool.InFlightTogetherIff`).

## Model

| member | source | states |
|---|---|---|
| Utf8.DecodeEncode | dbHelper/compare_results.go:941-949 | decoding what WriteRune wrote gives back the runes, and the written text is valid UTF-8 |
| Utf8.EncodeDecode | dbHelper/compare_results.go:831-833 | a file that passes utf8.Valid is the encoding of the runes it reads as |
| Utf8.DecodeFront | dbHelper/compare_results.go:941 | ranging over a string reads an encoded rune where one stands and otherwise U+FFFD for one byte |
| Utf8.ValidIff | dbHelper/compare_results.go:831-833 | utf8.Valid accepts exactly what some runes are written as |
| Utf8.EncodingKeepsOrder | dbHelper/compare_results.go:948 | written runes are in byte order exactly as the runes are, in one to four bytes |
| CaseFolding.CanonicalRune | dbHelper/compare_results.go:942-947 | the tour of a fold cycle terminates, from any member, at the smallest member of the class |
| CaseFolding.SimpleFold | dbHelper/compare_results.go:943 | the next larger rune of the fold class, or its smallest after its largest |
| CaseFolding.NormalizeCompareText | dbHelper/compare_results.go:932-951 | the loop computes the normal form rune by rune, on any bytes, valid UTF-8 or not |
| CaseFolding.NormalFormIsSmallest | dbHelper/compare_results.go:932-951 | every rune of the normal form is the smallest of its fold class; where case matters the text itself is the normal form |
| CaseFolding.NormalizeIsFoldEquivalence | dbHelper/compare_results.go:937-939 | two texts normalize equally if and only if they have equally many runes, pairwise fold-equivalent |
| CaseFolding.NormalizeIsIdempotent | dbHelper/compare_results.go:932-951 | normalized text is its own normal form, in both case modes |
| RowKey.ReadEncodedCell | dbHelper/compare_results.go:917-928 | key tokens are self-delimiting: a cell is read back whatever bytes it holds and whatever follows |
| RowKey.ReadEncodedRow | dbHelper/compare_results.go:915-930 | a key decodes back to the normalized row |
| RowKey.KeysAreFaithful | dbHelper/compare_results.go:915-930 | equal keys mean equal normalized rows, NULL and the text "NULL" kept apart |
| RowKey.KeyFormat | dbHelper/compare_results.go:915-930 | a key is the tokens of its cells in order: "N;" for NULL, otherwise "V", the byte length in decimal, ":", the text, ";" |
| CompareResults.CompareRowKey | dbHelper/compare_results.go:915-930 | the key-building loop yields the encoding of the normalized row |
| CompareResults.CompareRowsEqual | dbHelper/compare_results.go:897-913 | two rows are accepted if and only if their normal forms are equal |
| CompareResults.RowKeyIsFaithful | dbHelper/compare_results.go:889-930 | two rows have equal sort keys if and only if compareRowsEqual accepts them |
| Sorting.StableSortIsUnique | dbHelper/compare_results.go:889-895 | the contract of a stable sort by key has only one solution |
| Sorting.SortStablyIsStable | dbHelper/compare_results.go:889-895 | the sort that stands in for the library's meets that contract |
| Sorting.LeqIsLexicographic | dbHelper/compare_results.go:892 | strings compare by prefix or by the first place where they differ |
| CompareResults.PreparedIsTheStableSort | dbHelper/compare_results.go:882-895 | with sorting on, the prepared rows are the one stable sort of the rows by key |
| CompareResults.ComparePreparedResultRows | dbHelper/compare_results.go:857-895 | the rows are returned in every case, stably sorted by key or with sorting off as they were given; the report is a length mismatch, or the first row whose cells do not match, or no error when all rows match in place |
| CompareResults.AnswerIsUnique | dbHelper/compare_results.go:857-895 | two row lists and the settings leave only one answer, prepared rows and report |
| CompareResults.ReportIsUnique | dbHelper/compare_results.go:857-880 | two row lists admit only one report |
| CompareResults.SortedComparisonIsMultisetEquality | dbHelper/compare_results.go:857-895 | with sorting on, no error means equality as multisets of normalized rows, in both directions |
| CompareResults.NormalRowsMatch | dbHelper/compare_results.go:897-913 | normal forms agree if and only if cells match one by one: both NULL, or texts equal up to the chosen case mode |
| CompareResults.AcceptanceMeansMatchingRows | dbHelper/compare_results.go:857-951 | with sorting on, success means that the rows can be paired off so that pairs match; with sorting off, that they match in place |
| ResultFiles.TwoPassesAreUniversal | dbHelper/compare_results.go:835-836 | replacing CRLF and then CR equals the one-pass newline automaton |
| ResultFiles.NewlinesOneMore | dbHelper/compare_results.go:835-836 | the normalized content grows with each symbol: a carriage return adds a line feed, a line feed right after one adds nothing, and any other symbol itself |
| ResultFiles.FileRowsAreLines | dbHelper/compare_results.go:835-849 | the rows are single text cells, non-empty, with a line feed at the end and nowhere else, that concatenate to the content, which has no carriage return |
| ResultFiles.SplitAfterGivesLines | dbHelper/compare_results.go:841-844 | SplitAfter with the empty last piece dropped gives Python's readlines |
| ResultFiles.LinesConcatenate | dbHelper/compare_results.go:824-850 | the rows concatenate back to the normalized content |
| ResultFiles.LinesEndAtLineFeeds | dbHelper/compare_results.go:824-850 | no row is empty, and a line feed ends every row but perhaps the last and occurs nowhere else |
| ResultFiles.ReadResultFile | dbHelper/compare_results.go:826-850 | a file that cannot be read and invalid UTF-8 are rejected, each with its own error, and any other file gives one row per line |
| ResultFiles.CompareConfiguredFiles | dbHelper/compare_results.go:312-358 | success exactly when both names are given, both files are readable text and their rows compare equal; otherwise the error of the first check that fails: blank name, expected file, actual file, or the mismatch of the rows |
| ResultFiles.SameInOrder | python/main.py:15-21 | the script's loop finds the first difference if there is one |
| ResultFiles.PythonMain | python/main.py:1-23 | the script accepts exactly the decodable files with the same lines up to order |
| ResultFiles.GoReadsPythonLines | dbHelper/compare_results.go:824-850 | the Go rows of a valid file are its Python lines, encoded |
| ResultFiles.FileModeAgreesWithPython | dbHelper/compare_results.go:826-880 | with sorting and case sensitivity on, Go accepts exactly the file pairs the script accepts |
| FailureFiles.NamesAreDistinct | dbHelper/compare_results.go:701-704 | different suffixes give different file names |
| FailureFiles.FileNameFormat | dbHelper/compare_results.go:701-704 | the first name is pair-side.txt, the later ones carry the suffix in decimal in parentheses |
| FailureFiles.TakenNamesAreFew | dbHelper/compare_results.go:700-709 | the name loop stops within as many turns as the directory has files |
| FailureFiles.WriteUniqueCompareFailureFile | dbHelper/compare_results.go:699-724 | the content goes to the free name of least suffix, no existing file changes, and a failure leaves the directory as it was unless the incomplete file cannot be removed |
| FailureFiles.WriteCompareFailureFiles | dbHelper/compare_results.go:674-697 | both sides are written under the first free names of their own; if one fails, what remains in the directory is given, an expected file already written included; an unnamed pair gets no files |
| FailureFiles.SidesDoNotClash | dbHelper/compare_results.go:686-693 | writing the expected file does not change which name the actual file gets |
| Scheduler.RandomScheduler.constructor | dbHelper/compare_results.go:417-428 | a new scheduler offers every item and has issued nothing |
| Scheduler.RandomScheduler.Next | dbHelper/compare_results.go:430-448 | for every random choice, next issues the chosen item's next run number or, with nothing available, nothing; at its limit the item is overwritten by the last available one and the list shrinks; the whole new state is given |
| Scheduler.IssueKeepsValid | dbHelper/run_sqls.go:110-128 | the available list stays duplicate-free and stays exactly the items below the limit, or all items without a limit |
| Scheduler.RunsContinueInOrder | dbHelper/run_sqls.go:117-120 | from any valid state an item is handed its next run numbers in order, none skipped or repeated |
| Scheduler.EveryScheduleIsExact | dbHelper/compare_results.go:406-448 | over every sequence of choices run numbers are 1, 2, 3, ... per item, and with a positive limit exactly items * limit calls can succeed |
| ComparePool.ValidateConfig | dbHelper/compare_results.go:456-482 | the error of the first check that fails, or none for an accepted configuration |
| ComparePool.AcceptedIff | dbHelper/compare_results.go:456-482 | the accepted configurations are exactly those under which the pool can do something and then end by itself, without error or cancellation |
| ComparePool.AlwaysInv | dbHelper/compare_results.go:510-586 | in every reachable state each scheduled run is completed, dropped, reported or held by a worker; the flags, the failureOnce state and the recorded failure fit together; a returned worker had a reason to |
| ComparePool.NothingIsExcluded | dbHelper/compare_results.go:524-585 | at any moment the caller may cancel, a timer expire, any available pair be chosen and a comparison succeed or fail; it is interrupted only under a cancelled context, and a worker waits only for the one recording its failure |
| ComparePool.ReturnsForAReason | dbHelper/compare_results.go:525-535 | a worker has returned only after cancellation, the end of the duration or a failure, or when every pair had all its runs |
| ComparePool.AskersPassedTheCheck | dbHelper/compare_results.go:525-535 | a worker about to ask the scheduler passed the check while scheduling had not ended, and did nothing since |
| ComparePool.NoRunTwice | dbHelper/compare_results.go:532-540 | no run is in the hands of two workers, and all were handed out by the scheduler |
| ComparePool.ResultIsExact | dbHelper/compare_results.go:540-606 | failure if and only if some error met an uncancelled worker context; success if and only if the caller did not cancel and no comparison returned an error, whether the duration ran out or not; otherwise cancelled |
| ComparePool.SuccessMeansEveryRunSucceeded | dbHelper/compare_results.go:589-606 | a nil result means scheduled equals completed for every pair, and without a duration limit each pair completed exactly its configured runs |
| ComparePool.AnyErrorIsReported | dbHelper/compare_results.go:540-606 | if any comparison returned an error the pool does not report success, and unless the caller cancelled it reports the recorded failure |
| ComparePool.FirstFailureIsRootCause | dbHelper/compare_results.go:540-574 | the recorded failure came from a run that then saw an uncancelled worker context and is never a cancellation error; an internal stop implies that it is recorded |
| ComparePool.FirstFailureIsRecordedOnce | dbHelper/compare_results.go:564-572 | once recorded, the first failure is never replaced and is what the pool returns, even if the caller cancels later |
| ComparePool.BoundedOverrun | dbHelper/compare_results.go:525-535 | once scheduling has ended, by cancellation, duration or failure, at most the workers past the check schedule one more run each, after a failure at most workers - 1 |
| ComparePool.WindsDown | dbHelper/compare_results.go:524-585 | once scheduling has ended, the workers take at most six more steps each, with or without a run limit |
| ComparePool.CanFinish | dbHelper/compare_results.go:520-587 | from every reachable state with a run limit, and from every state in which scheduling has ended, all workers can return without a further error |
| ComparePool.StepsAreBounded | dbHelper/compare_results.go:524-585 | with a run limit, the steps of all workers together are bounded in every interleaving |
| ComparePool.SomeWorkerCanStep | dbHelper/compare_results.go:520-587 | the pool never deadlocks: until all workers have returned, one can move |
| RunSqlPool.ValidateRunSQLConfig | dbHelper/run_sqls.go:229-251 | the error of the first check that fails, with the index of the first blank query, or none for an accepted configuration |
| RunSqlPool.AcceptedIff | dbHelper/run_sqls.go:229-251 | the accepted configurations are exactly those under which the workload can do something and then end by itself, without error or cancellation |
| RunSqlPool.AlwaysInv | dbHelper/run_sqls.go:288-380 | in every reachable state the counters of each statement agree with the log of executions and the updates still pending in workers, and counted failures with those on their way to failureOnce |
| RunSqlPool.NothingIsExcluded | dbHelper/run_sqls.go:304-379 | at any moment the caller may cancel, a timer expire, any available statement be chosen and an execution end with any rows, with or without error; a worker waits only for the one recording its failure |
| RunSqlPool.ReturnsForAReason | dbHelper/run_sqls.go:307-317 | a worker has returned only after cancellation, the end of the duration or a failure, or when every statement had all its runs |
| RunSqlPool.AskersPassedTheCheck | dbHelper/run_sqls.go:307-317 | a worker about to ask the scheduler passed the check while scheduling had not ended, and did nothing since |
| RunSqlPool.NoRunTwice | dbHelper/run_sqls.go:313-331 | no run is executed twice, in progress or finished, and all were handed out by the scheduler |
| RunSqlPool.ResultIsExact | dbHelper/run_sqls.go:395-407 | cancelled if and only if the caller cancelled; otherwise success if and only if errors are ignored or no execution returned one, with the number that did; otherwise a failure |
| RunSqlPool.RunsAreAlwaysAccounted | dbHelper/run_sqls.go:307-377 | at every moment scheduled = succeeded + failed + stopped + in flight, per statement |
| RunSqlPool.FinishedBooksBalance | dbHelper/run_sqls.go:345-393 | at the end, without caller cancellation, the counters agree with the log of executions: scheduled = succeeded + failed, rows are the rows of all runs, the failure total is the sum over statements |
| RunSqlPool.StrictErrorPolicy | dbHelper/run_sqls.go:357-362 | when errors are not ignored, a failure is recorded if and only if one was counted, and at most workers failures are counted |
| RunSqlPool.RecordedFailureDidFail | dbHelper/run_sqls.go:357-361 | the failure that is returned is a run whose execution did return an error |
| RunSqlPool.AnyErrorIsReported | dbHelper/run_sqls.go:331-402 | when errors are not ignored and the caller does not cancel, a failure is returned if and only if some execution returned an error |
| RunSqlPool.FirstFailureIsRecordedOnce | dbHelper/run_sqls.go:357-361 | the recorded failure is never replaced and is what is returned, unless the caller cancels |
| RunSqlPool.LaterFailuresAreCountedIff | dbHelper/run_sqls.go:327-363 | when errors are not ignored, a failure can be counted after the first one has stopped scheduling if and only if there are two workers and two runs to be had |
| RunSqlPool.IgnoringErrorPolicy | dbHelper/run_sqls.go:333-365 | when errors are ignored none stops scheduling, and without duration limit or cancellation every statement is attempted exactly its limit |
| RunSqlPool.BoundedOverrun | dbHelper/run_sqls.go:307-317 | once scheduling has ended, by cancellation, duration or failure, at most the workers past the check schedule one more run each, after a failure at most workers - 1 |
| RunSqlPool.WindsDown | dbHelper/run_sqls.go:304-379 | once scheduling has ended, the workers take at most ten more steps each, with or without a run limit |
| RunSqlPool.CanFinish | dbHelper/run_sqls.go:302-380 | from every reachable state with a run limit, and from every state in which scheduling has ended, all workers can return without a further error |
| RunSqlPool.StepsAreBounded | dbHelper/run_sqls.go:304-379 | with a run limit, the steps of all workers together are bounded in every interleaving |
| RunSqlPool.SomeWorkerCanStep | dbHelper/run_sqls.go:302-380 | the pool never deadlocks: until all workers have returned, one can move |
| InsertValues.BuildInsertTasks | dbHelper/insert_values.go:347-365 | one task per ID, of the size given by quotient and remainder |
| InsertValues.TaskSizesPartitionRows | dbHelper/insert_values.go:347-365 | task sizes sum to the total and differ by at most one |
| InsertValues.BatchesAreFullButLast | dbHelper/insert_values.go:213-238 | a task takes ceil(insertCnt / batchSize) statements of 1..batchSize rows that sum to insertCnt, only the last short |
| InsertValues.PrintProgress | dbHelper/insert_values.go:234-237 | exactly the multiples of the interval up to the inserted count are printed, in order |
| InsertValues.MarksAreMultiples | dbHelper/insert_values.go:234-237 | the progress marks are exactly the multiples of 50000 up to the inserted rows, ascending |
| InsertValues.InsertForOneTask | dbHelper/insert_values.go:198-241 | executed statements are a prefix of the batches, all of them on success, with the progress lines that belong to them, and each error is returned only in its situation |
| InsertValues.TaskOutcomeIsUnique | dbHelper/insert_values.go:198-241 | the answers of context and database leave only one outcome, and success is exactly that no check and no statement of the task goes wrong |
| InsertPool.AlwaysInv | dbHelper/insert_values.go:392-417 | in every reachable state each task has executed a prefix of its batches, all of them if it returned with no error recorded, and the mutex holder is the task that recorded the error |
| InsertPool.NothingIsExcluded | dbHelper/insert_values.go:394-415 | every unfinished task can take its next step, a statement succeeding or failing, and waits only for the task that records its error |
| InsertPool.RecordedErrorIsRootCause | dbHelper/insert_values.go:395-414 | a cancelled context implies a recorded error, and the recorded error is a failed statement, never a "canceled" error |
| InsertPool.NoErrorMeansAllRows | dbHelper/insert_values.go:392-428 | no interleaving executes more rows than configured, and a run without recorded error executes exactly that many over all tasks |
| InsertPool.ResultIsExact | dbHelper/insert_values.go:418-428 | the recorded error if and only if some statement failed, a close error if and only if none did and closing failed, and otherwise success |
| InsertPool.AnyFailureIsReported | dbHelper/insert_values.go:225-232 | if any statement fails, the run returns an error |
| InsertPool.RecordedErrorDidFail | dbHelper/insert_values.go:398-414 | the recorded error is that of a task of which a statement did fail |
| InsertPool.TaskErrorsAreTold | dbHelper/insert_values.go:225-232 | a task reports its statement's error only if it found the context uncancelled after the failure, and a "canceled" error only if the context is cancelled |
| InsertPool.LateTasksReturn | dbHelper/insert_values.go:394-400 | a task that has not begun when an error is recorded only returns |
| InsertPool.FirstErrorIsRecordedOnce | dbHelper/insert_values.go:409-414 | once recorded, the error is never replaced |
| InsertPool.BoundedOverrun | dbHelper/insert_values.go:214-216 | once an error has cancelled the context no task starts a statement: at most those in flight, one per other task, are still executed |
| InsertPool.CanFinish | dbHelper/insert_values.go:198-241 | from every reachable state all tasks can return without a further failure |
| InsertPool.InFlightTogetherIff | dbHelper/runner.go:9-17 | n statements can be in flight at once if and only if there are n tasks and n rows |
| InsertPool.StepsAreBounded | dbHelper/insert_values.go:198-241 | given that statements return, the tasks take boundedly many steps in every interleaving |
| InsertPool.SomeTaskCanStep | dbHelper/insert_values.go:395-414 | the mutex protocol never deadlocks |
| KeyValueServer.SplitJoin | cpp/server.cpp:53-69 | cutting at spaces inverts joining with spaces for space-free tokens |
| KeyValueServer.JoinSplit | cpp/server.cpp:53-69 | joining with spaces inverts cutting at spaces, and no token contains a space |
| KeyValueServer.ClientWorkSpace.ParseMessage | cpp/server.cpp:53-83 | the fields after a message are the tokens it has, the old fields where it has none, and all old fields beyond three tokens |
| KeyValueServer.ClientWorkSpace.ProcessMessage | cpp/server.cpp:85-129 | fields, store and status after a message are those of the operation on the old ones, storage faults included |
| KeyValueServer.MessageEffects | cpp/server.cpp:71-123 | for every message, faults and missing or surplus tokens included: only the named key can change, a get, an unknown operation or a faulted one changes nothing in the store, and the fields left behind |
| KeyValueServer.MessageAnswer | cpp/server.cpp:85-126 | the text of the answer to every message, faults and unknown operations included |
| KeyValueServer.StaleFieldsHiddenIff | cpp/server.cpp:71-82 | stale workspace fields cannot show in response or store if and only if the message names all the fields its operation reads |
| KeyValueServer.HistoryHiddenIff | cpp/server.cpp:71-129 | no two histories of a connection that leave the same store are told apart by a message if and only if the message is self-contained |
| KeyValueServer.SessionsForgetIff | cpp/server.cpp:85-129 | sessions in a vocabulary of messages never show what the workspace held before, storage faults included, if and only if every message in it is self-contained |
| KeyValueServer.HandleClient | cpp/server.cpp:187-243 | processed messages with their newlines, then the pending buffer, are the bytes received, even when sends fail, and a whole line stays pending only after a failed send; responses and store are those of running the messages one by one |
| KeyValueServer.ProcessLines | cpp/server.cpp:203-225 | the inner loop moves whole lines from the buffer to the processed messages and stops at a failed send |
| KeyValueServer.ReceivedChunks | cpp/server.cpp:197-241 | chunks add their bytes in order, an interrupted receive adds nothing, and nothing is read after the end of the connection |
| KeyValueServer.FramingIsUnique | cpp/server.cpp:203-207 | a byte stream has one reading as lines and an incomplete remainder |
| KeyValueServer.CommandIgnoresWorkspace | cpp/server.cpp:86-123 | a full-arity command has the effect it has on a plain map, whatever the workspace held |
| KeyValueServer.ChunkingIndependence | cpp/server.cpp:197-225 | however encoded commands are cut into chunks, responses and final store are those of running them one by one on a plain map |
| Barrier.AlwaysInv | cpp/bench.cpp:27-50 | the shared counter is always arrived minus departed |
| Barrier.BarrierIsSafe | cpp/bench.cpp:27-50 | no thread works before all have arrived, none returns before all have finished work, and the counter never leaves 0..threads |
| Barrier.CanFinish | cpp/bench.cpp:27-50 | with any number of threads all can get through |
| Barrier.CanGetStuckIff | cpp/bench.cpp:31-49 | a run can get stuck for ever if and only if it has two or more threads |
| InsertWindow.GeneratePartitions | go/main/insert_window.go:35-48 | partition sizes are positive and sum to the chosen total; each is the draw, only the last may be cut |
| InsertWindow.InsertPartition | go/main/insert_window.go:53-94 | the flushed statements concatenate to the rows of the partition, each once and in order, 1..1001 rows a statement and only the last short |
| InsertWindow.RowsAreOrdered | go/main/insert_window.go:58-64 | o1 counts 0, 1, 2, ..., and o2 starts at 0 and grows by 1 at exactly the rows that draw it |
| InsertWindow.RunWindowWorker | go/main/insert_window.go:32-95 | every partition is inserted once under its own number, and the rows of all statements add up to the chosen total |

## Left out

- SQL execution, connections, YAML loading, timings, sockets, signals and the RocksDB engine: executions, sends, receives and faults are arbitrary answers from outside, the store is a map.
- Log lines and error texts, among them `formatCompareRow`, `formatCompareFailureFile` and `truncateRunes`: easy members that nothing else depends on. A failure file's content is any byte string.
- The serial comparison of SQL pairs, which stops at the first error: a plain loop.
- Termination of a pool that has only a duration limit: it rests on wall-clock time. The timer is an event that may come at any moment.
- The registry of client descriptors and the fact that many clients share one store: each connection is modelled alone.
- What RocksDB leaves in the value string when a key is missing: the model keeps the old value, which only a message that is not self-contained could make visible.
- Random value generators, the value columns and the progress lines of the window data, and the generators beside it.
- InsertForOneTask: a nil database is an error of the sequential task only; the concurrent run starts after the database has been opened, so its state machine has no such error.
