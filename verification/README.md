# Verified models of the package analysis system

This project models the stateful parts of the system and proves what they promise. Check
everything with `dafny verify dfyconfig.toml`.

- **Analysis queue.** `TaskTable` is the table of analysis tasks with its schedule (highest
  priority first, oldest first within a priority), renumbering, and the reuse of finished results.
  `TaskRows` says field by field what the operations write. `TaskStore`, `QueueManager` and
  `CeleryTasks` are the two schedulers as classes over that table; `QueueRuns` and `CeleryRuns` are
  step systems built from the same transactions, with theorems over whole runs; `BlockedQueue`, `CeleryFailures` and `CeleryReports` follow three consequences
  through those runs. Each database transaction is one indivisible step, and so is each query
  outside one. The two schedulers are modelled separately: the QueueManager checks for a running
  task and sets one in different transactions, so the two do not guard against each other.
- **strace logs and write buffers.** `StraceEvents` gives every matched line its effect,
  `StraceSummary` says what a sequence of effects must be summarised as, `StraceParser` is the
  parsing loop proved against that, `StraceFiles` tells the results by the events of the lines,
  `StraceLogs` states what holds of whole logs, and `WriteBuffers` follows the buffer ids through the
  phases into the archive.
- **Log writer** (`LogWriter`), **quartiles** (`Quartiles`), **lease extender** (`LeaseExtender`),
  **type exploration** (`TypeExplorer`), **substring filter** (`MatchStrings`), **risk overrides**
  (`RiskOverrides`), **package URLs** (`PurlParser`), **rate limiter** (`RateLimiter`), **line
  lengths and value counts** (`LineLengths`, `ValueCounts`).
- `Wrappers`, `Ordering` (sorted listings of finite sets, first occurrences), `StringOrder` and `SocketKeys`
  serve the others.

## What the code does not do

Some natural claims are false of the code. Each has an exact condition, and a run or an input that
shows it fails.

- Tasks of equal priority do not always leave the queue in the order in which they were enqueued.
  `add_task_to_queue` does not look at a task's status, and the worker saves the task object it read
  when it picked the task (`web/packamal/package_analysis/queue_manager.py:261-263`). The order
  holds over a run if and only if no such save hits a re-enqueued row while an older one of its
  priority waits (`QueueRuns.EqualPrioritiesLeaveInOrder`), hence whenever no enqueue names the task
  the worker holds (`QueueRuns.CarefulEnqueuesKeepOrder`). `QueueRuns.EnqueueOfHeldTaskBreaksOrder`
  is a run in which it breaks. Tasks settled in one transaction leave together.
- `web/packamal/package_analysis/models.py:89` makes the report of a task a one-to-one field, while
  the reuse branches give one report to two tasks. With the constraint enforced, selection in the
  QueueManager aborts if and only if nothing runs and the head of the queue has a finished result
  (`BlockedQueue.AbortsExactlyWhenHeadHasResult`); `BlockedQueue.CanBeBlocked` is a run that gets
  there. From then on no task leaves the queue until an enqueue gives it a head without a finished
  result (`BlockedQueue.StaysBlockedExactly`). A new task does that if and only if it outranks the
  head and its purl has no finished result; enqueueing again the only finished task of the head's
  purl does it at any priority. All other queue results hold with the constraint and without it.
- Under Celery a task can fail without ever having run. In every run such a task was refused when it
  was opened (`CeleryFailures.FailedWithoutRunningWasRefused`), most simply because another task was
  running and the message had spent its retries (`CeleryFailures.WaitingTaskCanFail`).
- Under Celery a row need not be linked to the report of its own analysis: the report is saved in one
  step and the latest one is read in another. An execution reads back its own report if and only if
  none was saved in between (`CeleryReports.ReadsOwnReportExactly`), and every row's report is its
  own in every run in which no report is saved while another execution is between the two steps
  (`CeleryReports.RowsHaveOwnReports`), as with one worker. `CeleryReports.OverlapLinksForeignReport`
  is a run of two workers in which it fails.
- A tick handled later than the grace period, less the initial lag of the lease, loses the message
  (`LeaseExtender.LeaseSurvivesExactly`, `LeaseExtender.LeaseCanExpire`).
- Key order of sockets is port order, for one address, exactly up to port 99999
  (`SocketKeys.KeysSortByPortExactly`). The parser takes ports of any number of digits
  (`StraceEvents.AnyPortIsParsed`), so a wider port in a log reaches the keys; the port of an IPv4 or
  IPv6 address has 16 bits, so a log of real calls holds none above 65535.
- A buffer in a write call is not found again if a quote stands before it, as in a path that holds one
  (`StraceEvents.WriteArgsAreParsed`).
- `web/packamal/package_analysis/test/test_purl_parser.py:93-94` lists `pkg:pypi/` and
  `pkg:pypi/package@` as invalid. The code accepts both: a string parses exactly if it has the prefix,
  a supported type and a slash (`PurlParser.ParsesExactly`, `PurlParser.AnyRestParses`). The model
  follows the code.
- The archive of write buffers holds every on-disk buffer exactly once and nothing else if and only
  if whatever lay in the directory before was written again (`WriteBuffers.AnalyzePackage`). Buffers
  stay behind for the next package whenever there is no archive: after an error in a phase, without
  one of the two buckets, or after a failed upload.

## Model

| member | source | states |
|---|---|---|
| TaskTable.KeysAgree | web/packamal/package_analysis/tasks.py:259-261 | in a well-timed, well-placed table the two schedulers' sort keys list the queued rows in the same order and pick the same head |
| TaskTable.RenumberedSpec | web/packamal/package_analysis/queue_manager.py:327-338 | renumbering gives the i-th scheduled row position i+1, changes no other field or row, keeps the schedule, and is idempotent |
| TaskTable.SettledSpec | web/packamal/package_analysis/queue_manager.py:190-219 | settling the first k scheduled rows leaves exactly the rest of the schedule queued, in order, with the running rows, timing and placement kept |
| TaskTable.AdvancesStep | web/packamal/package_analysis/queue_manager.py:199-215 | completing the head with a finished result, renumbering, and selecting again is one selection that settles one row more |
| TaskTable.ChosenExists | web/packamal/package_analysis/queue_manager.py:196-200 | whenever a finished result exists the query's first row exists: lowest id, or latest completion under Celery |
| TaskTable.RunningRowsFail | web/packamal/package_analysis/tasks.py:319-360 | failing any set of running rows leaves the queue and the schedule as they were |
| TaskTable.RenumberWrite | web/packamal/package_analysis/queue_manager.py:268-325 | renumbering before and after a write to a row that is not queued equals renumbering once after it |
| TaskRows.AdvancesWorksOff | web/packamal/package_analysis/queue_manager.py:190-219 | working off the queue: every queued task served before the one picked is completed now, without a position, with the report and address of a finished task of its purl and its other fields as they were; the rest only move up |
| TaskRows.AdvancesMovesUp | web/packamal/package_analysis/queue_manager.py:327-338 | the positions left after settling a task are 1, 2, 3 and so on in order of service |
| TaskRows.SkipsExactly | web/packamal/package_analysis/queue_manager.py:196-200 | some task is settled if and only if the first to be served has a finished task of its purl |
| TaskRows.TimeoutsFailOverdue | web/packamal/package_analysis/tasks.py:319-360 | failing timed-out rows fails just the running ones started more than sixty seconds ago for each of their minutes, at now and without a position |
| TaskStore.TaskStore.UpdateQueuePositions | web/packamal/package_analysis/queue_manager.py:327-338 | the loop of saves leaves the table renumbered by (-priority, queued_at) |
| QueueManager.QueueManager.AddTaskToQueue | web/packamal/package_analysis/queue_manager.py:43-75 | the task is queued with the next position after all queued ones, the rest of the table unchanged, and the table stays well timed and well placed |
| QueueManager.EnqueueKeeps | web/packamal/package_analysis/queue_manager.py:53-69 | an enqueue adds one queued row, keeps positions distinct and in enqueue order per priority, and lifts an older row's rank only if the new priority is strictly higher |
| QueueManager.QueueManager.FirstInQueue | web/packamal/package_analysis/queue_manager.py:190-192 | ordering by (-priority, queue_position) yields the head by (-priority, queued_at) |
| QueueManager.QueueManager.GetNextTask | web/packamal/package_analysis/queue_manager.py:176-219 | terminates; with nothing running it returns the first scheduled task whose purl has no completed report, every task ahead of it is completed with the report of a completed task of its purl, and the others keep status and order; a rejected save rolls everything back |
| QueueManager.SelectsMeans | web/packamal/package_analysis/queue_manager.py:176-219 | a selection told row by row: what is settled, with which time, report and address, what is returned, and what an abort leaves |
| QueueManager.QueueManager.CheckTimeouts | web/packamal/package_analysis/queue_manager.py:353-425 | fails exactly the running rows over their time limit and renumbers the queue |
| QueueManager.TimeoutsMean | web/packamal/package_analysis/queue_manager.py:353-377 | the overdue rows have failed and, if there were any, the queued ones are renumbered; no other field changes |
| QueueManager.TimeoutsKeep | web/packamal/package_analysis/queue_manager.py:353-377 | timeouts leave the queued rows, their schedule and ranks as they were |
| QueueManager.QueueManager.ProcessTask | web/packamal/package_analysis/queue_manager.py:221-325 | starts, finishes or fails the task's own row, and renumbers the rest |
| QueueManager.ProcessedMeans | web/packamal/package_analysis/queue_manager.py:253-325 | the row is failed iff the analysis came to an error, else completed with its report and the given address or its own; started and completed at the two times, without a position |
| QueueRuns.StepKeepsInv | web/packamal/package_analysis/queue_manager.py:148-325 | every step of the worker, of enqueuers and of the timeout check keeps the invariant, stale saves of the held row included |
| QueueRuns.StartWrites | web/packamal/package_analysis/queue_manager.py:253-266 | starting an analysis in a run writes running, the start time and no position into the row |
| QueueRuns.FinishWrites | web/packamal/package_analysis/queue_manager.py:268-325 | in a run the row is failed iff the analysis came to an error, and completed with its report otherwise |
| QueueRuns.ReachableStates | web/packamal/package_analysis/queue_manager.py:53-69 | in every reachable state at most one row runs, queued rows hold distinct positive positions ordered like queued_at within a priority, and both schedulers agree on the head |
| QueueRuns.EqualPrioritiesLeaveInOrder | web/packamal/package_analysis/queue_manager.py:148-325 | over a whole run, every row that leaves the queue was enqueued before all rows of its priority that are queued in any later state, if and only if the worker never saves its stale row over a re-enqueued one while an older one of that priority waits |
| QueueRuns.LeavesExactly | web/packamal/package_analysis/queue_manager.py:176-325 | a row leaves the queue in a step if and only if a selection settles it or the worker saves the row of that task |
| QueueRuns.StepInOrderExactly | web/packamal/package_analysis/queue_manager.py:190-219 | one step takes rows off the queue out of turn if and only if it is such a stale save |
| QueueRuns.RequeuedExactly | web/packamal/package_analysis/queue_manager.py:63-68 | the row of the held task comes to be queued again if and only if an enqueue names that task |
| QueueRuns.CarefulEnqueuesKeepOrder | web/packamal/package_analysis/queue_manager.py:43-75 | if no enqueue ever names the task the worker holds, equal priorities leave in order |
| QueueRuns.EnqueueOfHeldTaskBreaksOrder | web/packamal/package_analysis/queue_manager.py:258-265 | a run in which a task enqueued again during its analysis is taken off the queue ahead of an older one of its priority |
| QueueRuns.StepRank | web/packamal/package_analysis/queue_manager.py:148-219 | one step lets at most one task ahead of a waiting one: an arriving task of strictly higher priority |
| QueueRuns.RankNeverGrows | web/packamal/package_analysis/queue_manager.py:148-219 | while a task waits and no strictly higher priority arrives, its rank never grows |
| BlockedQueue.AbortsExactlyWhenHeadHasResult | web/packamal/package_analysis/models.py:89 | with the one-to-one report constraint enforced, selection aborts, changing nothing, if and only if nothing runs and the head of the queue has a finished result |
| BlockedQueue.StaysBlockedExactly | web/packamal/package_analysis/queue_manager.py:176-219 | over a whole run the worker stays blocked so, and no row leaves the queue, if and only if every enqueue in between leaves a head with a finished result |
| BlockedQueue.NewTaskKeepsBlocked | web/packamal/package_analysis/queue_manager.py:43-75 | a new task unblocks the queue if and only if it outranks the head and its purl has no finished result |
| BlockedQueue.RequeuedDonorUnblocks | web/packamal/package_analysis/queue_manager.py:43-75 | enqueueing the only finished task of the head's purl again unblocks it at any priority |
| BlockedQueue.CanBeBlocked | web/packamal/package_analysis/queue_manager.py:176-219 | a run that ends blocked: two tasks of one purl, the first completed |
| CeleryTasks.CeleryTasks.OpenAnalysis | web/packamal/package_analysis/tasks.py:40-97 | the opening transaction reports missing, busy, done, reused, rejected or begun, and leaves the table each outcome calls for |
| CeleryTasks.OpensMeans | web/packamal/package_analysis/tasks.py:40-97 | when each outcome of an opening occurs and what it writes: running from now for one that begins, the result of the latest completion for one that reuses |
| CeleryTasks.CeleryTasks.ReuseResult | web/packamal/package_analysis/tasks.py:262-284 | the head takes the latest finished result of its purl and the queue is renumbered, unless the one-to-one constraint rejects the save, which changes nothing |
| CeleryTasks.CeleryTasks.ProcessNextQueuedTask | web/packamal/package_analysis/tasks.py:246-294 | sends exactly the first scheduled task without a reusable result, if nothing runs, and settles those ahead of it |
| CeleryTasks.DispatchesMeans | web/packamal/package_analysis/tasks.py:246-294 | a dispatch told row by row: which tasks take a result, which is sent, and that nothing happens while a task runs |
| CeleryTasks.CeleryTasks.FailTimedOut | web/packamal/package_analysis/tasks.py:319-360 | fails exactly the running rows over their time limit |
| CeleryTasks.CeleryTasks.CheckTimeouts | web/packamal/package_analysis/tasks.py:313-376 | after failing timed-out rows the next task is dispatched, and only then |
| CeleryRuns.StepKeepsInv | web/packamal/package_analysis/tasks.py:23-243 | every step, redelivery, timeout, late completion, failure, retry, clean-up and lost worker included, keeps the invariant |
| CeleryRuns.OpenMeans | web/packamal/package_analysis/tasks.py:40-97 | the opening step of a run, row by row, with the message it sends and the execution it leaves |
| CeleryRuns.ExecutionWrites | web/packamal/package_analysis/tasks.py:98-243 | what each step of an execution writes into its row and the reports |
| CeleryRuns.ReachableStates | web/packamal/packamal/celery.py:18-24 | in every reachable state at most one row has status running, however many workers there are |
| CeleryFailures.FailedWithoutRunningWasRefused | web/packamal/package_analysis/tasks.py:40-58 | in every run, a row that has failed without ever having been running was refused when opened: it was missing, or another row ran and the retries were spent, or its reuse of a result clashed with the one-to-one constraint |
| CeleryFailures.RefusedExactly | web/packamal/package_analysis/tasks.py:40-83 | an opening raises if and only if it is refused so, and a refused row that exists can be marked failed at once |
| CeleryFailures.WaitingTaskCanFail | web/packamal/package_analysis/tasks.py:44-52 | a run in which a task that waits behind a running one fails without ever having run |
| CeleryReports.StepKeepsOwned | web/packamal/package_analysis/tasks.py:163-172 | every step keeps each row's report its own, unless it saves a report while another execution is between saving its own and reading the latest |
| CeleryReports.RowsHaveOwnReports | web/packamal/package_analysis/tasks.py:163-172 | in every run without such a save, each row's report was saved by an analysis of the row's own purl, reused results included |
| CeleryReports.OneWorkerSavesNothingBetween | web/packamal/packamal/celery.py:18-19 | with one worker there is no such save |
| CeleryReports.ReadsOwnReportExactly | web/packamal/package_analysis/tasks.py:163-165 | an execution reads back the report it saved if and only if no report was saved in between |
| CeleryReports.OverlapLinksForeignReport | web/packamal/package_analysis/tasks.py:163-172 | a run of two workers, one of whose tasks has timed out, in which a row is linked to the report of another purl |
| StraceEvents.OpenFlags | dynamic-analysis/internal/strace/strace.go:97-115 | a call reads iff its flags name O_RDWR or O_RDONLY, and writes iff they name O_RDWR, O_CREAT or O_WRONLY |
| StraceEvents.LastHexPrefix | dynamic-analysis/internal/strace/strace.go:206-210 | finds the last 0x, or that there is none |
| StraceEvents.ParseIntUndoesFormat | dynamic-analysis/internal/strace/strace.go:211-215 | a number below 2^63 printed in any base up to 16 is parsed back; a larger one is rejected |
| StraceEvents.WriteArgsAreParsed | dynamic-analysis/internal/strace/strace.go:204-226 | the buffer and the count of a printed write call are found again, whatever the buffer holds, if and only if the count fits 64 bits and no quote stands before the buffer |
| StraceEvents.AnyPortIsParsed | dynamic-analysis/internal/strace/strace.go:117-119 | a port of any number of digits reaches the socket if and only if it fits 64 bits |
| StraceEvents.SignedNumbers | dynamic-analysis/internal/strace/strace.go:211-215 | a sign is allowed; -2^63 still fits and anything below does not |
| StraceEvents.DigitsExactly | dynamic-analysis/internal/strace/strace.go:211-215 | only a nonempty string of digits of the base is a number |
| StraceEvents.CountExactly | dynamic-analysis/internal/strace/strace.go:204-215 | the count is what stands after the last 0x, and there is none without one |
| StraceEvents.QuotedExactly | dynamic-analysis/internal/strace/strace.go:218-226 | the buffer is what stands between the outer quotes, and empty with less than two |
| StraceParser.StraceResult.RecordFileAccess | dynamic-analysis/internal/strace/strace.go:150-157 | the path's summary gains the flags and no other path changes |
| StraceParser.StraceResult.RecordFileWrite | dynamic-analysis/internal/strace/strace.go:159-177 | the path gains the write, and a buffer whose id is new is stored on disk, others are not stored again |
| StraceParser.StraceResult.RecordSocket | dynamic-analysis/internal/strace/strace.go:179-189 | the first socket with a key stays |
| StraceParser.StraceResult.RecordCommand | dynamic-analysis/internal/strace/strace.go:191-199 | the first command with a key stays |
| StraceParser.StraceResult.ParseEnterSyscall | dynamic-analysis/internal/strace/strace.go:201-229 | refines the event's effect: summary, buffers and syscall sequence; malformed exactly if the effect is a parse failure, an error exactly if the disk failed |
| StraceParser.StraceResult.ParseExitSyscall | dynamic-analysis/internal/strace/strace.go:231-328 | refines the event's effect for every syscall branch; malformed exactly if the effect is a parse failure |
| StraceParser.Parse | dynamic-analysis/internal/strace/strace.go:332-379 | null exactly if the reader or a file creation failed; else the result summarises the effects of all lines in order and the directory gains the distinct buffers, one creation each; no file is ever lost |
| StraceParser.ReadOne | dynamic-analysis/internal/strace/strace.go:342-347 | reading with terminators and trimming yields the lines, the last one without terminator included |
| StraceFiles.LogLinesExactly | dynamic-analysis/internal/strace/strace.go:342-347 | the lines read are the log cut at its newlines, an empty last one included |
| StraceParser.LogsConcat | dynamic-analysis/internal/strace/strace.go:332-379 | the effects and syscalls of two logs joined by a newline are those of the first, then those of the second |
| StraceParser.StraceResult.Files | dynamic-analysis/internal/strace/strace.go:382-395 | lists strictly increasing paths, exactly those touched, each with its flags and writes |
| StraceParser.StraceResult.Sockets | dynamic-analysis/internal/strace/strace.go:398-411 | lists each pair of address and port that was bound or connected exactly once, in key order |
| StraceSummary.FileOfMeaning | dynamic-analysis/internal/strace/strace.go:150-177 | a path is listed iff some effect touches it; each flag is the OR over its effects; its writes are those of the log in order |
| StraceSummary.FileOfConcat | dynamic-analysis/internal/strace/strace.go:150-177 | the summary of two sequences of effects merges the two summaries |
| StraceSummary.SocketOfMeaning | dynamic-analysis/internal/strace/strace.go:179-189 | a socket is recorded under a key iff it occurred and the key is its own |
| StraceSummary.FirstsConcat | dynamic-analysis/internal/strace/strace.go:179-199 | for sockets and commands the first log's entry wins |
| StraceSummary.StoredOnce | dynamic-analysis/internal/strace/strace.go:159-177 | each distinct buffer id is stored once, under the hash of the stored buffer |
| StraceSummary.StoredExactlyRecorded | dynamic-analysis/internal/strace/strace.go:159-177 | a buffer is stored iff some path's write record names it |
| StraceFiles.EventSays | dynamic-analysis/internal/strace/strace.go:201-328 | for every event, path and flag: the event's effect has it exactly if the call says so, stat and newfstatat reading, unlink and unlinkat deleting, creat and write writing, open and openat by their flags |
| StraceFiles.MalformedExactly | dynamic-analysis/internal/strace/strace.go:201-328 | only these arguments are logged as malformed |
| StraceFiles.FileExactly | dynamic-analysis/internal/strace/strace.go:332-379 | in a parsed log a path is listed iff some line names it, and is read, written or deleted iff some line says so |
| StraceFiles.ListedExactly | dynamic-analysis/internal/strace/strace.go:382-395 | the same of the sorted list of files |
| StraceFiles.WritesInLogOrder | dynamic-analysis/internal/strace/strace.go:159-177 | a path's writes are the hashes and counts of its write calls, each once and in log order |
| StraceFiles.TraceInLogOrder | dynamic-analysis/internal/strace/strace.go:201-240 | the syscall sequence holds every matched line's call, parsed or not, in log order |
| StraceFiles.SocketExactly | dynamic-analysis/internal/strace/strace.go:275-293 | a socket is recorded iff some line binds or connects to it with an internet family and a port that parses |
| StraceFiles.CommandExactly | dynamic-analysis/internal/strace/strace.go:191-199 | the command under a key is that of the first execve with the key |
| StraceFiles.BufferExactly | dynamic-analysis/internal/strace/strace.go:159-177 | the buffer stored under an id is that of the first write call with the id, with the feature on; without one nothing is stored |
| StraceLogs.ParsingConcatenation | dynamic-analysis/internal/strace/strace.go:332-379 | parsing two newline-separated logs merges their files, sockets and commands |
| StraceLogs.FailuresChangeNothing | dynamic-analysis/internal/strace/strace.go:351-368 | two logs that differ only in lines without effect and lines that fail to parse give the same files, sockets, commands and buffers |
| StraceLogs.NothingStoredWhenOff | dynamic-analysis/internal/strace/strace.go:161-164 | with the feature off nothing is stored and no write is recorded |
| SocketKeys.KeyInjective | dynamic-analysis/internal/strace/strace.go:179-189 | the key determines address and port |
| SocketKeys.KeyFormat | dynamic-analysis/internal/strace/strace.go:179-189 | a key is the address, a dash and the port's digits, padded with zeros to five |
| SocketKeys.KeysSortByPort | dynamic-analysis/internal/strace/strace.go:398-411 | for one address and ports up to 99999, key order is port order |
| SocketKeys.KeysSortByPortExactly | dynamic-analysis/internal/strace/strace.go:398-411 | for any address, key order is port order on the ports up to n if and only if n is at most 99999 |
| SocketKeys.WidePortsSortEarly | dynamic-analysis/internal/strace/strace.go:182 | beyond five digits it is not: 100000 sorts before 99999 |
| StringOrder.Linear | dynamic-analysis/internal/strace/strace.go:388 | the byte-wise string order is a strict linear order, so a set of keys has one sorted listing |
| StringOrder.LessExactly | dynamic-analysis/internal/strace/strace.go:388 | a string comes first if it is a proper beginning of the other or has the smaller character where they first differ |
| StraceParser.TempDir.CreateAndWriteTempFile | dynamic-analysis/internal/utils/file_write_data_utils.go:19-32 | writes the file, or fails and touches at most that file |
| WriteBuffers.RemoveDuplicates | dynamic-analysis/internal/utils/remove_duplicates.go:9-19 | the loop computes the deduplicated sequence |
| WriteBuffers.DeduplicatedSpec | dynamic-analysis/internal/utils/remove_duplicates.go:3-8 | it holds every item once, in the order of first occurrence |
| WriteBuffers.DeduplicatedUnique | dynamic-analysis/internal/utils/remove_duplicates.go:3-8 | no other sequence does |
| WriteBuffers.PhaseResult.SetData | dynamic-analysis/internal/dynamicanalysis/analysis.go:85-103 | appends, for every touched path in order, its flags, its nonempty writes and its buffer ids |
| WriteBuffers.FileResultsMean | dynamic-analysis/internal/dynamicanalysis/analysis.go:85-91 | the files reported are the touched paths, strictly increasing, with read as read, written as written and deleted as deleted |
| WriteBuffers.ReportExactly | dynamic-analysis/internal/dynamicanalysis/analysis.go:85-91 | the same told by the lines of the log |
| WriteBuffers.WriteResultsMean | dynamic-analysis/internal/dynamicanalysis/analysis.go:91-103 | the write summary holds the written paths, strictly increasing, with their writes in log order |
| WriteBuffers.RecordedIdsAreStored | dynamic-analysis/internal/dynamicanalysis/analysis.go:91-101 | the ids recorded for a phase are exactly those its log made the parser store |
| WriteBuffers.WriteResultsInLogOrder | dynamic-analysis/internal/dynamicanalysis/analysis.go:91-103 | a path is in the write summary iff it was written, with its writes in log order |
| WriteBuffers.RunPhase | dynamic-analysis/internal/worker/rundynamic.go:271-313 | one phase: on success its ids are exactly the buffers its log stores, and the directory gains exactly those |
| WriteBuffers.RunPhases | dynamic-analysis/internal/worker/rundynamic.go:202-218 | fails iff a phase that is reached cannot be run or read or the disk failed; else the recorded ids are the buffers of the phases up to the first incomplete one, and the directory gains exactly them, each under the hash of its contents |
| WriteBuffers.RunLengthMeans | dynamic-analysis/internal/worker/rundynamic.go:202-218 | the phases run are those up to the first that does not complete |
| WriteBuffers.StoredByExactly | dynamic-analysis/internal/worker/rundynamic.go:202-218 | the ids recorded over the phases are those of the write calls in their logs |
| WriteBuffers.CollectIds | dynamic-analysis/internal/worker/savefilewriteresults.go:23-29 | whatever order the phases are visited in, every recorded id is handed over exactly once |
| WriteBuffers.SaveTempFilesToZip | dynamic-analysis/internal/resultstore/resultstore.go:123-143 | one entry per id with its file's contents, or failure iff a file is missing |
| WriteBuffers.SaveFileWriteResults | dynamic-analysis/internal/worker/savefilewriteresults.go:14-39 | archives exactly the recorded buffers that are on disk and empties the directory, or, if a recorded buffer is missing, changes nothing |
| WriteBuffers.AnalyzePackage | dynamic-analysis/cmd/worker/main.go:138-141 | no archive iff a phase failed, the feature is off, a bucket is missing or an upload fails, and then the buffers stay; an archive holds every on-disk buffer once and nothing else iff whatever lay in the directory before was written again |
| LogWriter.TrimRightSpec | dynamic-analysis/internal/log/writer.go:34-67 | trimming removes a run of white-space characters and leaves none at the end |
| LogWriter.SpacesExactly | dynamic-analysis/internal/log/writer.go:59 | what is trimmed is the UTF-8 encoding of a white-space code point, and every such encoding is |
| LogWriter.Writer.Write | dynamic-analysis/internal/log/writer.go:34-67 | takes all of its input and logs each completed line, whatever the buffer held |
| LogWriter.Writer.Close | dynamic-analysis/internal/log/writer.go:72-78 | logs the untrimmed remainder if there is one |
| LogWriter.WriteAll | dynamic-analysis/internal/log/writer.go:34-78 | however a stream is cut into writes, the log is that of the whole stream, and each write returns its input's length |
| LogWriter.LoggedByLine | dynamic-analysis/internal/log/writer.go:34-78 | that log is the nonblank lines, right-trimmed, then the remainder |
| Quartiles.Quartiles | dynamic-analysis/internal/staticanalysis/signals/stats/sample_statistics.go:186-201 | the five quartiles of the sorted sample |
| Quartiles.SortSpec | dynamic-analysis/internal/staticanalysis/signals/stats/sample_statistics.go:190-193 | sorting sorts and permutes |
| Quartiles.Bracket | dynamic-analysis/internal/staticanalysis/signals/stats/sample_statistics.go:160-184 | indices stay in bounds and a quartile is the mean of one or two neighbours around q/4 of the sample |
| Quartiles.QuartileIs | dynamic-analysis/internal/staticanalysis/signals/stats/sample_statistics.go:160-184 | the element at q/4 of the sample, or the mean of the two it falls between; the ends for q 0 and 4; no number for the empty sample |
| Quartiles.NonDecreasing | dynamic-analysis/internal/staticanalysis/signals/stats/sample_statistics.go:160-201 | the five values never decrease |
| Quartiles.QuartersOnEachSide | dynamic-analysis/internal/staticanalysis/signals/stats/sample_statistics.go:160-201 | at least q/4 of the samples are at most the quartile and at least (4-q)/4 are at least it |
| Quartiles.OrderDoesNotMatter | dynamic-analysis/internal/staticanalysis/signals/stats/sample_statistics.go:186-201 | every permutation of the sample has the same quartiles |
| Quartiles.NegationMirrorsQuartiles | dynamic-analysis/internal/staticanalysis/signals/stats/sample_statistics.go:160-201 | negating the sample maps quartile q to minus quartile 4-q |
| LeaseExtender.AckCoversExactly | dynamic-analysis/cmd/worker/pubsubextender/gcpdriver.go:54-70 | the clamped, truncated deadline covers the requested one iff it is short enough or a whole number of seconds within the bounds |
| LeaseExtender.AckIs | dynamic-analysis/cmd/worker/pubsubextender/gcpdriver.go:54-70 | ten seconds below, ten minutes above, whole seconds in between |
| LeaseExtender.StartsExactly | dynamic-analysis/cmd/worker/pubsubextender/extender.go:68-100 | a grace period longer than the deadline is refused, an equal one panics |
| LeaseExtender.RunKeeps | dynamic-analysis/cmd/worker/pubsubextender/extender.go:88-143 | the invariant of the goroutine, its ticker and Stop holds in every run |
| LeaseExtender.LeaseNeverExpires | dynamic-analysis/cmd/worker/pubsubextender/extender.go:102-123 | with ticks handled in time, the lease is live at every moment until Stop is through its handshake, whenever between request and return the service grants it |
| LeaseExtender.LeaseSurvivesExactly | dynamic-analysis/cmd/worker/pubsubextender/extender.go:88-126 | the lease survives in every run iff handling limit plus initial lag is at most the grace period |
| LeaseExtender.LeaseCanExpire | dynamic-analysis/cmd/worker/pubsubextender/extender.go:88-126 | beyond that limit a run that loses the lease exists |
| LeaseExtender.StopCompletes | dynamic-analysis/cmd/worker/pubsubextender/extender.go:132-143 | from any state in which Stop was called, at most three steps, without time passing, complete it |
| LeaseExtender.StopNeverBlocks | dynamic-analysis/cmd/worker/pubsubextender/extender.go:132-143 | the handshake always has an enabled step |
| LeaseExtender.NoExtensionAfterwards | dynamic-analysis/cmd/worker/pubsubextender/extender.go:102-123 | nothing is extended after done was received or an extension failed |
| LeaseExtender.StopReportsFailure | dynamic-analysis/cmd/worker/pubsubextender/extender.go:132-143 | Stop returns an error iff an extension failed, and a second Stop changes nothing |
| TypeExplorer.Explorer.TryCallMethods | dynamic-analysis/sandboxes/dynamicanalysis/analyze-python.py:261-274 | terminates; sees exactly what is reachable from the returned types, closed under method returns |
| TypeExplorer.Explorer.Investigate | dynamic-analysis/sandboxes/dynamicanalysis/analyze-python.py:261-274 | a type is entered once, and all it leads to is seen |
| TypeExplorer.Explorer.DoExecute | dynamic-analysis/sandboxes/dynamicanalysis/analyze-python.py:129-166 | terminates; ends normally iff every class instantiates to itself; the seen types are exactly those reachable from the executed members |
| TypeExplorer.RootsExactly | dynamic-analysis/sandboxes/dynamicanalysis/analyze-python.py:146-162 | the roots are the module types that functions, or methods of the classes, return |
| TypeExplorer.SeenMeans | dynamic-analysis/sandboxes/dynamicanalysis/analyze-python.py:137-164 | the seen types are those, what their methods return, and nothing that no such path leads to |
| TypeExplorer.SeenIsReachable | dynamic-analysis/sandboxes/dynamicanalysis/analyze-python.py:137-164 | a closed set of reachable types that holds the roots is the reachable set |
| TypeExplorer.ClosedHoldsPath | dynamic-analysis/sandboxes/dynamicanalysis/analyze-python.py:261-274 | a set closed under method returns holds every path from its members |
| MatchStrings.LongestUnique | web/packamal/package_analysis/src/yara/report/report.py:217-235 | on two or more strings: exactly the substring-maximal nonempty ones, every nonempty input inside an output, no output inside another, longest first |
| MatchStrings.SortSpec | web/packamal/package_analysis/src/yara/report/report.py:221 | the sort by length keeps the elements, longest first |
| MatchStrings.SortStable | web/packamal/package_analysis/src/yara/report/report.py:221 | strings of the same length keep their order |
| MatchStrings.OrderDoesNotMatter | web/packamal/package_analysis/src/yara/report/report.py:217-235 | the result as a set depends only on the set of inputs |
| MatchStrings.ContainsTransitive | web/packamal/package_analysis/src/yara/report/report.py:229 | being a substring is transitive |
| MatchStrings.ContainsExactly | web/packamal/package_analysis/src/yara/report/report.py:229 | containing a string is being it with text around it |
| RiskOverrides.HandleOverrides | web/packamal/package_analysis/src/yara/report/report.py:556-570 | every behaviour ends with the risk the specification gives, duplicate names and overridden override rules included, and the result lists the survivors in dictionary order |
| RiskOverrides.SurvivorsExactly | web/packamal/package_analysis/src/yara/report/report.py:556-570 | a behaviour survives iff it is the last of its name, is no override rule's, and is scored at least the minimum |
| RiskOverrides.FirstNamesAre | web/packamal/package_analysis/src/yara/report/report.py:558 | the dictionary's keys are the rule names, each once |
| RiskOverrides.FirstNamesInOrder | web/packamal/package_analysis/src/yara/report/report.py:558 | they are in the order of first occurrence |
| RiskOverrides.HolderIsLast | web/packamal/package_analysis/src/yara/report/report.py:558 | a name is held by the last behaviour that has it |
| RiskOverrides.SurvivorsInOrder | web/packamal/package_analysis/src/yara/report/report.py:556-570 | the survivors are in the order in which their names first occur |
| RiskOverrides.RiskStep | web/packamal/package_analysis/src/yara/report/report.py:560-567 | an override rule gives its risk of that moment to the behaviours it names that the dictionary still holds, and changes no other |
| RiskOverrides.LastOverrideCounts | web/packamal/package_analysis/src/yara/report/report.py:560-567 | with distinct names and overrides of ordinary rules only, a rule ends with the risk of the last override naming it, else its own |
| RiskOverrides.HighestBehaviorRisk | web/packamal/package_analysis/src/yara/report/report.py:545-554 | the maximum score, or zero |
| RiskOverrides.LevelsFollowScores | web/packamal/package_analysis/src/yara/report/report.py:556-570 | if every level matched its score before, it does after any number of overrides |
| RiskOverrides.LevelsExactly | web/packamal/package_analysis/src/yara/report/report.py:111-118 | the five scores and their levels |
| PurlParser.ParseQualifiers | web/packamal/package_analysis/utils.py:98-106 | the loop computes the decoded dictionary of the pairs |
| PurlParser.Parse | web/packamal/package_analysis/utils.py:24-95 | the program's cuts and its loop over the qualifiers compute the specified result |
| PurlParser.ParsesExactly | web/packamal/package_analysis/utils.py:24-60 | parsing succeeds iff the prefix is pkg:, a slash follows and the type is supported, and then agrees with get_ecosystem_from_purl |
| PurlParser.SupportedTypes | web/packamal/package_analysis/utils.py:15-21 | the five supported types and their ecosystems |
| PurlParser.RejectsFor | web/packamal/package_analysis/utils.py:34-50 | which error each rejected string gets |
| PurlParser.EcosystemExactly | web/packamal/package_analysis/utils.py:142-154 | the ecosystem is that of the text up to the first slash |
| PurlParser.PartsComeBack | web/packamal/package_analysis/utils.py:52-95 | for any undecoded text: each part ends at its first separator and comes back decoded on its own, for maven joined as group and name |
| PurlParser.LastPairCounts | web/packamal/package_analysis/utils.py:98-106 | a key's value is that of the last pair with the key, and pairs without an equals sign are passed over |
| PurlParser.SplitMeans | web/packamal/package_analysis/utils.py:98-106 | the pieces of a query hold no ampersand and, joined by ampersands, are the query |
| PurlParser.AnyRestParses | web/packamal/package_analysis/utils.py:24-95 | any text after a supported type parses, the empty one included |
| PurlParser.UnquoteUndoes | web/packamal/package_analysis/utils.py:62-95 | decoding undoes every percent-encoding of an ASCII string that leaves no separator |
| PurlParser.UnquoteKeepsPlain | web/packamal/package_analysis/utils.py:62-95 | text without a percent sign stays as it is |
| PurlParser.ParseUndoesPrint | web/packamal/package_analysis/utils.py:34-106 | parsing undoes printing for every such encoding of the components; maven names come back joined to their namespace |
| PurlParser.ParseUndoesCanonicalPrint | web/packamal/package_analysis/utils.py:34-106 | for every supported type but maven, printing canonically and parsing gives all components back |
| PurlParser.SplitJoin | web/packamal/package_analysis/utils.py:98-106 | splitting joined pairs gives the pairs |
| PurlParser.DictionaryHoldsPairs | web/packamal/package_analysis/utils.py:98-106 | with distinct keys the dictionary holds exactly the pairs |
| PurlParser.ExtractUndoesPrint | web/packamal/package_analysis/utils.py:109-129 | what is extracted from a printed package URL is its version, its ecosystem and its name, with the scope for npm and the group for maven |
| PurlParser.ExtractsExactly | web/packamal/package_analysis/utils.py:109-129 | extraction succeeds iff parsing does |
| RateLimiter.RateLimiter.CheckRateLimit | web/packamal/package_analysis/auth.py:63-82 | refines the reference: the accepted calls of the key grow by this one iff the limit is not exceeded; other keys are untouched |
| RateLimiter.RefusedExactly | web/packamal/package_analysis/auth.py:63-82 | a request is refused iff the limit is not positive or the last `limit` accepted ones and this one follow one another within less than 3600 s each |
| RateLimiter.BurstsBounded | web/packamal/package_analysis/auth.py:75-80 | no accepted burst is longer than the limit |
| RateLimiter.CloseRequestsAreOneBurst | web/packamal/package_analysis/auth.py:80 | requests less than an hour from first to last are one burst |
| RateLimiter.AtMostLimitInAnyHour | web/packamal/package_analysis/auth.py:63-82 | at most the limit is accepted in any span shorter than 3600 s, over any run |
| RateLimiter.QuietHourAdmits | web/packamal/package_analysis/auth.py:63-82 | a request 3600 s or more after the last accepted one is accepted iff the limit is positive, however many were refused between |
| LineLengths.GetLineLengths | dynamic-analysis/internal/staticanalysis/linelengths/line_lengths.go:25-76 | the read loop computes the lengths of the lines; the empty input gives one zero |
| LineLengths.LengthsAddUp | dynamic-analysis/internal/staticanalysis/linelengths/line_lengths.go:39-75 | line lengths and stripped terminator bytes add up to the input size |
| LineLengths.LengthsByLine | dynamic-analysis/internal/staticanalysis/linelengths/line_lengths.go:39-75 | a line ended by LF or CRLF contributes its own length, then the rest |
| ValueCounts.Count | dynamic-analysis/pkg/valuecounts/value_counts.go:45-51 | counts every value's occurrences |
| ValueCounts.ToPairs | dynamic-analysis/pkg/valuecounts/value_counts.go:72-85 | strictly increasing values with their counts, none missing |
| ValueCounts.FromPairs | dynamic-analysis/pkg/valuecounts/value_counts.go:90-101 | fails iff a value repeats; else maps each value to its count |
| ValueCounts.RoundTrip | dynamic-analysis/pkg/valuecounts/value_counts.go:72-101 | FromPairs undoes ToPairs |
| ValueCounts.WeightedSum | dynamic-analysis/pkg/valuecounts/value_counts.go:45-51 | counting keeps the total: the sum of value times count is the sum of the data |
| ValueCounts.CountedLineLengths | dynamic-analysis/pkg/valuecounts/value_counts.go:45-85 | counted line lengths still add up, with the terminators, to the input size |

## Left out

- Queue: heartbeats beyond their effect on the row, error fields, container fields and API keys are
  omitted; the clock is read once per transaction. Positions given by the views (the number of
  queued tasks plus one, `web/packamal/package_analysis/views.py:880-884`) need not be distinct:
  a Celery submission takes any position, and the QueueManager results assume that tasks enter
  through `add_task_to_queue` at strictly increasing times.
- Queue: database isolation levels, threads and the two schedulers running at once. Under Celery the
  single analysis worker is what makes each transaction one step.
- Queue: report ids only grow and reports are not deleted; a completion that clashes with the
  one-to-one constraint raises. The QueueManager's own report is given, with no claim about it.
- Queue: no liveness is claimed for Celery, and a failed task is not final there: a late completion
  overwrites it.
- Queue: containers, sandboxes and HTTP appear only as outcomes of a step.
- strace: matching a line against the patterns, JSON decoding, SHA-256, path joining and formatting
  a command are function parameters; debug logging is omitted.
  A `write` line whose arguments do not match the path pattern would fail on a missing match; here
  the path is always given.
- strace: the pointers held in the file map are values of the map, since no one else holds them;
  distinct commands may share a key, so nothing is claimed about `Commands()`.
- strace: `Syscalls`, sockets' host names and DNS data of the phase result are omitted.
- Write buffers: uploads are one yes-or-no outcome; a failing upload leaves the directory as it was.
- Log writer: `Write` has two helper methods where the original has one loop body; contexts and log
  levels are omitted. The loops of `Parse`, `setData` and `do_execute` have helper methods as
  well, and so have the selection, the dispatch and the opening transaction of the two schedulers.
- Quartiles: samples are reals, so neither rounding nor overflow occurs; mean, variance and skewness
  are omitted.
- Lease extender: it is a step system over the goroutine, the ticker and the caller rather than a
  class, because the point is their interleaving. The callback is omitted, as is a deadline equal to
  the grace period in the safety results (a ticker with period zero panics). The service may grant a
  new lease at any time between the request and its return; a call that fails is taken as granting none. A stopped ticker
  delivers no further tick, as from Go 1.23 on.
- Type exploration: a module has finitely many types, and a method returns the same types on every
  call; timeouts and the calls themselves are omitted.
- Risk overrides: `upgrade_risk` and the rest of `generate` are omitted.
- Substring filter: zero or one string is returned unchanged, blank or not.
- Package URLs: decoding of bytes outside ASCII is a parameter; `validate_purl_format` is omitted.
- Rate limiter: the limit of a key does not change during a run, and calls are serialised.
- Line lengths: reading the file is omitted, the text is given.
- Views, forms, static analysis other than the above, packet capture and the result buckets.
