# HomeWorkOS core, modelled in Dafny

The repository holds two operating-systems homework programs.

- **The dispatcher/worker program** covers hw1 (an earlier draft of the API) and hw2 (the worker side). A dispatcher reads a command file line by line. It sleeps or waits on `dispatcher ...` directives. It hands `worker ...` lines to a queue shared with worker threads.
  - A worker takes jobs from the head of the queue. It splits a job line on `;` into sub-commands, honours the first `repeat N` piece, and executes `msleep`, `increment` and `decrement` on a set of counters.
  - The worker records each job's turnaround time in running statistics. At the end of input the statistics are written out.
- **A small shell** (tests) cuts a command line into words in place. It builds an argv-style `Command` and recognises a trailing `&`. It checks `cd`'s arguments and keeps a fixed table of background jobs.

The model is sequential. It has one module per part:

- **CText**: the C library behaviour the code relies on. This covers `isspace`, the pointer-advancing whitespace skip, `strncmp` keyword tests and `atoi`. It also gives splitting into maximal runs of non-delimiters, which is what `strtok` and the shell's splitter produce.
- **WorkerCommand**: `execute_single_command` over an in-memory counter array.
- **JobSchedule**: the parse, find-repeat and execute part of `worker_thread_main`.
- **TurnaroundStats**: the `Stats` record and its fold.
- **JobQueue**: the linked FIFO with `head`/`tail`.
- **System**: the shared state of `init_system`, `enqueue_job`, the worker's dequeue and job completion, and `write_stats_file`, plus the time helpers.
- **Dispatcher**: the line classifier and loop of hw1/src/main.c, and the end-of-input sequence.
- **Shell**: `split2words`, `parse_command`, the `cd` check and the job-slot table.

The C code's pointers into a line buffer become indices, and `NULL` is `Shell.Null`.

Some inputs come from outside and are passed to the model as parameters:

- the clock (`now`, end times);
- whether a lock, `malloc`, `strdup` or `fopen` succeeds;
- what `fork` and `waitpid` return.

Behaviours of the code a reader may not expect:

- Only *leading* whitespace is trimmed from each `;` piece (hw2_207447996_211383666/src/func.c:243). Trailing whitespace stays in the piece.
- `repeat N` is a piece of its own (hw2_207447996_211383666/src/func.c:258-265). The text after the number in that piece is dropped, so `worker repeat 3 increment 0 ; msleep 5` runs `msleep 5` three times and never increments. `JobSchedule.RepeatDropsItsText` proves this for every N.
- The leading `worker` is stripped as six characters with no check of what follows (hw2_207447996_211383666/src/func.c:234).
- The dispatcher tests for `dispatcher` as a ten-character prefix with no word boundary (hw1/src/main.c:73).
- `init_system` validates its arguments and zeroes the state as hw1 does (hw1/src/func.c:58-93). It creates the counters, each set to 0, as hw2 does (hw2_207447996_211383666/src/func.c:368-378); hw1 leaves this as a TODO.
- An enqueue whose in-flight lock fails after linking leaves the job queued but not counted (hw1/src/func.c:189-193). `Dispatcher.QueuedCount` shows that this is the only way in-flight and the queue length can come apart.

## Model

| member | source | states |
|---|---|---|
| CText.TrimLeft | hw2_207447996_211383666/src/func.c:77 | what a `while (isspace) p++` skip leaves: every skipped character is whitespace and the rest does not start with whitespace |
| CText.IsSpace | hw2_207447996_211383666/src/func.c:77 | `isspace` in the C locale: space, tab, newline, vertical tab, form feed and carriage return |
| CText.IsKeyword | hw2_207447996_211383666/src/func.c:82-83 | `strncmp(c, kw, n) == 0` with `c[n]` the end of the string or whitespace |
| CText.Atoi | hw2_207447996_211383666/src/func.c:87 | `atoi`: leading whitespace, an optional sign, then the longest run of digits |
| CText.SkipSpaces | hw2_207447996_211383666/src/func.c:77 | the index loop stops at the first non-space at or after `i`, and the text from there is `TrimLeft` of the text from `i` |
| CText.AtoiSkipsSpaces | hw2_207447996_211383666/src/func.c:85-87 | skipping whitespace before `atoi` does not change the value read |
| CText.AtoiOfDecimal | hw2_207447996_211383666/src/func.c:99 | `atoi` reads back the decimal spelling of `n`, whatever non-digit text follows |
| CText.AtoiOfNegativeDecimal | hw2_207447996_211383666/src/func.c:133 | the same round trip for `-n` |
| CText.Runs | hw2_207447996_211383666/src/func.c:241-245 | every token `strtok` yields is non-empty and holds no delimiter |
| CText.RunsOfJoin | hw2_207447996_211383666/src/func.c:241-245 | splitting non-empty, delimiter-free words joined by a delimiter gives the same words back |
| WorkerCommand.Adjust | hw2_207447996_211383666/src/func.c:94-157 | `increment c` adds 1 to counter c only and `decrement c` subtracts 1 from it only; an out-of-range id, `msleep` or an unknown command leaves every counter as it was |
| WorkerCommand.Parse | hw2_207447996_211383666/src/func.c:74-163 | what `execute_single_command` decides for a command: the keyword chain on the command after its leading whitespace |
| WorkerCommand.Recognise | hw2_207447996_211383666/src/func.c:82-162 | `msleep`, `increment`, `decrement` each followed by the end or whitespace, tried in that order; anything else is unknown |
| WorkerCommand.ReadArgument | hw2_207447996_211383666/src/func.c:97-99 | the skip after a keyword followed by `atoi` yields `atoi` of the text after the keyword |
| WorkerCommand.MoveCounter | hw2_207447996_211383666/src/func.c:101-121 | the bounds check and the read-modify-write: the array becomes `Moved(old, cid, delta)`, which is the old array when `cid` is out of range |
| WorkerCommand.ExecuteSingleCommand | hw2_207447996_211383666/src/func.c:74-163 | the result is what the command is recognised as (`Parse`), and the counters become `Adjust` of the old counters by it |
| WorkerCommand.AtoiOfSigned | hw2_207447996_211383666/src/func.c:87 | `atoi` reads back the signed decimal spelling of any integer |
| WorkerCommand.RecogniseRendered | hw2_207447996_211383666/src/func.c:82-133 | the keyword chain on `kw N...` picks keyword `kw` with argument N |
| WorkerCommand.ParseOfRender | hw2_207447996_211383666/src/func.c:77-157 | round trip: a written-out command, with indentation, extra whitespace after the keyword and non-digit text after the number, is recognised as that command |
| WorkerCommand.GluedKeywordIsUnknown | hw2_207447996_211383666/src/func.c:82-162 | a keyword followed by a non-space character (`incrementX`, `msleep5`) is an unknown command |
| WorkerCommand.RepeatIsUnknown | hw2_207447996_211383666/src/func.c:159-162 | a `repeat` piece that reaches `execute_single_command` is reported as unknown |
| JobSchedule.Trimmed | hw2_207447996_211383666/src/func.c:243 | each piece with its leading whitespace removed, in order |
| JobSchedule.Body | hw2_207447996_211383666/src/func.c:232-235 | what follows the leading whitespace, a leading `worker` and the whitespace after it: no longer than the line and not starting with whitespace |
| JobSchedule.Pieces | hw2_207447996_211383666/src/func.c:237-246 | the first 128 `;` tokens of the body, each trimmed on the left |
| JobSchedule.PiecesShape | hw2_207447996_211383666/src/func.c:237-246 | at most 128 pieces; no piece holds a `;` or starts with whitespace |
| JobSchedule.IsRepeat | hw2_207447996_211383666/src/func.c:255-259 | a piece is a repeat when, past its whitespace, it is `repeat` followed by the end or whitespace |
| JobSchedule.RepeatCount | hw2_207447996_211383666/src/func.c:261-263 | the count is `atoi` of the text after `repeat` |
| JobSchedule.Repeated | hw2_207447996_211383666/src/func.c:283-286 | the pieces after the repeat, `repeat_times` rounds over |
| JobSchedule.Schedule | hw2_207447996_211383666/src/func.c:272-287 | the execution order: all pieces, or the pieces before the first repeat and then the rounds of those after it |
| JobSchedule.TokenEnd | hw2_207447996_211383666/src/func.c:241-245 | a token ends at the first `;` or at the end of the text |
| JobSchedule.Tokenize | hw2_207447996_211383666/src/func.c:238-246 | `basic[]` is the first 128 `;`-separated tokens of the text, each trimmed on the left; later tokens are dropped |
| JobSchedule.SplitJob | hw2_207447996_211383666/src/func.c:232-246 | the pieces are `Pieces(line)`: leading whitespace, a leading `worker` and the whitespace after it removed, then tokenized; at most 128 |
| JobSchedule.PiecesOfJob | hw2_207447996_211383666/src/func.c:232-246 | round trip: `worker ` followed by up to 128 `;`-joined pieces splits back into those pieces, trimmed on the left |
| JobSchedule.BodyOfWorker | hw2_207447996_211383666/src/func.c:232-235 | after `worker ` the body is what remains once the keyword is stripped |
| JobSchedule.RepeatIndex | hw2_207447996_211383666/src/func.c:254-267 | -1 exactly when no piece is a repeat; otherwise the index of the first repeat piece |
| JobSchedule.FindRepeat | hw2_207447996_211383666/src/func.c:251-267 | the search returns the first repeat piece and its `atoi` count, or -1 and the default count 1 |
| JobSchedule.RepeatPiece | hw2_207447996_211383666/src/func.c:258-263 | `repeat N` followed by non-digit text is a repeat piece with count N |
| JobSchedule.RepeatDropsItsText | hw2_207447996_211383666/src/func.c:258-287 | with `repeat N ...` first, the schedule is N rounds of the later pieces; the text after N is never executed |
| JobSchedule.RepeatedLength | hw2_207447996_211383666/src/func.c:283-286 | N rounds of k pieces execute N·k pieces, and none when N <= 0 |
| JobSchedule.RepeatedAt | hw2_207447996_211383666/src/func.c:283-286 | round r executes the pieces after the repeat, in order |
| JobSchedule.ScheduleWithoutRepeat | hw2_207447996_211383666/src/func.c:272-275 | with no repeat piece every piece runs exactly once, in order |
| JobSchedule.ScheduleAtRepeat | hw2_207447996_211383666/src/func.c:277-287 | the first repeat piece k decides the schedule: the pieces before k once, then the count's rounds of the pieces after k |
| JobSchedule.ScheduleWithRepeat | hw2_207447996_211383666/src/func.c:277-287 | the pieces before the repeat run first and once; the schedule has k + N·(pieces after k) entries for N > 0 and k for N <= 0; the repeat piece itself is not executed |
| JobSchedule.RunRange | hw2_207447996_211383666/src/func.c:274-275 | a `for` loop over consecutive pieces executes each in order and applies their counter effects in order |
| JobSchedule.RunRounds | hw2_207447996_211383666/src/func.c:283-286 | the nested repeat loop executes the pieces after the repeat, `times` rounds, and none when `times <= 0` |
| JobSchedule.RunPieces | hw2_207447996_211383666/src/func.c:272-287 | the pieces are executed exactly in `Schedule` order, and the counters move by exactly those commands |
| JobSchedule.RunJob | hw2_207447996_211383666/src/func.c:231-287 | one job line is parsed and executed: the commands are those of `Schedule(Pieces(line))` |
| TurnaroundStats.MinOf | hw2_207447996_211383666/src/func.c:311-316 | the minimum is one of the samples and at most every sample |
| TurnaroundStats.MaxOf | hw2_207447996_211383666/src/func.c:311-318 | the maximum is one of the samples and at least every sample |
| TurnaroundStats.ReportOf | hw1/src/func.c:254-263 | sum and count as stored; min, max and average are 0 when the count is 0; otherwise min and max as stored, and average times count equals the sum |
| TurnaroundStats.ReportOfSamples | hw1/src/func.c:254-263 | no samples report all zeros; otherwise the bounds are samples, with min <= average <= max |
| TurnaroundStats.Stats.constructor | hw1/src/func.c:81-84 | all four fields zero, no samples |
| TurnaroundStats.Stats.Reset | hw1/src/func.c:81-84 | the zeroing in `init_system` |
| TurnaroundStats.Stats.Record | hw2_207447996_211383666/src/func.c:305-320 | the sum grows by t and the count by 1; the first sample sets both bounds to t and later ones take min/max with t; the fields keep summarising the samples |
| TurnaroundStats.Stats.BoundsAreSamples | hw2_207447996_211383666/src/func.c:305-320 | after k > 0 samples the minimum and maximum are among the samples, min <= max, and they bound every sample |
| TurnaroundStats.Stats.Snapshot | hw1/src/func.c:229-267 | a failed `fopen` or lock returns -1; otherwise 0, with the report of the copied fields |
| JobQueue.Node.constructor | hw1/src/func.c:168-169 | a new cell holds its job and has `next = NULL` |
| JobQueue.Queue.constructor | hw1/header/func.h:26-31 | an empty, well-linked queue |
| JobQueue.Queue.Clear | hw1/src/func.c:69-70 | `head = tail = NULL` empties the queue |
| JobQueue.Queue.EmptyIff | hw2_207447996_211383666/src/func.c:205-208 | `head == NULL` exactly when `tail == NULL`, exactly when the queue is empty |
| JobQueue.Queue.Enqueue | hw2_207447996_211383666/src/func.c:424-433 | the job is appended at the tail, and the links stay well formed |
| JobQueue.Queue.Dequeue | hw2_207447996_211383666/src/func.c:205-208 | the head job is returned and removed (FIFO), and `tail` is cleared when the queue empties |
| System.Elapsed | hw1/src/func.c:31-37 | `since_start_ms`: 0 while the start time is unset, otherwise the time since it |
| System.ElapsedDifference | hw1/src/func.c:31-37 | readings keep the clock's order; once the start is set, the difference of two readings (a turnaround) is the time that passed between them; before, every reading is 0 |
| System.SleepMicros | hw1/src/func.c:39-43 | nothing for `ms <= 0`; otherwise `ms * 1000` microseconds in 32-bit unsigned arithmetic |
| System.SleepMicrosWraps | hw1/src/func.c:41 | the 32-bit product wraps: 4294968 ms asks for 704 microseconds |
| System.AfterBatchesFlatten | hw2_207447996_211383666/src/func.c:186-335 | running jobs one after the other moves the counters as all their commands in order |
| System.JobCommands | hw2_207447996_211383666/src/func.c:225-289 | the commands a job executes: those of its schedule, or none when `strdup` fails |
| System.RunCopy | hw2_207447996_211383666/src/func.c:225-289 | a failed `strdup` skips execution; otherwise the job line is parsed and executed |
| System.NewCounters | hw2_207447996_211383666/src/func.c:368-378 | `num_counters` counters, each 0 |
| System.System.constructor | hw1/src/func.c:3-14 | the globals before `init_system`: zero, empty, not done |
| System.System.InitSystem | hw1/src/func.c:57-128 | -1 with no global assigned exactly when `threads` is outside 1..4096 or `counters` outside 1..100; otherwise every global set, the queue empty, the stats zeroed, every counter 0, nothing in flight, not done |
| System.System.EnqueueJob | hw1/src/func.c:155-201 | 0 exactly when nothing fails; allocation or queue-lock failure changes nothing; otherwise the job (line copy and read time) is appended; a jobs-lock failure leaves it queued without raising in-flight; success raises in-flight by 1 |
| System.System.TakeJob | hw2_207447996_211383666/src/func.c:191-210 | with jobs the head is taken; with none the worker waits exactly while the dispatcher is not done, and exits once it is |
| System.System.FinishJob | hw2_207447996_211383666/src/func.c:225-331 | the job's commands run on the counters; `end - read time` is recorded; in-flight drops by 1 |
| System.System.WorkerStep | hw2_207447996_211383666/src/func.c:186-335 | one loop turn after the dispatcher is done: exit exactly on an empty queue, else take the head job and finish it |
| System.System.DrainQueue | hw2_207447996_211383666/src/func.c:186-335 | the workers after `done`: every queued job runs in FIFO order; the counters move by their batches; one turnaround per job is recorded; in-flight drops by the number of jobs; the queue ends empty |
| System.System.WriteStats | hw1/src/func.c:229-267 | `write_stats_file`: 0 exactly when `fopen` and the lock succeed, with the report of the current statistics |
| Dispatcher.Truncate | hw1/src/main.c:58 | the line up to its first newline: a prefix with no newline, followed by a newline unless it is the whole line |
| Dispatcher.CutAtNewline | hw1/src/main.c:58 | the `strcspn` scan computes `Truncate` |
| Dispatcher.TruncateIgnoresRest | hw1/src/main.c:58 | text after the first newline never matters |
| Dispatcher.Contains | hw1/src/main.c:76 | `strstr(line, pat) != NULL` |
| Dispatcher.ContainsIffOccurs | hw1/src/main.c:76-82 | `Contains` holds exactly when the pattern occurs at some position of the line |
| Dispatcher.SleepArgument | hw1/src/main.c:77 | `atoi(line + 18)`, read after `dispatcher msleep ` |
| Dispatcher.Classify | hw1/src/main.c:60-102 | only an empty line is skipped; exactly the lines starting with `dispatcher` are directives (sleep, wait or invalid); exactly those starting with `worker` are enqueued; the rest are invalid |
| Dispatcher.ActionOf | hw1/src/main.c:58-62 | a line is skipped exactly when it is empty or starts with a newline |
| Dispatcher.MsleepBeforeWait | hw1/src/main.c:76-84 | a directive containing both `msleep` and `wait` sleeps |
| Dispatcher.PauseOfDirective | hw1/src/main.c:73-79 | `dispatcher msleep N` sleeps N ms (`atoi(line + 18)`) |
| Dispatcher.WaitOfDirective | hw1/src/main.c:82-84 | `dispatcher wait` does not contain `msleep` and waits for all jobs |
| Dispatcher.WorkerLineOffloads | hw1/src/main.c:93-98 | a line starting with `worker` is not a directive and is enqueued |
| Dispatcher.IndentedLineInvalid | hw1/src/main.c:100-102 | a line with leading whitespace is reported invalid |
| Dispatcher.LineJobs | hw1/src/main.c:93-97 | a line contributes a queued job exactly when it is a worker line whose enqueue linked it |
| Dispatcher.Queued | hw1/src/main.c:55-103 | the jobs queued by a run of lines, in input order: no more than the lines, and each one a newline-free line that starts with `worker` |
| Dispatcher.Accepted | hw1/src/main.c:93-97 | the number of successful enqueues, at most the number of lines |
| Dispatcher.QueuedCount | hw1/src/func.c:172-198 | every enqueue counted in flight also queued its job, and the two counts agree when no enqueue failed after linking |
| Dispatcher.InFlightMatchesQueue | hw1/src/func.c:172-198 | starting from in-flight equal to the queue length, the lines keep them equal when no enqueue failed after linking |
| Dispatcher.DispatchLine | hw1/src/main.c:55-103 | one loop turn: the action is the classification of the truncated line; a worker line is enqueued with its read time, failures only reported; nothing else changes |
| Dispatcher.DispatchNext | hw1/src/main.c:55-103 | one turn of the loop extends the actions, the queued jobs and the successful enqueues by line `i`; nothing else changes |
| Dispatcher.DispatchAll | hw1/src/main.c:55-103 | the whole loop: one action per line; the queue gains the worker lines in input order; in-flight rises by the successful enqueues, and stays equal to the queue length when it started so and no enqueue failed after linking; the configuration is unchanged |
| Dispatcher.EndOfInput | hw1/src/main.c:110-123 | done is set, then every queued job runs, leaving the queue empty and, when in-flight counted every queued job, in-flight at 0; then `write_stats_file` reports the final statistics |
| Shell.Words | tests/src/func.c:16 | at most `WORDSIZE` words |
| Shell.SkipBlanks | tests/src/func.c:15 | the skip stops at the first non-blank and skips no word |
| Shell.ScanWord | tests/src/func.c:18 | the scan stops at the first space, tab or NUL; it is a NUL exactly at the end of the line |
| Shell.WordsAreRuns | tests/src/func.c:15-25 | every word is non-empty and holds no space, tab or NUL |
| Shell.SplitOne | tests/src/func.c:17-24 | one loop turn records the word start; either the line ends after the word or the word is NUL-ended and the blanks after it skipped |
| Shell.CutWord | tests/src/func.c:21-23 | `*p = '\0'; p++` and the blank skip: the word is ended in place, the buffer changed only there |
| Shell.SplitLoop | tests/src/func.c:16-25 | the loop stops at the end of the line or after `WORDSIZE` words, with every found word located, NUL-ended and recorded in `words[]` |
| Shell.Split2Words | tests/src/func.c:11-29 | the count is at most `WORDSIZE`; `words[0..count)` point at the line's words, in order, each NUL-terminated in place; only blanks changed, into NULs |
| Shell.BlankLineHasNoWords | tests/src/func.c:15-16 | an empty or blank line gives no words |
| Shell.Arguments | tests/src/func.c:66-77 | the words with a trailing `&` removed, or all of them |
| Shell.Command.constructor | tests/src/func.c:40 | a zeroed command: count 0, not background, all `args` NULL |
| Shell.AmpersandTest | tests/src/func.c:68 | `strcmp(last_token, "&") == 0` exactly when the last word is `&` |
| Shell.CopyArgs | tests/src/func.c:61-63 | the first count pointers are copied and the rest stay NULL |
| Shell.StripBackground | tests/src/func.c:66-85 | background exactly when the last word is `&`, which is removed; `args[count]` and everything after it is NULL |
| Shell.ParseCommand | tests/src/func.c:32-88 | always 0 (the too-many error cannot fire); background exactly when the last word is `&`; `args[0..count)` are the other words (none for a blank line); the rest of `args` is NULL |
| Shell.CdNeedsTwoWords | tests/src/func.c:98-106 | `args[1] != NULL && args[2] == NULL` exactly when the command has two words |
| Shell.InUseCount | tests/src/func.c:157-162 | the number of slots in use, never more than the slots |
| Shell.FullIffAllInUse | tests/src/func.c:157-168 | the running count reaches the table size exactly when every slot is in use |
| Shell.TakeSlotCount | tests/src/func.c:207-208 | filling a free slot adds exactly one slot in use |
| Shell.FirstFree | tests/src/func.c:194-200 | -1 exactly when every slot is in use; otherwise the lowest free slot |
| Shell.CountRunning | tests/src/func.c:157-162 | the loop counts the slots in use |
| Shell.FindFreeSlot | tests/src/func.c:194-200 | the loop finds `FirstFree` |
| Shell.LaunchOf | tests/src/func.c:150-224 | a background start names a free slot of the table |
| Shell.StartedSlot | tests/src/func.c:207-211 | the new slot holds the pid and is in use; its command is the first `min(length, TEXTSIZE - 1)` characters of the command line, as `strncpy` and the terminator leave it |
| Shell.StartTakesLowestFree | tests/src/func.c:193-211 | a background start takes the lowest free slot and uses exactly one more slot |
| Shell.RefusedIffFull | tests/src/func.c:156-168 | a background command is refused exactly when every slot is taken |
| Shell.ExecuteExternal | tests/src/func.c:150-224 | the outcome is `LaunchOf`; the table only changes on a background start, in the chosen slot |
| Shell.ReapFreesExactly | tests/src/func.c:230-250 | a slot changes exactly when it was in use and `waitpid` returned non-zero, and is then freed; free slots and running children are untouched; the slots in use never grow |
| Shell.ReapSlot | tests/src/func.c:231-249 | a slot in use whose `waitpid` result is non-zero becomes free; any other slot stays as it is |
| Shell.Reaped | tests/src/func.c:230-251 | the table with every slot reaped on its own `waitpid` result |
| Shell.FinishedPids | tests/src/func.c:233-234 | the pids reported finished, in slot order |
| Shell.FinishedPidsInUse | tests/src/func.c:231-234 | a pid is reported exactly when a slot in use holds it and its `waitpid` returned a positive value; no more pids than slots in use |
| Shell.ReapBackgroundJobs | tests/src/func.c:226-251 | the table becomes `Reaped` of the old table, and the pids reported are those with `waitpid > 0`, in slot order |
| Shell.Listing | tests/src/func.c:143-147 | the pid and command of each slot in use, in slot order |
| Shell.ListingOfInUse | tests/src/func.c:141-148 | one line per slot in use, and a line for a pid/command exactly when some slot in use holds it |
| Shell.HandleJobs | tests/src/func.c:141-148 | the loop prints `Listing` of the table |

## Left out

- Threads and synchronisation:
  - The mutexes, condition variables, `pthread_create`/`join` and `shutdown_system` are not modelled. Everything runs in one thread.
  - So are the signal versus broadcast choice (hw2_207447996_211383666/src/func.c:330, hw1/src/main.c:113) and the blocking in `dispatcher_wait_for_all_jobs`. A `Pause` or `WaitAll` action changes no state.
  - A lock that can fail is a boolean or `Fault` input.
- System.System.DrainQueue: the workers' interleaving with the dispatcher is not modelled. Queued jobs are run one after the other once the dispatcher is done.
- Dispatcher.EndOfInput: it runs every queued job before `write_stats_file`. The source only waits until in-flight is 0 (hw1/src/func.c:213). The two agree when in-flight equals the queue length, which `EndOfInput` and `QueuedCount` establish when no enqueue failed at the in-flight lock. After such a failure the source can write the statistics while the uncounted job is still queued. The model does not capture that.
- System.System.FinishJob: it does the in-flight and statistics bookkeeping before executing the commands. The three effects touch disjoint state, so the final state is the one the source's order gives.
- File I/O:
  - The `countNN.txt` files are an in-memory array.
  - A failed `fopen` of a counter file, and the `fscanf` of a file with no number, are not modelled.
  - The thread and dispatcher logs, the text format of `stats.txt` and the total running time it prints are not modelled.
  - Reading the command file with `fgets` and its `MAX_LINE` split of long lines is replaced by a sequence of lines.
- Clocks and sleeping: `clock_gettime` and `usleep` are not modelled. Times are integer inputs.
- TurnaroundStats.ReportOf: the average is a real number, not a `double`. Rounding is not modelled.
- Characters and bytes: one Dafny `char` stands for one C byte. The byte counts of `strncpy(..., TEXTSIZE - 1)` (tests/src/func.c:210) and `line + 18` (hw1/src/main.c:77) become character counts. Multibyte text is outside the model.
- CText.Atoi: integers are unbounded. The `int` and `long long` overflow of `atoi`, the counters and the statistics is not modelled.
- System.System.InitSystem: a failing `pthread_mutex_init`, `pthread_cond_init`, `malloc` or `pthread_create` is not modelled. Thread creation is outside the model.
- Process control: `fork`, `execvp`, `waitpid` and `chdir` are not modelled. Their results are inputs, and what the child runs is outside the model.
- `handle_exit` (tests/src/func.c:126-139) only waits for the children and prints. It leaves the table unchanged, so it is not modelled.
- Dispatcher.SleepArgument: for a `dispatcher ...msleep...` line shorter than 18 characters, `atoi(line + 18)` reads past the end of the string, into whatever the line buffer held before. The model reads 0 there.
- Shell.ParseCommand: requires `FitsArgv`, meaning fewer than `WORDSIZE` words or a trailing `&`. For exactly 50 words without `&`, the source writes `args[WORDSIZE]`, one past the array.
- Shell.ExecuteExternal: `MAX_BG` is not defined in the headers. The table size is the length of the `jobs` array.
- HW3/Src/server.c and client.c hold no logic, and are not part of this model.
- tests/src/main.c, the shell's read loop, is not part of this model.
