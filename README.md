# AnomSched scheduler core, modelled in Dafny

AnomSched is a fixed-size pool of worker threads. It runs submitted jobs in
priority order and writes one CSV line per finished job to a log file. This
project models the pool's core and proves properties of the model:

- the `Job` record and its two orderings (`Job::operator<` and
  `JobComparator`);
- the `std::priority_queue<Job>` the scheduler keeps its pending jobs in;
- the `Scheduler` class: construction, `start`, `stop`, `submitJob` and the
  worker loop;
- the `Logger` class: the header line, the integer columns and the CSV line
  it writes for each job.

Modules, one per concern:

- `Wrappers` — `Option`.
- `Jobs` (`jobs.dfy`) — the C++ `int` as `int32`, `Job`, `Less`
  (`Job::operator<`) and `Comparator` (`JobComparator`).
- `PriorityQueue` (`priority_queue.dfy`) — the queue as a multiset of jobs.
  `top()` may return any job that no queued job outranks.
- `Text` (`text.dfy`) — integers written as `std::ostream` writes them, the
  inverse parser, and comma-joined fields with the inverse split.
- `CompletionLog` (`completion_log.dfy`) — millisecond truncation, the seven
  values of a log line, the line's text and its parser, and the `Logger`
  class. The log file is the `seq<string>` of lines written so far.
- `Scheduling` (`scheduler.dfy`) — the `Scheduler` class, a sequential state
  machine.

How the threaded scheduler becomes a sequential model:

- Every public call is one atomic step, and so is every step a worker thread
  takes between lock boundaries.
- `stop()` becomes two steps. `RequestStop` clears `running`. `JoinWorkers`
  joins the threads; it requires every thread to have returned, which is
  where the real `stop()` blocks.
- The worker loop becomes three steps, split where it takes or releases the
  queue lock:
  - `WorkerLoopTest` is the `while (running)` test.
  - `WorkerStep` is the locked part. Its precondition is the wait predicate.
    The thread then returns, or pops the top job.
  - `WorkerReport` is the unlocked part. The thread runs the job it holds,
    logs it and goes back to the loop test.
- A thread's phase (`AtLoopHead`, `Waiting`, `Running(job)`, `Exited`) records
  where it is. A job that has been popped but not yet logged is held in its
  thread's `Running` phase.
- Two ghost sequences record every submitted job and every logged job. They
  carry the invariant that each submitted job is, exactly once, queued, held
  by a running thread, or logged.
- With at most 2^32 submissions, this gives `NoJobRunsTwice`: no two
  threads run the same job, no queued job is also being run, no job id is
  logged twice, and no queued or running job has already been logged.
- `NothingDropped` gives the other half of "exactly once". Once the queue is
  empty and no thread is running a job, every submitted job has been logged,
  and the log holds one line per submission.

Facts about the code that its name or its tooling might lead a reader to
expect otherwise:

- There is no anomaly detector in the scheduler. The log visualiser reads an
  `IsAnomaly` column when one is present (ai/visualize_logs.py:17), but the
  header at src/logger.hpp:16 has no such column, and no log line carries an
  anomaly flag. Nothing of it is modelled.
- `stop()` does not discard queued jobs. A thread that was waiting when
  `running` was cleared still pops a job if the queue is not empty
  (src/scheduler.cpp:62-66). It returns only when `running` is false and the
  queue is empty. `WorkerStep` states exactly that condition, so after a stop
  every waiting thread can run one more queued job.
- `submitJob` does not check `running` (src/scheduler.cpp:36-49), and
  `SubmitJob` queues the job in every state, before `start()` and after
  `stop()` alike.
- The logged exec time is not the end column minus the start column. Each
  duration is taken from the raw clock difference, truncated to
  milliseconds (src/logger.hpp:31-35), not from the difference of the
  truncated columns. The two can differ by one (`ExecTakenFromRawDifference`).
- The job counter is a `std::atomic<int>`, whose increment wraps around. Ids
  therefore increase only up to 2^31 - 1 and repeat after 2^32 submissions
  (`IdsRepeatAfterWrap`).

Clock readings are passed in as integer nanosecond counts since the epoch
(`submitTick`, `startTick`, `endTick`). Tasks are closures the model cannot
see, so they run as no-ops.

## Model

| member | source | states |
|---|---|---|
| Jobs.DefaultJob | src/scheduler.hpp:23 | the default job has id 0, priority 0 and the current clock reading as its submission time |
| Jobs.Less | src/scheduler.hpp:30-33 | `operator<` orders two jobs only when their priorities differ; `LessIsStrictWeakOrder` and `LessDependsOnlyOnPriority` give the full order |
| Jobs.LessIsStrictWeakOrder | src/scheduler.hpp:30-33 | `operator<` is irreflexive, asymmetric and transitive, and incomparability is transitive: the strict weak order `std::priority_queue` requires |
| Jobs.LessDependsOnlyOnPriority | src/scheduler.hpp:30-33 | the order looks at priorities only; jobs of equal priority are incomparable, so neither id nor submission time breaks a tie |
| Jobs.Comparator | src/job.hpp:17-20 | `JobComparator` orders two jobs only when their priorities differ; `ComparatorIsStrictWeakOrder` gives the full order |
| Jobs.ComparatorAgreesWithLess | src/job.hpp:17-20 | `JobComparator` is the same relation as `Job::operator<` |
| Jobs.ComparatorIsStrictWeakOrder | src/job.hpp:17-20 | `JobComparator` is irreflexive, asymmetric and transitive, incomparability is transitive, and two jobs are incomparable exactly when their priorities are equal |
| PriorityQueue.IsTop | src/scheduler.cpp:65 | a job `top()` may return is queued and has a priority at least that of every queued job; `TopExists` shows one always exists |
| PriorityQueue.TopExists | src/scheduler.cpp:59-65 | once the wait has seen a non-empty queue, `top()` has a job to return: one that no queued job outranks |
| PriorityQueue.PopThen | src/scheduler.cpp:65-66 | taking a top job and then popping the rest is a pop sequence of the whole queue, and takes out the top job plus what the rest took |
| PriorityQueue.PopSequenceNonIncreasing | src/scheduler.hpp:51 | repeated top/pop with no pushes in between takes out queued jobs only, none more often than queued, in non-increasing priority |
| PriorityQueue.DrainExists | src/scheduler.hpp:51 | every queue can be emptied by popping: some pop sequence takes out exactly the queued jobs |
| Text.NatToDecimal | src/logger.hpp:37-39 | a non-negative column is written as at least one decimal digit, with no leading zero |
| Text.IntToDecimal | src/logger.hpp:37-39 | `ostream << int` writes at least one character and starts with a minus sign exactly for negative numbers; `IntToDecimalRoundTrip` shows the text reads back as the number |
| Text.NatToDecimalRoundTrip | src/logger.hpp:37-39 | the digits written for a natural number denote that number |
| Text.IntToDecimalRoundTrip | src/logger.hpp:37-39 | every integer column, negative ones included, reads back as the same integer, and its text has no comma and no line break |
| Text.SplitJoin | src/logger.hpp:37-39 | splitting comma-joined fields at the commas gives back the fields, when no field holds a comma |
| Text.JoinAvoids | src/logger.hpp:37-39 | joining fields that lack a character, with a different separator, gives a text that lacks it |
| Text.LineOfFields | src/logger.hpp:37-39 | a joined line of comma- and break-free fields ends in its only line break and splits back into those fields |
| CompletionLog.ToMillis | src/logger.hpp:31-35 | `duration_cast<milliseconds>` truncates toward zero: for readings at or after 0 the result is the floor in milliseconds, before 0 the ceiling |
| CompletionLog.Completion | src/logger.hpp:31-35 | the logged record keeps the job and thread ids, and each duration is the whole number of milliseconds in the raw clock difference when that difference is not negative |
| CompletionLog.DurationsNonNegative | src/logger.hpp:34-35 | with submit <= start <= end, the logged execution and queue-wait times are not negative |
| CompletionLog.NegativeDurationWhenClockStepsBack | src/logger.hpp:31-35 | when the clock steps back between a job's start and end, the logged exec duration is negative: start 2 ms, end 0 ms logs -2 |
| CompletionLog.DurationsNextToColumnDifferences | src/logger.hpp:31-35 | for readings after the epoch, each logged duration is the difference of the two columns it spans, or one less |
| CompletionLog.ExecTakenFromRawDifference | src/logger.hpp:32-34 | a concrete job with start column 0 and end column 1 logs an execution time of 0 |
| CompletionLog.HeaderJoinsColumns | src/logger.hpp:16 | the header line is the seven column names joined by commas, followed by a line break |
| CompletionLog.HeaderNamesColumns | src/logger.hpp:16 | the header is one line and splits at its commas into the seven column names, in order |
| CompletionLog.FormatLine | src/logger.hpp:37-39 | a log line ends in a line break; `FormatLineFields` and `ParseFormatLine` show it holds the seven values and reads back as its record |
| CompletionLog.FormatLineFields | src/logger.hpp:37-39 | a log line is one line and splits at its commas into the texts of the seven values, in column order |
| CompletionLog.ParseFormatLine | src/logger.hpp:37-39 | parsing a written log line gives back exactly the record it was written from |
| CompletionLog.Logger.constructor | src/logger.hpp:13-17 | a new log holds the header line and nothing else |
| CompletionLog.Logger.Log | src/logger.hpp:23-41 | logging appends exactly one line, the formatted record of the job's id, thread id and truncated times, and keeps every earlier line |
| CompletionLog.LogReadsBack | src/logger.hpp:13-41 | a log starts with the header, and each later line parses back to the record logged at that position |
| Scheduling.Increment32 | src/scheduler.cpp:39 | `++job_counter` gives the next value modulo 2^32, within the range of an `int` |
| Scheduling.IdOfClosedForm | src/scheduler.cpp:39 | the k-th submission's id is k up to 2^31 - 1, and k - 2^32 after that, up to k = 2^32 |
| Scheduling.IdsIncrease | src/scheduler.cpp:39 | the first id is 1, and ids strictly increase until the counter reaches the largest `int` |
| Scheduling.IdsDistinct | src/scheduler.cpp:39 | no two of the first 2^32 submissions get the same id |
| Scheduling.IdsRepeatAfterWrap | src/scheduler.cpp:39 | the counter wraps to -2^31 after 2^31 - 1 submissions, and submission 2^32 + 1 repeats the first id |
| Scheduling.HoldingUpdate | src/scheduler.cpp:65-75 | replacing one thread changes how many threads hold a job by exactly what the old and new thread hold |
| Scheduling.NoneRunningNoneHeld | src/scheduler.cpp:28-33 | when no thread is running a job, no job is held by any thread |
| Scheduling.TwoRunningHoldTwice | src/scheduler.cpp:65-66 | two threads that popped the same job count it twice among the jobs being run |
| Scheduling.SetPhaseKeepsWorkersWellFormed | src/scheduler.cpp:53-63 | a thread sits at its own id's index, and moving it to another phase keeps the vector well formed as long as it returns only once `running` is false |
| Scheduling.IssueKeepsOrder | src/scheduler.cpp:39 | stamping a job with the incremented counter keeps the k-th submitted job's id equal to the k-th id |
| Scheduling.QueueIssued | src/scheduler.cpp:44-47 | pushing the newly submitted job keeps every submitted job accounted for exactly once |
| Scheduling.IdlePhaseChange | src/scheduler.cpp:53-63 | a thread that holds no job and moves to a phase without one keeps the accounting |
| Scheduling.PopToThread | src/scheduler.cpp:65-66 | a waiting thread that pops a queued job moves it from the queue to itself |
| Scheduling.ReportFromThread | src/scheduler.cpp:69-75 | a thread that logs the job it holds moves that job to the logged ones |
| Scheduling.LogCompletedKeepsMatch | src/scheduler.cpp:75 | logging a job under a pool thread's id keeps line i of the log about the i-th logged job |
| Scheduling.Scheduler.constructor | src/scheduler.cpp:3-7 | a new scheduler is stopped, with no threads, an empty queue, a zero counter and a log holding only its header |
| Scheduling.Scheduler.Start | src/scheduler.cpp:14-22 | `start()` sets `running` and creates threads 0 .. capacity - 1, in order, each about to test `running` |
| Scheduling.Scheduler.RequestStop | src/scheduler.cpp:24-27 | the first half of `stop()` clears `running` and changes nothing else |
| Scheduling.Scheduler.JoinWorkers | src/scheduler.cpp:28-33 | once every thread has returned, `stop()` empties the thread vector and leaves queue, counter and log alone |
| Scheduling.Scheduler.SubmitJob | src/scheduler.cpp:36-49 | the job gets the incremented counter as id, the given priority and the current time; it is added to the queue whatever `running` is, and no queued job changes |
| Scheduling.Scheduler.WorkerLoopTest | src/scheduler.cpp:53 | a thread at the loop head goes on to wait if `running` is set, and returns otherwise |
| Scheduling.Scheduler.Top | src/scheduler.cpp:65 | `top()` on a non-empty queue returns a queued job that no queued job outranks |
| Scheduling.Scheduler.WorkerStep | src/scheduler.cpp:57-67 | after the wait, a thread returns exactly when `running` is false and the queue is empty; otherwise it removes one top job from the queue and holds it |
| Scheduling.Scheduler.WorkerReport | src/scheduler.cpp:69-75 | a thread appends one log line for the job it holds, with its own thread id and the three clock readings, records the job as logged and returns to the loop test |
| Scheduling.StopAgain | src/scheduler.cpp:24-34 | calling `stop()` again on a stopped scheduler with no threads changes nothing |
| Scheduling.LoggedKeepIdsApart | src/scheduler.cpp:65-75 | when submitted ids are distinct, logged jobs have distinct ids, and a job logged fewer times than submitted shares no id with a logged job |
| Scheduling.NothingDropped | src/scheduler.cpp:36-76 | once the queue is empty and no thread is running a job, the logged jobs are exactly the submitted ones, the log has one line per submission, and every submitted job's id is logged |
| Scheduling.NoJobRunsTwice | src/scheduler.cpp:36-76 | with at most 2^32 submissions, no two threads run the same job, no queued job is also being run, no job id appears on two log lines, and no queued or running job has already been logged |

## Left out

- Threads, the mutexes and the condition variable are not modelled as such.
  Each call and each step between lock boundaries is atomic. Blocking becomes
  a precondition: the wait predicate for `WorkerStep`, and every thread
  returned for `JoinWorkers`. `notify_one` and `notify_all` are not
  modelled; they only enable steps.
- Scheduling.Scheduler.WorkerStep: the model assumes that a waiting thread
  always wakes once the wait predicate holds. The source can lose the
  wake-up of `stop()`. It clears `running` and calls `notify_all` without
  holding `queue_mutex` (src/scheduler.cpp:26-27). A worker that has just
  tested the predicate under the mutex (src/scheduler.cpp:58-60) and seen
  `running` set with an empty queue, but is not yet asleep, misses the
  notification. It then sleeps until a later `submitJob` notifies it, and
  the `join` at src/scheduler.cpp:31 can block forever. The model permits
  more behaviours than the source, so its safety lemmas still hold, but it
  cannot show this hang.
- Scheduling.Scheduler.WorkerStep: the model does not capture which of
  several equal-priority jobs `top()` returns, because that depends on the
  heap layout of `std::priority_queue`.
- Scheduling.Scheduler.Top: the same heap choice among equal priorities is
  left open.
- Scheduling.Scheduler.WorkerReport: the job's task is a closure the model
  cannot see, so it runs as a no-op. `start_time` and `end_time` are
  parameters.
- The clock (`high_resolution_clock::now()`) is not modelled; each reading
  is a parameter. The clock's period is taken to be one nanosecond, and
  times are unbounded integers rather than 64-bit counts. The readings are
  not assumed to be ordered: `high_resolution_clock` need not be steady (in
  libstdc++ it is `system_clock`), so the source can log negative durations
  (`NegativeDurationWhenClockStepsBack`). `DurationsNonNegative` holds only
  when the submit, start and end readings are in order.
- The unused `wait_duration` at src/scheduler.cpp:70 is not modelled.
- File I/O is not modelled. Opening and closing the `ofstream`, `flush()` and
  write errors are outside the model. The file is the sequence of lines
  written to it.
- Scheduling.Scheduler.constructor: a negative thread count is excluded by a
  precondition, because `reserve` of a negative `int` throws.
  `workers.capacity()` is taken to equal the requested thread count, while
  `reserve` guarantees only at least that much.
- Scheduling.Scheduler.Start: calling `start()` a second time while threads
  exist is excluded by a precondition, because the source never returns
  from that call. Its loop test re-reads `workers.capacity()` on every pass
  (src/scheduler.cpp:18). The vector is already full, so every
  `emplace_back` (src/scheduler.cpp:20) reallocates and raises the capacity
  above the new size. With at least one thread, `thread_id` therefore never
  reaches the capacity, and `start()` keeps creating threads until thread
  creation or allocation throws. A loop that does not terminate cannot be
  stated here, so the model has no member for this call.
- The destructor's `stop()` is not a separate member. `StopAgain` shows that
  a second stop changes nothing.
- Scheduling.NoJobRunsTwice: stated only up to 2^32 submissions, because ids
  repeat after that (`IdsRepeatAfterWrap`).
- Anomaly detection: the code has none (see above), so nothing of it is
  modelled.
- src/main.cpp (the demo workload) and the Python log visualiser are not
  part of this model.
