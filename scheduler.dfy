/** The scheduler of src/scheduler.cpp as a sequential state machine. Every
    public call, and every step of a worker thread, is one atomic step; a
    place where a thread blocks becomes a precondition of the step that
    follows it. Tasks run as no-ops, and clock readings are nanosecond
    counts passed in by the caller. */
module Scheduling {
  import opened Wrappers
  import opened Jobs
  import opened PriorityQueue
  import opened CompletionLog

  const TwoTo32: int := 0x1_0000_0000

  /** `++job_counter` on a `std::atomic<int>`: the next value modulo 2^32,
      kept in the range of an `int` (atomic arithmetic wraps around). */
  function Increment32(c: int32): (r: int32)
    ensures (r as int - c as int - 1) % TwoTo32 == 0
  {
    if c == MaxInt32 then MinInt32 else c + 1
  }

  /** The counter after `k` submissions, which is also the id the `k`-th
      submission receives. */
  function IdOf(k: nat): (id: int32)
  {
    if k == 0 then 0 else Increment32(IdOf(k - 1))
  }

  /** The ids count 1, 2, 3, ... up to 2^31 - 1 and then continue from -2^31. */
  lemma {:induction false} IdOfClosedForm(k: nat)
    requires k <= TwoTo32
    ensures IdOf(k) as int == if k <= MaxInt32 as int then k else k - TwoTo32
    decreases k
  {
    if k > 0 {
      IdOfClosedForm(k - 1);
    }
  }

  /** Successive submissions get strictly increasing ids, starting at 1,
      until the counter reaches the largest `int`. */
  lemma IdsIncrease(a: nat, b: nat)
    requires a < b <= MaxInt32 as int
    ensures IdOf(1) == 1
    ensures IdOf(a) < IdOf(b)
  {
    IdOfClosedForm(1);
    IdOfClosedForm(a);
    IdOfClosedForm(b);
  }

  /** No two of the first 2^32 submissions share an id. */
  lemma IdsDistinct(a: nat, b: nat)
    requires 1 <= a < b <= TwoTo32
    ensures IdOf(a) != IdOf(b)
  {
    IdOfClosedForm(a);
    IdOfClosedForm(b);
  }

  /** The bound is exact: the counter wraps to -2^31 after 2^31 - 1
      submissions, and submission 2^32 + 1 gets the id of submission 1. */
  lemma IdsRepeatAfterWrap()
    ensures IdOf(MaxInt32 as nat + 1) == MinInt32
    ensures IdOf(TwoTo32 + 1) == IdOf(1)
  {
    IdOfClosedForm(MaxInt32 as nat + 1);
    IdOfClosedForm(TwoTo32);
    IdOfClosedForm(1);
  }

  /** Where a worker thread is in `worker_loop`: about to test `running`,
      waiting on the condition variable, running the job it popped (with
      the queue lock released), or returned. */
  datatype Phase = AtLoopHead | Waiting | Running(job: Job) | Exited

  /** An entry of the `workers` vector: the thread and the id it was started with. */
  datatype Worker = Worker(threadId: int32, phase: Phase)

  /** Whether a thread in phase `p` is running job `j`, as a count. */
  function Holds(p: Phase, j: Job): (count: nat)
  {
    if p == Running(j) then 1 else 0
  }

  /** How many threads are running job `j`: popped and not yet logged. */
  function Holding(workers: seq<Worker>, j: Job): (count: nat)
  {
    if workers == [] then 0
    else Holds(workers[0].phase, j) + Holding(workers[1..], j)
  }

  /** Replacing one thread changes how many threads run `j` by what the old
      and the new thread hold. */
  lemma {:induction false} HoldingUpdate(workers: seq<Worker>, t: nat, w: Worker, j: Job)
    requires t < |workers|
    ensures Holding(workers[t := w], j) + Holds(workers[t].phase, j) == Holding(workers, j) + Holds(w.phase, j)
  {
    var updated := workers[t := w];
    if t > 0 {
      var rest := workers[1..];
      assert updated[1..] == rest[t - 1 := w];
      HoldingUpdate(rest, t - 1, w, j);
    } else {
      assert updated[1..] == workers[1..];
    }
  }

  /** No thread running a job means no job in flight. */
  lemma {:induction false} NoneRunningNoneHeld(workers: seq<Worker>, j: Job)
    requires forall i :: 0 <= i < |workers| ==> !workers[i].phase.Running?
    ensures Holding(workers, j) == 0
  {
    if workers != [] {
      NoneRunningNoneHeld(workers[1..], j);
    }
  }

  /** Two threads running the same job count it twice. */
  lemma TwoRunningHoldTwice(workers: seq<Worker>, t1: nat, t2: nat, j: Job)
    requires t1 < t2 < |workers|
    requires workers[t1].phase == Running(j) && workers[t2].phase == Running(j)
    ensures Holding(workers, j) >= 2
  {
    var first := workers[t1 := Worker(workers[t1].threadId, AtLoopHead)];
    HoldingUpdate(workers, t1, first[t1], j);
    HoldingUpdate(first, t2, Worker(workers[t2].threadId, AtLoopHead), j);
  }

  /** Thread `i` sits at index `i` of the vector, which is empty or holds a
      full complement of threads; a thread returns only once `running` is
      false, and nothing sets it again while the thread is in the vector. */
  ghost predicate WorkersWellFormed(workers: seq<Worker>, capacity: nat, running: bool)
  {
    && (workers == [] || |workers| == capacity)
    && (forall i :: 0 <= i < |workers| ==> workers[i].threadId as int == i)
    && (forall i :: 0 <= i < |workers| && workers[i].phase == Exited ==> !running)
  }

  /** Moving one thread to another phase keeps the vector well formed, as
      long as it returns only when `running` is false. */
  lemma SetPhaseKeepsWorkersWellFormed(workers: seq<Worker>, capacity: nat, running: bool, t: nat, phase: Phase)
    requires WorkersWellFormed(workers, capacity, running)
    requires t < |workers| && (phase == Exited ==> !running)
    ensures t == workers[t].threadId as int
    ensures WorkersWellFormed(workers[t := workers[t].(phase := phase)], capacity, running)
  {
  }

  /** The `k`-th submitted job carries the id `IdOf(k + 1)`, and the counter
      stands at the id of the last one. */
  ghost predicate IdsIssuedInOrder(issued: seq<Job>, jobCounter: int32)
  {
    && jobCounter == IdOf(|issued|)
    && (forall k :: 0 <= k < |issued| ==> issued[k].id == IdOf(k + 1))
  }

  /** Issuing the next id keeps the ids in submission order. */
  lemma IssueKeepsOrder(issued: seq<Job>, jobCounter: int32, job: Job)
    requires IdsIssuedInOrder(issued, jobCounter)
    requires job.id == Increment32(jobCounter)
    ensures IdsIssuedInOrder(issued + [job], job.id)
  {
  }

  /** Each submitted job is exactly once either queued, being run by a
      thread, or logged. */
  ghost predicate Accounted(queue: multiset<Job>, workers: seq<Worker>, completed: seq<Job>, issued: seq<Job>)
  {
    forall j {:trigger multiset(issued)[j]} :: queue[j] + Holding(workers, j) + multiset(completed)[j] == multiset(issued)[j]
  }

  /** Submitting queues the newly issued job. */
  lemma QueueIssued(queue: multiset<Job>, workers: seq<Worker>, completed: seq<Job>, issued: seq<Job>, job: Job)
    requires Accounted(queue, workers, completed, issued)
    ensures Accounted(queue + multiset{job}, workers, completed, issued + [job])
  {
  }

  /** A thread that is not running a job moves to another phase in which it
      runs none. */
  lemma IdlePhaseChange(queue: multiset<Job>, workers: seq<Worker>, completed: seq<Job>, issued: seq<Job>,
                        t: nat, phase: Phase)
    requires Accounted(queue, workers, completed, issued)
    requires t < |workers| && !workers[t].phase.Running? && !phase.Running?
    ensures Accounted(queue, workers[t := workers[t].(phase := phase)], completed, issued)
  {
    forall j {
      HoldingUpdate(workers, t, workers[t].(phase := phase), j);
    }
  }

  /** A waiting thread pops a queued job and starts running it. */
  lemma PopToThread(queue: multiset<Job>, workers: seq<Worker>, completed: seq<Job>, issued: seq<Job>,
                    t: nat, job: Job)
    requires Accounted(queue, workers, completed, issued)
    requires t < |workers| && workers[t].phase == Waiting && job in queue
    ensures Accounted(queue - multiset{job}, workers[t := workers[t].(phase := Running(job))], completed, issued)
  {
    forall j {
      HoldingUpdate(workers, t, workers[t].(phase := Running(job)), j);
    }
  }

  /** A thread logs the job it ran and goes back to the loop test. */
  lemma ReportFromThread(queue: multiset<Job>, workers: seq<Worker>, completed: seq<Job>, issued: seq<Job>, t: nat)
    requires Accounted(queue, workers, completed, issued)
    requires t < |workers| && workers[t].phase.Running?
    ensures Accounted(queue, workers[t := workers[t].(phase := AtLoopHead)],
                      completed + [workers[t].phase.job], issued)
  {
    forall j {
      HoldingUpdate(workers, t, workers[t].(phase := AtLoopHead), j);
    }
  }

  /** Line `i` of the log (after the header) is about the `i`-th logged
      job and names one of the pool's threads. */
  ghost predicate LogMatchesCompleted(records: seq<Record>, completed: seq<Job>, capacity: nat)
  {
    && |records| == |completed|
    && (forall i :: 0 <= i < |completed| ==>
          && records[i].jobId == completed[i].id as int
          && records[i].submitMs == ToMillis(completed[i].submitTick)
          && 0 <= records[i].threadId < capacity)
  }

  /** Logging a job keeps the log in step with the logged jobs. */
  lemma LogCompletedKeepsMatch(records: seq<Record>, completed: seq<Job>, capacity: nat,
                               job: Job, threadId: int, startTick: int, endTick: int)
    requires LogMatchesCompleted(records, completed, capacity)
    requires 0 <= threadId < capacity
    ensures LogMatchesCompleted(records + [Completion(job.id as int, threadId, job.submitTick, startTick, endTick)],
                                completed + [job], capacity)
  {
  }

  class Scheduler {
    /** `workers.capacity()`, fixed by `workers.reserve(num_threads)`. */
    const capacity: nat
    var running: bool
    var workers: seq<Worker>
    var queue: multiset<Job>
    var jobCounter: int32
    const logger: Logger
    /** Every job ever submitted, in submission order. */
    ghost var issued: seq<Job>
    /** Every job a thread has run and logged, in logging order. */
    ghost var completed: seq<Job>

    ghost predicate Valid()
      reads this, logger
    {
      && logger.Valid()
      && capacity <= MaxInt32 as nat
      && WorkersWellFormed(workers, capacity, running)
      && IdsIssuedInOrder(issued, jobCounter)
      && Accounted(queue, workers, completed, issued)
      && LogMatchesCompleted(logger.records, completed, capacity)
    }

    /** `Scheduler(num_threads, log_filename)`: stopped, no threads, an
        empty queue, a zero counter and a log holding only its header. */
    constructor (numThreads: int32)
      requires numThreads >= 0
      ensures Valid()
      ensures capacity == numThreads as nat && !running && workers == []
      ensures queue == multiset{} && jobCounter == 0
      ensures fresh(logger) && logger.lines == [Header]
      ensures issued == [] && completed == []
    {
      capacity := numThreads as nat;
      running := false;
      workers := [];
      queue := multiset{};
      jobCounter := 0;
      logger := new Logger();
      issued := [];
      completed := [];
    }

    /** `start()`: sets `running` and launches `capacity` threads with ids
        0 .. capacity - 1, in that order, each about to enter its loop. */
    method Start()
      requires Valid()
      requires workers == []
      modifies this
      ensures Valid() && running
      ensures |workers| == capacity
      ensures forall i :: 0 <= i < |workers| ==> workers[i] == Worker(i as int32, AtLoopHead)
      ensures queue == old(queue) && jobCounter == old(jobCounter)
      ensures issued == old(issued) && completed == old(completed)
    {
      running := true;
      var threadId := 0;
      while threadId < capacity
        invariant 0 <= threadId <= capacity
        invariant running
        invariant |workers| == threadId
        invariant forall i :: 0 <= i < threadId ==> workers[i] == Worker(i as int32, AtLoopHead)
        invariant queue == old(queue) && jobCounter == old(jobCounter)
        invariant issued == old(issued) && completed == old(completed)
      {
        workers := workers + [Worker(threadId as int32, AtLoopHead)];
        threadId := threadId + 1;
      }
      forall j {
        NoneRunningNoneHeld(workers, j);
      }
    }

    /** The first half of `stop()`: clears `running` and wakes every waiting
        thread. Waking needs no state here: it enables the waiting threads'
        steps. */
    method RequestStop()
      requires Valid()
      modifies this
      ensures Valid() && !running
      ensures workers == old(workers) && queue == old(queue) && jobCounter == old(jobCounter)
      ensures issued == old(issued) && completed == old(completed)
    {
      running := false;
    }

    /** The second half of `stop()`: joins every thread, which blocks until
        each has returned from its loop, then clears the vector. */
    method JoinWorkers()
      requires Valid()
      requires forall i :: 0 <= i < |workers| ==> workers[i].phase == Exited
      modifies this
      ensures Valid() && workers == []
      ensures running == old(running) && queue == old(queue) && jobCounter == old(jobCounter)
      ensures issued == old(issued) && completed == old(completed)
    {
      forall j {
        NoneRunningNoneHeld(workers, j);
      }
      workers := [];
    }

    /** `submitJob(task, priority)`: the job takes the incremented counter as
        its id and `nowTick` as its submission time and joins the queue; no
        queued job changes, and `running` is not consulted. */
    method SubmitJob(nowTick: int, priority: int32 := 0)
      requires Valid()
      modifies this
      ensures Valid()
      ensures jobCounter == Increment32(old(jobCounter))
      ensures queue == old(queue) + multiset{Job(jobCounter, priority, nowTick)}
      ensures issued == old(issued) + [Job(jobCounter, priority, nowTick)]
      ensures completed == old(completed)
      ensures running == old(running) && workers == old(workers)
    {
      var job := DefaultJob(nowTick);
      job := job.(id := Increment32(jobCounter), priority := priority, submitTick := nowTick);
      IssueKeepsOrder(issued, jobCounter, job);
      QueueIssued(queue, workers, completed, issued, job);
      jobCounter, queue, issued := job.id, queue + multiset{job}, issued + [job];
    }

    /** The `while (running)` test at the head of `worker_loop`: the thread
        enters the loop body or returns. */
    method WorkerLoopTest(threadId: int)
      requires Valid()
      requires 0 <= threadId < |workers| && workers[threadId].phase == AtLoopHead
      modifies this
      ensures Valid()
      ensures workers == old(workers)[threadId := Worker(threadId as int32, if old(running) then Waiting else Exited)]
      ensures running == old(running) && queue == old(queue) && jobCounter == old(jobCounter)
      ensures issued == old(issued) && completed == old(completed)
    {
      var next := if running then Waiting else Exited;
      SetPhaseKeepsWorkersWellFormed(workers, capacity, running, threadId, next);
      IdlePhaseChange(queue, workers, completed, issued, threadId, next);
      workers := workers[threadId := workers[threadId].(phase := next)];
    }

    /** `job_queue.top()`: a queued job that no queued job outranks. Which
        one, among several of the highest priority, is left open. */
    method Top() returns (job: Job)
      requires queue != multiset{}
      ensures IsTop(job, queue)
    {
      TopExists(queue);
      job :| job in queue && IsTop(job, queue);
    }

    /** The locked part of a pass through `worker_loop`, taken once the wait
        on the condition variable is over (the queue is non-empty or
        `running` is false). The thread returns if `running` is false and
        the queue empty; otherwise it pops a job that no queued job
        outranks, even if `running` was cleared while it waited. */
    method WorkerStep(threadId: int) returns (popped: Option<Job>)
      requires Valid()
      requires 0 <= threadId < |workers| && workers[threadId].phase == Waiting
      requires queue != multiset{} || !running
      modifies this
      ensures Valid()
      ensures popped.None? <==> old(!running && queue == multiset{})
      ensures popped.None? ==>
        && queue == old(queue)
        && workers == old(workers)[threadId := Worker(threadId as int32, Exited)]
      ensures popped.Some? ==>
        && IsTop(popped.value, old(queue))
        && queue == old(queue) - multiset{popped.value}
        && workers == old(workers)[threadId := Worker(threadId as int32, Running(popped.value))]
      ensures running == old(running) && jobCounter == old(jobCounter)
      ensures issued == old(issued) && completed == old(completed)
    {
      if !running && queue == multiset{} {
        SetPhaseKeepsWorkersWellFormed(workers, capacity, running, threadId, Exited);
        IdlePhaseChange(queue, workers, completed, issued, threadId, Exited);
        workers := workers[threadId := workers[threadId].(phase := Exited)];
        return None;
      }
      var job := Top();
      SetPhaseKeepsWorkersWellFormed(workers, capacity, running, threadId, Running(job));
      PopToThread(queue, workers, completed, issued, threadId, job);
      queue, workers := queue - multiset{job}, workers[threadId := workers[threadId].(phase := Running(job))];
      popped := Some(job);
    }

    /** The unlocked rest of the pass: the thread runs the job it popped
        between the clock readings `startTick` and `endTick` (the task is a
        no-op here), logs it under its own thread id, and goes back to the
        loop test. */
    method WorkerReport(threadId: int, startTick: int, endTick: int)
      requires Valid()
      requires 0 <= threadId < |workers| && workers[threadId].phase.Running?
      modifies this, logger
      ensures Valid()
      ensures var job := old(workers[threadId].phase.job);
        && logger.lines == old(logger.lines) +
             [FormatLine(Completion(job.id as int, threadId, job.submitTick, startTick, endTick))]
        && completed == old(completed) + [job]
      ensures workers == old(workers)[threadId := Worker(threadId as int32, AtLoopHead)]
      ensures running == old(running) && queue == old(queue) && jobCounter == old(jobCounter)
      ensures issued == old(issued)
    {
      var job := workers[threadId].phase.job;
      SetPhaseKeepsWorkersWellFormed(workers, capacity, running, threadId, AtLoopHead);
      ReportFromThread(queue, workers, completed, issued, threadId);
      LogCompletedKeepsMatch(logger.records, completed, capacity, job, threadId, startTick, endTick);
      logger.Log(job.id as int, threadId, job.submitTick, startTick, endTick);
      completed, workers := completed + [job], workers[threadId := workers[threadId].(phase := AtLoopHead)];
    }
  }

  /** A second `stop()`, as the destructor makes after an explicit one,
      changes nothing. */
  method StopAgain(s: Scheduler)
    requires s.Valid() && !s.running && s.workers == []
    modifies s
    ensures s.Valid()
    ensures s.running == old(s.running) && s.workers == old(s.workers)
    ensures s.queue == old(s.queue) && s.jobCounter == old(s.jobCounter)
    ensures s.logger.lines == old(s.logger.lines)
  {
    s.RequestStop();
    s.JoinWorkers();
  }

  /** A sequence in which a value occurs at two positions holds it at least
      twice. */
  lemma TwoPositionsTwoOccurrences(s: seq<Job>, i: nat, j: nat)
    requires i < j < |s| && s[i] == s[j]
    ensures multiset(s)[s[i]] >= 2
  {
    assert s == s[..j] + s[j..];
    assert s[i] == s[..j][i];
    assert s[j] == s[j..][0];
    assert multiset(s) == multiset(s[..j]) + multiset(s[j..]);
  }

  /** In a sequence of jobs with pairwise distinct ids each job occurs at
      most once. */
  lemma {:induction false} DistinctIdsOnce(s: seq<Job>, x: Job)
    requires forall a, b :: 0 <= a < b < |s| ==> s[a].id != s[b].id
    ensures multiset(s)[x] <= 1
    decreases |s|
  {
    if s != [] {
      var init := s[..|s| - 1];
      assert s == init + [s[|s| - 1]];
      DistinctIdsOnce(init, x);
      if x == s[|s| - 1] {
        assert x !in init by {
          forall a | 0 <= a < |init| ensures init[a] != x {
            assert init[a] == s[a];
          }
        }
      }
    }
  }

  /** Take some of the submitted jobs, whose ids are distinct, as logged:
      the logged ones have distinct ids, and a job logged fewer times than
      it was submitted shares its id with no logged job. */
  lemma LoggedKeepIdsApart(issued: seq<Job>, completed: seq<Job>)
    requires forall a, b :: 0 <= a < b < |issued| ==> issued[a].id != issued[b].id
    requires forall j :: multiset(completed)[j] <= multiset(issued)[j]
    ensures forall i, j :: 0 <= i < j < |completed| ==> completed[i].id != completed[j].id
    ensures forall job, i :: 0 <= i < |completed| && multiset(completed)[job] < multiset(issued)[job] ==>
      completed[i].id != job.id
  {
    // two submitted jobs with the same id are the same job
    forall x, y | x in multiset(issued) && y in multiset(issued) && x.id == y.id
      ensures x == y
    {
      var a :| 0 <= a < |issued| && issued[a] == x;
      var b :| 0 <= b < |issued| && issued[b] == y;
      if a < b {
        assert false;
      } else if b < a {
        assert false;
      }
    }
    forall i, j | 0 <= i < j < |completed|
      ensures completed[i].id != completed[j].id
    {
      if completed[i].id == completed[j].id {
        assert completed[i] in multiset(completed) && completed[j] in multiset(completed);
        assert completed[i] == completed[j];
        TwoPositionsTwoOccurrences(completed, i, j);
        DistinctIdsOnce(issued, completed[i]);
        assert false;
      }
    }
    forall job, i | 0 <= i < |completed| && multiset(completed)[job] < multiset(issued)[job]
      ensures completed[i].id != job.id
    {
      if completed[i].id == job.id {
        assert completed[i] in multiset(completed);
        assert completed[i] == job;
        DistinctIdsOnce(issued, job);
        assert false;
      }
    }
  }

  /** While at most 2^32 jobs have been submitted, no job id is logged
      twice, and no logged job is still queued or being run: every job runs
      at most once: no two threads run the same job, and no queued job is
      also being run. */
  lemma NoJobRunsTwice(s: Scheduler)
    requires s.Valid()
    requires |s.issued| <= TwoTo32
    ensures forall i, j :: 0 <= i < j < |s.logger.records| ==> s.logger.records[i].jobId != s.logger.records[j].jobId
    ensures forall job, i :: (job in s.queue || Holding(s.workers, job) > 0) && 0 <= i < |s.logger.records| ==>
      s.logger.records[i].jobId != job.id as int
    ensures forall t1, t2 :: 0 <= t1 < t2 < |s.workers| && s.workers[t1].phase.Running? && s.workers[t2].phase.Running? ==>
      s.workers[t1].phase.job != s.workers[t2].phase.job
    ensures forall job :: job in s.queue ==> Holding(s.workers, job) == 0
  {
    forall a, b | 0 <= a < b < |s.issued|
      ensures s.issued[a].id != s.issued[b].id
    {
      IdsDistinct(a + 1, b + 1);
    }
    forall t1, t2 | 0 <= t1 < t2 < |s.workers| && s.workers[t1].phase.Running? && s.workers[t2].phase.Running?
      ensures s.workers[t1].phase.job != s.workers[t2].phase.job
    {
      var job := s.workers[t1].phase.job;
      if s.workers[t2].phase.job == job {
        TwoRunningHoldTwice(s.workers, t1, t2, job);
        DistinctIdsOnce(s.issued, job);
        assert false;
      }
    }
    forall job | job in s.queue
      ensures Holding(s.workers, job) == 0
    {
      DistinctIdsOnce(s.issued, job);
      assert multiset(s.issued)[job] >= s.queue[job] + Holding(s.workers, job);
    }
    forall j
      ensures multiset(s.completed)[j] + s.queue[j] + Holding(s.workers, j) <= multiset(s.issued)[j]
    {
      assert Holding(s.workers, j) >= 0;
    }
    LoggedKeepIdsApart(s.issued, s.completed);
  }

  /** Nothing is dropped: once the queue is empty and no thread is running
      a job, every submitted job has been logged exactly once, so the log
      holds one line per submission and names every submitted job. */
  lemma NothingDropped(s: Scheduler)
    requires s.Valid()
    requires s.queue == multiset{}
    requires forall i :: 0 <= i < |s.workers| ==> !s.workers[i].phase.Running?
    ensures multiset(s.completed) == multiset(s.issued)
    ensures |s.logger.records| == |s.issued|
    ensures forall k :: 0 <= k < |s.issued| ==>
      exists i :: 0 <= i < |s.logger.records| && s.logger.records[i].jobId == s.issued[k].id as int
  {
    forall j
      ensures multiset(s.completed)[j] == multiset(s.issued)[j]
    {
      NoneRunningNoneHeld(s.workers, j);
    }
    assert multiset(s.completed) == multiset(s.issued);
    assert |multiset(s.completed)| == |s.completed|;
    forall k | 0 <= k < |s.issued|
      ensures exists i :: 0 <= i < |s.logger.records| && s.logger.records[i].jobId == s.issued[k].id as int
    {
      assert s.issued[k] in multiset(s.completed);
      var i :| 0 <= i < |s.completed| && s.completed[i] == s.issued[k];
      assert s.logger.records[i].jobId == s.issued[k].id as int;
    }
  }
}
