/** The shared state of the dispatcher/worker program and the operations on
    it (hw1/src/func.c and hw2_207447996_211383666/src/func.c): `init_system`,
    `enqueue_job`, a worker's dequeue, the work a worker does for one job,
    `write_stats_file`, and the time helpers. Everything runs sequentially:
    the locks, condition variables and threads are not modelled, and a lock
    that can fail becomes an input. */
module System {
  import opened WorkerCommand
  import opened JobSchedule
  import opened TurnaroundStats
  import opened JobQueue

  const MaxCounters: int := 100
  const MaxThreads: int := 4096

  /** Which step of `enqueue_job` fails, if any: the `malloc`/`strdup` of
      the job, the queue lock, or the in-flight lock taken after linking. */
  datatype Fault = NoFault | AllocFails | QueueLockFails | JobsLockFails

  /** What a worker finds when it goes to the queue: a job, an empty queue
      while more jobs may come (it waits), or an empty queue after the
      dispatcher is done (it exits). */
  datatype Dequeued = Got(job: Job) | Wait | Exit

  /** The sub-commands a worker executes for a job: those of its line, or
      none when the copy of the line failed. */
  function JobCommands(job: Job, copyOk: bool): seq<SubCommand> {
    if copyOk then ParseAll(Schedule(Pieces(job.line))) else []
  }

  /** The command batches of jobs run one after the other. */
  function Batches(jobs: seq<Job>, copyOks: seq<bool>): (bs: seq<seq<SubCommand>>)
    requires |copyOks| >= |jobs|
    ensures |bs| == |jobs|
    decreases |jobs|
  {
    if jobs == [] then []
    else Batches(jobs[..|jobs| - 1], copyOks) + [JobCommands(jobs[|jobs| - 1], copyOks[|jobs| - 1])]
  }

  /** The counters after the batches run one after the other. */
  function AfterBatches(values: seq<int>, bs: seq<seq<SubCommand>>): (r: seq<int>)
    ensures |r| == |values|
    decreases |bs|
  {
    if bs == [] then values else AdjustAll(AfterBatches(values, bs[..|bs| - 1]), bs[|bs| - 1])
  }

  lemma AfterBatchesSnoc(values: seq<int>, bs: seq<seq<SubCommand>>, b: seq<SubCommand>)
    ensures AfterBatches(values, bs + [b]) == AdjustAll(AfterBatches(values, bs), b)
  {
    assert (bs + [b])[..|bs|] == bs;
  }

  /** Running the batches one after the other is running their commands
      one after the other. */
  function Flatten(bs: seq<seq<SubCommand>>): seq<SubCommand>
    decreases |bs|
  {
    if bs == [] then [] else Flatten(bs[..|bs| - 1]) + bs[|bs| - 1]
  }

  lemma {:induction false} AfterBatchesFlatten(values: seq<int>, bs: seq<seq<SubCommand>>)
    ensures AfterBatches(values, bs) == AdjustAll(values, Flatten(bs))
    decreases |bs|
  {
    if bs != [] {
      var front := bs[..|bs| - 1];
      AfterBatchesFlatten(values, front);
      AdjustAllConcat(values, Flatten(front), bs[|bs| - 1]);
    }
  }

  /** The turnaround time of each job: its end time minus its read time. */
  function Turnarounds(jobs: seq<Job>, ends: seq<int>): (ts: seq<int>)
    requires |ends| >= |jobs|
    ensures |ts| == |jobs|
  {
    seq(|jobs|, k requires 0 <= k < |jobs| => ends[k] - jobs[k].readTime)
  }

  /** Job `i` done: the prefix of batches grows by its own. */
  lemma BatchesSnoc(jobs: seq<Job>, copyOks: seq<bool>, i: nat, job: Job, copyOk: bool)
    requires i < |jobs| <= |copyOks| && job == jobs[i] && copyOk == copyOks[i]
    ensures Batches(jobs[..i + 1], copyOks) == Batches(jobs[..i], copyOks) + [JobCommands(job, copyOk)]
  {
    assert jobs[..i + 1][..i] == jobs[..i];
  }

  /** Job `i` done: the turnarounds recorded after `start` grow by its own. */
  lemma TurnaroundsSnoc(start: seq<int>, samples: seq<int>, jobs: seq<Job>, ends: seq<int>, i: nat,
                        job: Job, end: int)
    requires i < |jobs| <= |ends| && job == jobs[i] && end == ends[i]
    requires samples == start + Turnarounds(jobs[..i], ends)
    ensures samples + [end - job.readTime] == start + Turnarounds(jobs[..i + 1], ends)
  {
    var c := Turnarounds(jobs[..i + 1], ends);
    var d := Turnarounds(jobs[..i], ends) + [ends[i] - jobs[i].readTime];
    assert |c| == |d|;
    assert forall k :: 0 <= k < |c| ==> c[k] == d[k];
    assert start + Turnarounds(jobs[..i], ends) + [ends[i] - jobs[i].readTime] == start + d;
  }

  /** `since_start_ms`: 0 while the start time is unset, otherwise the
      time elapsed since it. */
  function Elapsed(startTime: int, now: int): int {
    if startTime == 0 then 0 else now - startTime
  }

  /** Times taken with `since_start_ms` keep the clock's order, and once
      the start time is set their differences are the clock's differences:
      a turnaround `end - read_time` is the time that passed between the
      two readings. Before the start time is set every reading is 0. */
  lemma ElapsedDifference(startTime: int, a: int, b: int)
    ensures a <= b ==> Elapsed(startTime, a) <= Elapsed(startTime, b)
    ensures startTime != 0 ==> Elapsed(startTime, b) - Elapsed(startTime, a) == b - a
    ensures startTime == 0 ==> Elapsed(startTime, a) == Elapsed(startTime, b) == 0
  {
  }

  /** `usleep((useconds_t)ms * 1000)` behind `msleep_ms`'s guard: nothing for
      `ms <= 0`, otherwise the microseconds product in 32-bit unsigned
      arithmetic. */
  function SleepMicros(ms: int): (us: int)
    ensures 0 <= us < 0x1_0000_0000
    ensures ms <= 0 ==> us == 0
    ensures 0 < ms <= 4294967 ==> us == ms * 1000
  {
    if ms <= 0 then 0 else (ms * 1000) % 0x1_0000_0000
  }

  /** A large enough argument wraps around: 4294968 ms asks for 704 microseconds. */
  lemma SleepMicrosWraps()
    ensures SleepMicros(4294968) == 704
  {
  }

  /** The parse-and-execute part of a worker's job, skipped when the copy of
      the line failed. */
  method RunCopy(job: Job, copyOk: bool, counters: array<int>) returns (executed: seq<SubCommand>)
    modifies counters
    ensures executed == JobCommands(job, copyOk)
    ensures counters[..] == AdjustAll(old(counters[..]), executed)
  {
    if copyOk {
      executed := RunJob(job.line, counters);
    } else {
      executed := [];
    }
  }

  /** The counter files `init_system` creates, each holding 0. */
  method NewCounters(n: nat) returns (files: array<int>)
    ensures fresh(files) && files.Length == n
    ensures forall k :: 0 <= k < n ==> files[k] == 0
  {
    files := new int[n];
    var i := 0;
    while i < n
      invariant 0 <= i <= n
      invariant forall k :: 0 <= k < i ==> files[k] == 0
      modifies files
    {
      files[i] := 0;
      i := i + 1;
    }
  }

  class System {
    var numThreads: int
    var numCounters: int
    var logEnabled: bool
    var startTime: int
    const queue: Queue
    const stats: Stats
    /** The `countNN.txt` files, one value per counter. */
    var counters: array<int>
    /** `g_jobs_in_progress`. */
    var inFlight: int
    /** `g_dispatcher_done`. */
    var done: bool

    ghost predicate Valid()
      reads this, queue, queue.Repr, stats
    {
      queue.Valid() && stats.Valid() && counters.Length == numCounters &&
      this !in queue.Repr && stats !in queue.Repr && counters !in queue.Repr
    }

    /** The globals before `init_system`: zero, null, empty. */
    constructor ()
      ensures Valid() && fresh(queue) && fresh(queue.Repr) && fresh(stats) && fresh(counters)
      ensures queue.Contents == [] && stats.samples == [] && counters.Length == 0
      ensures numThreads == 0 && numCounters == 0 && !logEnabled
      ensures inFlight == 0 && !done && startTime == 0
    {
      numThreads, numCounters, logEnabled, startTime := 0, 0, false, 0;
      queue := new Queue();
      stats := new Stats();
      counters := new int[0];
      inFlight, done := 0, false;
    }

    /** `init_system`: a thread count outside 1..4096 or a counter count
        outside 1..100 returns -1 before any global is assigned. Otherwise the
        globals are set, the queue emptied, the statistics zeroed, every
        counter created as 0, nothing in flight and the dispatcher not done. */
    method InitSystem(threads: int, counterCount: int, log: bool, now: int) returns (rc: int)
      requires Valid()
      modifies this, queue, stats
      ensures Valid()
      ensures rc == 0 || rc == -1
      ensures rc == -1 <==> !(1 <= threads <= MaxThreads && 1 <= counterCount <= MaxCounters)
      ensures rc == -1 ==> unchanged(this) && unchanged(queue) && unchanged(stats)
      ensures rc == 0 ==> numThreads == threads && numCounters == counterCount && logEnabled == log
      ensures rc == 0 ==> startTime == now
      ensures rc == 0 ==> queue.Contents == [] && queue.head == null && queue.tail == null
      ensures rc == 0 ==> stats.samples == [] && stats.sum == 0 && stats.minTime == 0
                          && stats.maxTime == 0 && stats.count == 0
      ensures rc == 0 ==> fresh(counters) && counters.Length == counterCount
                          && forall i :: 0 <= i < counterCount ==> counters[i] == 0
      ensures rc == 0 ==> inFlight == 0 && !done
    {
      if threads <= 0 || threads > MaxThreads || counterCount <= 0 || counterCount > MaxCounters {
        return -1;
      }
      numThreads, numCounters, logEnabled := threads, counterCount, log;
      startTime := now;
      queue.Clear();
      stats.Reset();
      inFlight, done := 0, false;
      counters := NewCounters(counterCount);
      rc := 0;
    }

    /** `enqueue_job`: a failed allocation or queue lock returns -1 and
        changes nothing; otherwise the job (a copy of the line and its read
        time) is linked at the tail. A failed in-flight lock after that returns
        -1 with the job left queued and in-flight not raised; with no failure
        in-flight goes up by one and 0 is returned. */
    method EnqueueJob(line: string, readTime: int, fault: Fault) returns (rc: int)
      requires Valid()
      modifies this, queue.Repr
      ensures Valid() && fresh(queue.Repr - old(queue.Repr))
      ensures counters == old(counters)
      ensures unchanged(stats) && done == old(done) && startTime == old(startTime)
      ensures numThreads == old(numThreads) && numCounters == old(numCounters) && logEnabled == old(logEnabled)
      ensures rc == 0 <==> fault == NoFault
      ensures rc != 0 ==> rc == -1
      ensures queue.Contents == if fault == NoFault || fault == JobsLockFails
                                then old(queue.Contents) + [Job(line, readTime)]
                                else old(queue.Contents)
      ensures inFlight == old(inFlight) + (if fault == NoFault then 1 else 0)
    {
      if fault == AllocFails || fault == QueueLockFails {
        return -1;
      }
      queue.Enqueue(Job(line, readTime));
      if fault == JobsLockFails {
        return -1;
      }
      inFlight := inFlight + 1;
      rc := 0;
    }

    /** A worker at the queue: with jobs it takes the head; with none it
        waits while the dispatcher is not done and exits once it is. */
    method TakeJob() returns (d: Dequeued)
      requires Valid()
      modifies queue
      ensures Valid() && queue.Repr <= old(queue.Repr)
      ensures d.Wait? <==> old(queue.Contents) == [] && !done
      ensures d.Exit? <==> old(queue.Contents) == [] && done
      ensures d.Got? ==> d.job == old(queue.Contents)[0] && queue.Contents == old(queue.Contents)[1..]
      ensures !d.Got? ==> queue.Contents == old(queue.Contents)
    {
      queue.EmptyIff();
      if queue.head == null {
        d := if done then Exit else Wait;
      } else {
        var job := queue.Dequeue();
        d := Got(job);
      }
    }

    /** What a worker does with a job it took: copy the line (a failed
        `strdup`, `copyOk` false, skips to the end), parse and run it on the
        counters, record `end - read time` in the statistics, and take the job
        out of the in-flight count. */
    method FinishJob(job: Job, copyOk: bool, end: int) returns (executed: seq<SubCommand>)
      requires Valid()
      modifies this, counters, stats
      ensures Valid()
      ensures unchanged(queue) && unchanged(queue.Repr)
      ensures counters == old(counters) && done == old(done) && startTime == old(startTime)
      ensures numThreads == old(numThreads) && numCounters == old(numCounters) && logEnabled == old(logEnabled)
      ensures executed == JobCommands(job, copyOk)
      ensures counters[..] == AdjustAll(old(counters[..]), executed)
      ensures stats.samples == old(stats.samples) + [end - job.readTime]
      ensures inFlight == old(inFlight) - 1
    {
      // The three effects touch disjoint state; the bookkeeping is done
      // first so that the counters are not carried across later updates.
      inFlight := inFlight - 1;
      stats.Record(end - job.readTime);
      executed := RunCopy(job, copyOk, counters);
    }

    /** One turn of `worker_thread_main`'s loop once the dispatcher is done:
        exit on an empty queue, otherwise take the head job and finish it at
        time `end`. */
    method WorkerStep(end: int, copyOk: bool) returns (exited: bool, job: Job, executed: seq<SubCommand>)
      requires Valid() && done
      modifies this, queue, counters, stats
      ensures Valid() && done
      ensures counters == old(counters) && startTime == old(startTime)
      ensures numThreads == old(numThreads) && numCounters == old(numCounters) && logEnabled == old(logEnabled)
      ensures exited <==> old(queue.Contents) == []
      ensures exited ==> queue.Contents == [] && counters[..] == old(counters[..])
                         && stats.samples == old(stats.samples) && inFlight == old(inFlight)
      ensures !exited ==> job == old(queue.Contents)[0] && queue.Contents == old(queue.Contents)[1..]
      ensures !exited ==> executed == JobCommands(job, copyOk)
      ensures !exited ==> counters[..] == AdjustAll(old(counters[..]), executed)
      ensures !exited ==> stats.samples == old(stats.samples) + [end - job.readTime]
      ensures !exited ==> inFlight == old(inFlight) - 1
    {
      var d := TakeJob();
      if d.Exit? {
        return true, Job([], 0), [];
      }
      job := d.job;
      executed := FinishJob(job, copyOk, end);
      exited := false;
    }

    /** One turn of the drain: the queue holds jobs `i..` of `jobs`, and the
        batches run, the counters and the samples account for jobs `..i`.
        An empty queue exits; otherwise job `i` runs and the same holds for
        `i + 1`. */
    method DrainOne(ghost jobs: seq<Job>, ghost initial: seq<int>, ghost start: seq<int>,
                    i: nat, ends: seq<int>, copyOks: seq<bool>, ran: seq<seq<SubCommand>>)
      returns (exited: bool, ran': seq<seq<SubCommand>>)
      requires Valid() && done
      requires i <= |jobs| <= |ends| && |jobs| <= |copyOks| && queue.Contents == jobs[i..]
      requires ran == Batches(jobs[..i], copyOks)
      requires counters[..] == AfterBatches(initial, ran)
      requires stats.samples == start + Turnarounds(jobs[..i], ends)
      modifies this, queue, counters, stats
      ensures Valid() && done && counters == old(counters) && startTime == old(startTime)
      ensures numThreads == old(numThreads) && numCounters == old(numCounters) && logEnabled == old(logEnabled)
      ensures exited <==> i == |jobs|
      ensures exited ==> queue.Contents == [] && ran' == ran && counters[..] == old(counters[..])
                         && stats.samples == old(stats.samples) && inFlight == old(inFlight)
      ensures !exited ==> queue.Contents == jobs[i + 1..]
      ensures !exited ==> ran' == Batches(jobs[..i + 1], copyOks)
      ensures !exited ==> counters[..] == AfterBatches(initial, ran')
      ensures !exited ==> stats.samples == start + Turnarounds(jobs[..i + 1], ends)
      ensures !exited ==> inFlight == old(inFlight) - 1
    {
      ghost var samples := stats.samples;
      ghost var values := counters[..];
      var end, copyOk := if i < |ends| then ends[i] else 0, if i < |copyOks| then copyOks[i] else false;
      var job, executed;
      exited, job, executed := WorkerStep(end, copyOk);
      if exited {
        return true, ran;
      }
      assert job == jobs[i] && jobs[i..][1..] == jobs[i + 1..];
      BatchesSnoc(jobs, copyOks, i, job, copyOk);
      TurnaroundsSnoc(start, samples, jobs, ends, i, job, end);
      AfterBatchesSnoc(initial, ran, executed);
      ran' := ran + [executed];
    }

    /** A worker once the dispatcher is done: take jobs until the queue is
        empty, then exit. Job `k` finishes at `ends[k]`, and `copyOks[k]`
        says whether its line could be copied. The result holds the commands
        each job executed. */
    method DrainQueue(ends: seq<int>, copyOks: seq<bool>) returns (ran: seq<seq<SubCommand>>)
      requires Valid() && done
      requires |ends| >= |queue.Contents| && |copyOks| >= |queue.Contents|
      modifies this, queue, counters, stats
      ensures Valid() && done && queue.Contents == []
      ensures counters == old(counters) && startTime == old(startTime)
      ensures numThreads == old(numThreads) && numCounters == old(numCounters) && logEnabled == old(logEnabled)
      ensures ran == Batches(old(queue.Contents), copyOks)
      ensures counters[..] == AfterBatches(old(counters[..]), ran)
      ensures stats.samples == old(stats.samples) + Turnarounds(old(queue.Contents), ends)
      ensures inFlight == old(inFlight) - |old(queue.Contents)|
    {
      ghost var jobs := queue.Contents;
      ghost var initial := counters[..];
      ghost var start := stats.samples;
      var i := 0;
      ran := [];
      assert jobs[..0] == [];
      while true
        invariant Valid() && done
        invariant counters == old(counters) && startTime == old(startTime)
        invariant numThreads == old(numThreads) && numCounters == old(numCounters) && logEnabled == old(logEnabled)
        invariant 0 <= i <= |jobs| && queue.Contents == jobs[i..]
        invariant ran == Batches(jobs[..i], copyOks)
        invariant counters[..] == AfterBatches(initial, ran)
        invariant stats.samples == start + Turnarounds(jobs[..i], ends)
        invariant inFlight == old(inFlight) - i
        decreases |jobs| - i
      {
        var exited;
        exited, ran := DrainOne(jobs, initial, start, i, ends, copyOks, ran);
        if exited {
          assert jobs[..i] == jobs;
          break;
        }
        i := i + 1;
      }
    }

    /** `write_stats_file` on the current statistics; see `Stats.Snapshot`. */
    method WriteStats(openOk: bool, lockOk: bool) returns (rc: int, report: Report)
      requires Valid()
      ensures rc == 0 <==> openOk && lockOk
      ensures rc == 0 ==> report == ReportOf(Sum(stats.samples), stats.minTime, stats.maxTime,
                                             |stats.samples|)
    {
      rc, report := stats.Snapshot(openOk, lockOk);
    }
  }
}
