/** The dispatcher's main loop (hw1/src/main.c): each line of the command
    file is cut at its first newline, then skipped when empty, or routed as a
    `dispatcher` directive (sleep, wait, or invalid), a `worker` job to
    enqueue, or an invalid line. At the end of input the dispatcher marks
    itself done, the queued jobs are run to completion and the statistics
    are written. */
module Dispatcher {
  import opened CText
  import opened JobQueue
  import opened TurnaroundStats
  import opened WorkerCommand
  import opened Sys = System

  /** What the dispatcher does with one line. */
  datatype Action =
    | Skip
    | Pause(ms: int)
    | WaitAll
    | Offload
    | InvalidDirective
    | InvalidLine

  /** The line up to its first newline: `line[strcspn(line, "\n")] = '\0'`. */
  function Truncate(line: string): (t: string)
    ensures |t| <= |line| && t == line[..|t|]
    ensures '\n' !in t
    ensures |t| < |line| ==> line[|t|] == '\n'
    decreases |line|
  {
    if line == [] || line[0] == '\n' then []
    else [line[0]] + Truncate(line[1..])
  }

  /** `strstr(s, pat) != NULL`: `pat` occurs somewhere in `s`. */
  predicate Contains(s: string, pat: string)
    decreases |s|
  {
    StartsWith(s, pat) || (s != [] && Contains(s[1..], pat))
  }

  /** `atoi(line + strlen("dispatcher msleep "))`: the number is read at
      offset 18. A shorter line has ended by then; the model reads nothing
      there, as it is when the line was `dispatcher msleep` and a newline. */
  function SleepArgument(t: string): int {
    if 18 <= |t| then Atoi(t[18..]) else 0
  }

  /** The `strncmp`/`strstr` chain on a truncated line: only an empty line
      is skipped, exactly the lines that start with `dispatcher` are
      directives, and exactly those that start with `worker` are enqueued. */
  function Classify(t: string): (a: Action)
    ensures a == Skip <==> t == []
    ensures a.Pause? || a == WaitAll || a == InvalidDirective <==> StartsWith(t, "dispatcher")
    ensures a == Offload <==> StartsWith(t, "worker")
  {
    if t == [] then Skip
    else if StartsWith(t, "dispatcher") then
      if Contains(t, "msleep") then Pause(SleepArgument(t))
      else if Contains(t, "wait") then WaitAll
      else InvalidDirective
    else if StartsWith(t, "worker") then Offload
    else InvalidLine
  }

  /** The action for a raw line. An empty line, or one that starts with a
      newline, is skipped; every other line is not. */
  function ActionOf(line: string): (a: Action)
    ensures a == Skip <==> line == [] || line[0] == '\n'
  {
    Classify(Truncate(line))
  }

  /** What each line of a command file does, line by line. */
  function ActionsOf(lines: seq<string>): (r: seq<Action>)
    ensures |r| == |lines|
  {
    seq(|lines|, k requires 0 <= k < |lines| => ActionOf(lines[k]))
  }

  /** The jobs the dispatcher queues for one line read at `now`: the
      truncated line when it is a worker line whose enqueue got as far as
      linking it. */
  function LineJobs(line: string, now: int, fault: Fault, startTime: int): (js: seq<Job>)
    ensures |js| <= 1
    ensures js != [] <==> ActionOf(line) == Offload && (fault == NoFault || fault == JobsLockFails)
  {
    if ActionOf(line) == Offload && (fault == NoFault || fault == JobsLockFails)
    then [Job(Truncate(line), Elapsed(startTime, now))]
    else []
  }

  /** The jobs queued for a sequence of lines, in input order. */
  function Queued(lines: seq<string>, nows: seq<int>, faults: seq<Fault>, startTime: int): (js: seq<Job>)
    requires |nows| >= |lines| && |faults| >= |lines|
    ensures |js| <= |lines|
    ensures forall k :: 0 <= k < |js| ==> StartsWith(js[k].line, "worker") && '\n' !in js[k].line
    decreases |lines|
  {
    if lines == [] then []
    else
      var n := |lines| - 1;
      Queued(lines[..n], nows, faults, startTime) + LineJobs(lines[n], nows[n], faults[n], startTime)
  }

  /** How many lines were enqueued with no failure. */
  function Accepted(lines: seq<string>, faults: seq<Fault>): (n: nat)
    requires |faults| >= |lines|
    ensures n <= |lines|
    decreases |lines|
  {
    if lines == [] then 0
    else
      var n := |lines| - 1;
      Accepted(lines[..n], faults) + (if ActionOf(lines[n]) == Offload && faults[n] == NoFault then 1 else 0)
  }

  /** No enqueue among the lines fails after linking its job. */
  predicate NoLateFault(lines: seq<string>, faults: seq<Fault>)
    requires |faults| >= |lines|
  {
    forall k :: 0 <= k < |lines| ==> faults[k] != JobsLockFails
  }

  /** Every job counted in flight is a job queued, and the two counts agree
      unless some enqueue failed at the in-flight lock after linking. */
  lemma {:induction false} QueuedCount(lines: seq<string>, nows: seq<int>, faults: seq<Fault>, startTime: int)
    requires |nows| >= |lines| && |faults| >= |lines|
    ensures Accepted(lines, faults) <= |Queued(lines, nows, faults, startTime)|
    ensures NoLateFault(lines, faults) ==> Accepted(lines, faults) == |Queued(lines, nows, faults, startTime)|
    decreases |lines|
  {
    if lines != [] {
      var n := |lines| - 1;
      QueuedCount(lines[..n], nows, faults, startTime);
    }
  }

  /** Text after the first newline never changes what a line does. */
  lemma {:induction false} TruncateIgnoresRest(a: string, b: string)
    requires '\n' !in a
    ensures Truncate(a + "\n" + b) == a
    decreases |a|
  {
    if a != [] {
      assert (a + "\n" + b)[1..] == a[1..] + "\n" + b;
      TruncateIgnoresRest(a[1..], b);
    }
  }

  /** A directive that mentions both `msleep` and `wait` sleeps. */
  lemma MsleepBeforeWait(t: string)
    requires StartsWith(t, "dispatcher") && Contains(t, "msleep") && Contains(t, "wait")
    ensures Classify(t).Pause?
  {
  }

  /** `dispatcher msleep N` sleeps N milliseconds. */
  lemma PauseOfDirective(n: int)
    ensures Classify("dispatcher msleep " + Signed(n)) == Pause(n)
  {
    var t := "dispatcher msleep " + Signed(n);
    assert t[..10] == "dispatcher";
    assert t[11..17] == "msleep";
    assert StartsWith(t[11..], "msleep");
    ContainsAt(t, "msleep", 11);
    assert t[18..] == Signed(n) + [];
    AtoiOfSigned(n, []);
  }

  /** `dispatcher wait` waits. */
  lemma WaitOfDirective()
    ensures !Contains("dispatcher wait", "msleep")
    ensures Classify("dispatcher wait") == WaitAll
  {
    var t := "dispatcher wait";
    assert StartsWith(t, "dispatcher");
    assert StartsWith(t[11..], "wait");
    ContainsAt(t, "wait", 11);
    MissingFirstChar(t, "msleep");
  }

  /** `Contains` is `strstr`: the pattern occurs at some position. */
  lemma {:induction false} ContainsIffOccurs(s: string, pat: string)
    ensures Contains(s, pat) <==> exists i :: 0 <= i <= |s| && StartsWith(s[i..], pat)
    decreases |s|
  {
    if Contains(s, pat) {
      if StartsWith(s, pat) {
        assert s[0..] == s;
      } else {
        ContainsIffOccurs(s[1..], pat);
        var i :| 0 <= i <= |s| - 1 && StartsWith(s[1..][i..], pat);
        assert s[1..][i..] == s[i + 1..];
      }
    }
    if exists i :: 0 <= i <= |s| && StartsWith(s[i..], pat) {
      var i :| 0 <= i <= |s| && StartsWith(s[i..], pat);
      ContainsAt(s, pat, i);
    }
  }

  lemma {:induction false} ContainsAt(s: string, pat: string, i: nat)
    requires i <= |s| && StartsWith(s[i..], pat)
    ensures Contains(s, pat)
    decreases i
  {
    if i > 0 {
      assert s[1..][i - 1..] == s[i..];
      ContainsAt(s[1..], pat, i - 1);
    }
  }

  /** A pattern whose first character does not occur is not found. */
  lemma {:induction false} MissingFirstChar(s: string, pat: string)
    requires pat != [] && pat[0] !in s
    ensures !Contains(s, pat)
    decreases |s|
  {
    if s != [] {
      assert s[0] != pat[0];
      MissingFirstChar(s[1..], pat);
    }
  }

  /** A worker line at column 0 is offloaded. */
  lemma WorkerLineOffloads(t: string)
    requires StartsWith(t, "worker")
    ensures !StartsWith(t, "dispatcher")
    ensures Classify(t) == Offload
  {
    assert t[0] == 'w';
  }

  /** A line that starts with whitespace is neither a directive nor a job. */
  lemma IndentedLineInvalid(t: string)
    requires t != [] && IsSpace(t[0])
    ensures Classify(t) == InvalidLine
  {
  }

  /** `strcspn(line, "\n")` and the write of the terminator: scan to the
      first newline or the end. */
  method CutAtNewline(line: string) returns (t: string)
    ensures t == Truncate(line)
  {
    var i := 0;
    while i < |line| && line[i] != '\n'
      invariant 0 <= i <= |line|
      invariant forall k :: 0 <= k < i ==> line[k] != '\n'
    {
      i := i + 1;
    }
    t := line[..i];
    TruncateAt(line, i);
  }

  /** The text before the first newline, found at `i`. */
  lemma {:induction false} TruncateAt(line: string, i: nat)
    requires i <= |line|
    requires forall k :: 0 <= k < i ==> line[k] != '\n'
    requires i == |line| || line[i] == '\n'
    ensures Truncate(line) == line[..i]
    decreases i
  {
    if i > 0 {
      TruncateAt(line[1..], i - 1);
      assert line[..i] == [line[0]] + line[1..][..i - 1];
    }
  }

  /** One turn of the dispatcher loop for `line`, read at `now`: classify
      it, and hand a worker line, with its read time, to `enqueue_job`,
      whose failure (`fault`) is reported and otherwise ignored. Sleeping and
      waiting change no state here. */
  method DispatchLine(sys: Sys.System, line: string, now: int, fault: Fault) returns (a: Action)
    requires sys.Valid()
    modifies sys, sys.queue.Repr
    ensures sys.Valid() && fresh(sys.queue.Repr - old(sys.queue.Repr))
    ensures a == ActionOf(line)
    ensures sys.counters == old(sys.counters) && sys.done == old(sys.done)
    ensures sys.startTime == old(sys.startTime) && unchanged(sys.stats)
    ensures sys.numThreads == old(sys.numThreads) && sys.numCounters == old(sys.numCounters) && sys.logEnabled == old(sys.logEnabled)
    ensures sys.queue.Contents == old(sys.queue.Contents) + LineJobs(line, now, fault, old(sys.startTime))
    ensures sys.inFlight == old(sys.inFlight) + (if a == Offload && fault == NoFault then 1 else 0)
  {
    var t := CutAtNewline(line);
    a := Classify(t);
    if a == Offload {
      var readTime := Elapsed(sys.startTime, now);
      var _ := sys.EnqueueJob(t, readTime, fault);
    } else {
      assert sys.queue.Contents == old(sys.queue.Contents) + [];
    }
  }

  /** The `while (fgets ...)` loop over the whole command file: line `k` is
      read at `nows[k]`, and `faults[k]` says how its enqueue fares. The
      result is what each line was classified as; the queue gains the worker
      lines in input order. */
  method DispatchAll(sys: Sys.System, lines: seq<string>, nows: seq<int>, faults: seq<Fault>)
    returns (actions: seq<Action>)
    requires sys.Valid()
    requires |nows| >= |lines| && |faults| >= |lines|
    modifies sys, sys.queue.Repr
    ensures sys.Valid() && fresh(sys.queue.Repr - old(sys.queue.Repr))
    ensures |actions| == |lines|
    ensures actions == ActionsOf(lines)
    ensures sys.counters == old(sys.counters) && sys.done == old(sys.done)
    ensures sys.startTime == old(sys.startTime) && unchanged(sys.stats)
    ensures sys.numThreads == old(sys.numThreads) && sys.numCounters == old(sys.numCounters) && sys.logEnabled == old(sys.logEnabled)
    ensures sys.queue.Contents == old(sys.queue.Contents) + Queued(lines, nows, faults, old(sys.startTime))
    ensures sys.inFlight == old(sys.inFlight) + Accepted(lines, faults)
    ensures old(sys.inFlight) == |old(sys.queue.Contents)| && NoLateFault(lines, faults)
            ==> sys.inFlight == |sys.queue.Contents|
  {
    actions := [];
    var i := 0;
    assert lines[..0] == [];
    while i < |lines|
      invariant 0 <= i <= |lines|
      invariant sys.Valid() && fresh(sys.queue.Repr - old(sys.queue.Repr))
      invariant |actions| == i
      invariant actions == ActionsOf(lines[..i])
      invariant sys.counters == old(sys.counters) && sys.done == old(sys.done)
      invariant sys.startTime == old(sys.startTime) && unchanged(sys.stats)
      invariant sys.numThreads == old(sys.numThreads) && sys.numCounters == old(sys.numCounters) && sys.logEnabled == old(sys.logEnabled)
      invariant sys.queue.Contents == old(sys.queue.Contents) + Queued(lines[..i], nows, faults, old(sys.startTime))
      invariant sys.inFlight == old(sys.inFlight) + Accepted(lines[..i], faults)
    {
      actions := DispatchNext(sys, lines, nows, faults, i, actions, old(sys.queue.Contents), old(sys.inFlight),
                              old(sys.startTime));
      i := i + 1;
    }
    assert lines[..i] == lines;
    InFlightMatchesQueue(lines, nows, faults, old(sys.startTime), old(sys.queue.Contents), old(sys.inFlight));
  }

  /** Line `i` of the loop: with the actions, the queue and in-flight
      accounting for the lines before `i`, after dispatching line `i` they
      account for the lines up to and including it. */
  method DispatchNext(sys: Sys.System, lines: seq<string>, nows: seq<int>, faults: seq<Fault>, i: nat,
                      actions: seq<Action>, ghost start: seq<Job>, ghost inFlight0: int, ghost startTime: int)
    returns (actions': seq<Action>)
    requires sys.Valid() && i < |lines| <= |nows| && |lines| <= |faults| && startTime == sys.startTime
    requires actions == ActionsOf(lines[..i])
    requires sys.queue.Contents == start + Queued(lines[..i], nows, faults, startTime)
    requires sys.inFlight == inFlight0 + Accepted(lines[..i], faults)
    modifies sys, sys.queue.Repr
    ensures sys.Valid() && fresh(sys.queue.Repr - old(sys.queue.Repr))
    ensures actions' == ActionsOf(lines[..i + 1])
    ensures sys.counters == old(sys.counters) && sys.done == old(sys.done)
    ensures sys.startTime == old(sys.startTime) && unchanged(sys.stats)
    ensures sys.numThreads == old(sys.numThreads) && sys.numCounters == old(sys.numCounters) && sys.logEnabled == old(sys.logEnabled)
    ensures sys.queue.Contents == start + Queued(lines[..i + 1], nows, faults, startTime)
    ensures sys.inFlight == inFlight0 + Accepted(lines[..i + 1], faults)
  {
    ghost var before := sys.queue.Contents;
    var a := DispatchLine(sys, lines[i], nows[i], faults[i]);
    QueuedSnoc(lines, nows, faults, startTime, i, start, before);
    AcceptedSnoc(lines, faults, i);
    ActionsSnoc(lines, i, actions, a);
    actions' := actions + [a];
  }

  /** The lines keep in-flight equal to the queue length when no enqueue
      failed after linking its job. */
  lemma InFlightMatchesQueue(lines: seq<string>, nows: seq<int>, faults: seq<Fault>, startTime: int,
                             start: seq<Job>, inFlight: int)
    requires |nows| >= |lines| && |faults| >= |lines|
    ensures inFlight == |start| && NoLateFault(lines, faults)
            ==> inFlight + Accepted(lines, faults) == |start + Queued(lines, nows, faults, startTime)|
  {
    QueuedCount(lines, nows, faults, startTime);
  }

  lemma ActionsSnoc(lines: seq<string>, i: nat, actions: seq<Action>, a: Action)
    requires i < |lines| && actions == ActionsOf(lines[..i]) && a == ActionOf(lines[i])
    ensures actions + [a] == ActionsOf(lines[..i + 1])
  {
    var r := ActionsOf(lines[..i + 1]);
    assert forall k :: 0 <= k < i ==> r[k] == actions[k];
  }

  lemma QueuedSnoc(lines: seq<string>, nows: seq<int>, faults: seq<Fault>, startTime: int, i: nat,
                   start: seq<Job>, before: seq<Job>)
    requires i < |lines| <= |nows| && |lines| <= |faults|
    requires before == start + Queued(lines[..i], nows, faults, startTime)
    ensures before + LineJobs(lines[i], nows[i], faults[i], startTime)
            == start + Queued(lines[..i + 1], nows, faults, startTime)
  {
    assert lines[..i + 1][..i] == lines[..i];
    var q := Queued(lines[..i], nows, faults, startTime);
    var l := LineJobs(lines[i], nows[i], faults[i], startTime);
    assert start + q + l == start + (q + l);
  }

  lemma AcceptedSnoc(lines: seq<string>, faults: seq<Fault>, i: nat)
    requires i < |lines| <= |faults|
    ensures Accepted(lines[..i + 1], faults)
            == Accepted(lines[..i], faults) + (if ActionOf(lines[i]) == Offload && faults[i] == NoFault then 1 else 0)
  {
    assert lines[..i + 1][..i] == lines[..i];
  }

  /** The end of input: `g_dispatcher_done = 1`; the workers then run every
      queued job (job `k` ending at `ends[k]`, its line copied when
      `copyOks[k]`) while the dispatcher waits for in-flight to reach 0;
      then `write_stats_file`. The result holds the commands each job
      executed and what `write_stats_file` returns. */
  method EndOfInput(sys: Sys.System, ends: seq<int>, copyOks: seq<bool>, openOk: bool, lockOk: bool)
    returns (ran: seq<seq<SubCommand>>, rc: int, report: Report)
    requires sys.Valid()
    requires |ends| >= |sys.queue.Contents| && |copyOks| >= |sys.queue.Contents|
    modifies sys, sys.queue, sys.counters, sys.stats
    ensures sys.Valid() && sys.done && sys.queue.Contents == []
    ensures sys.counters == old(sys.counters) && sys.startTime == old(sys.startTime)
    ensures sys.numThreads == old(sys.numThreads) && sys.numCounters == old(sys.numCounters) && sys.logEnabled == old(sys.logEnabled)
    ensures ran == Batches(old(sys.queue.Contents), copyOks)
    ensures sys.counters[..] == AfterBatches(old(sys.counters[..]), ran)
    ensures sys.stats.samples == old(sys.stats.samples) + Turnarounds(old(sys.queue.Contents), ends)
    ensures sys.inFlight == old(sys.inFlight) - |old(sys.queue.Contents)|
    ensures old(sys.inFlight) == |old(sys.queue.Contents)| ==> sys.inFlight == 0
    ensures rc == 0 <==> openOk && lockOk
    ensures rc == 0 ==> report == ReportOf(Sum(sys.stats.samples), sys.stats.minTime,
                                           sys.stats.maxTime, |sys.stats.samples|)
  {
    sys.done := true;
    ran := sys.DrainQueue(ends, copyOks);
    rc, report := sys.WriteStats(openOk, lockOk);
  }
}
