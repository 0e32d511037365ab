/** The turnaround statistics (`Stats` in hw1/header/func.h): the running
    sum, minimum, maximum and count of job turnaround times, updated once per
    finished job, and the snapshot `write_stats_file` reports. Times are whole
    milliseconds; the 64-bit `long long` range is not modelled. */
module TurnaroundStats {

  /** The sum of the samples. */
  function Sum(s: seq<int>): int
    decreases |s|
  {
    if s == [] then 0 else Sum(s[..|s| - 1]) + s[|s| - 1]
  }

  /** The smallest sample. */
  function MinOf(s: seq<int>): (m: int)
    requires |s| > 0
    ensures m in s
    ensures forall i :: 0 <= i < |s| ==> m <= s[i]
    decreases |s|
  {
    if |s| == 1 then s[0]
    else
      var m := MinOf(s[..|s| - 1]);
      assert forall i :: 0 <= i < |s| - 1 ==> s[..|s| - 1][i] == s[i];
      if s[|s| - 1] < m then s[|s| - 1] else m
  }

  /** The largest sample. */
  function MaxOf(s: seq<int>): (m: int)
    requires |s| > 0
    ensures m in s
    ensures forall i :: 0 <= i < |s| ==> s[i] <= m
    decreases |s|
  {
    if |s| == 1 then s[0]
    else
      var m := MaxOf(s[..|s| - 1]);
      assert forall i :: 0 <= i < |s| - 1 ==> s[..|s| - 1][i] == s[i];
      if s[|s| - 1] > m then s[|s| - 1] else m
  }

  /** One more sample: the sum grows by it. */
  lemma SumAppend(s: seq<int>, t: int)
    ensures Sum(s + [t]) == Sum(s) + t
  {
    assert (s + [t])[..|s|] == s;
  }

  /** One more sample: the new minimum is the old one or the sample. */
  lemma MinAppend(s: seq<int>, t: int)
    requires |s| > 0
    ensures MinOf(s + [t]) == if t < MinOf(s) then t else MinOf(s)
  {
    assert (s + [t])[..|s|] == s;
  }

  /** One more sample: the new maximum is the old one or the sample. */
  lemma MaxAppend(s: seq<int>, t: int)
    requires |s| > 0
    ensures MaxOf(s + [t]) == if t > MaxOf(s) then t else MaxOf(s)
  {
    assert (s + [t])[..|s|] == s;
  }

  /** The report `write_stats_file` prints, apart from the total running time:
      the sum, the minimum and maximum shown as 0 when no job has finished,
      and the average (a `double` in the source, a real here). */
  datatype Report = Report(sum: int, minTime: int, maxTime: int, count: int, average: real)

  /** The values printed for the fields the stats lock protected. */
  function ReportOf(sum: int, minTime: int, maxTime: int, count: int): (r: Report)
    ensures r.sum == sum && r.count == count
    ensures count > 0 ==> r.minTime == minTime && r.maxTime == maxTime
    ensures count > 0 ==> r.average * (count as real) == sum as real
    ensures count <= 0 ==> r.minTime == 0 && r.maxTime == 0 && r.average == 0.0
  {
    Report(sum, if count > 0 then minTime else 0, if count > 0 then maxTime else 0,
           count, if count > 0 then (sum as real) / (count as real) else 0.0)
  }

  /** The report over a set of samples: all zeros for none; otherwise the
      bounds lie among the samples and enclose the average. */
  lemma ReportOfSamples(s: seq<int>)
    ensures var r := ReportOf(Sum(s), if |s| > 0 then MinOf(s) else 0,
                              if |s| > 0 then MaxOf(s) else 0, |s|);
      (s == [] ==> r == Report(0, 0, 0, 0, 0.0)) &&
      (s != [] ==> r.minTime in s && r.maxTime in s && r.minTime <= r.maxTime &&
                   (r.minTime as real) <= r.average <= (r.maxTime as real))
  {
    if s != [] {
      SumAtLeast(s, MinOf(s));
      SumAtMost(s, MaxOf(s));
      AverageBounds(Sum(s), MinOf(s), MaxOf(s), |s|);
      assert MinOf(s) <= s[0] <= MaxOf(s);
    }
  }

  /** An average of values between `lo` and `hi` lies between them too. */
  lemma AverageBounds(sum: int, lo: int, hi: int, n: nat)
    requires n > 0 && lo * n <= sum <= hi * n
    ensures (lo as real) <= (sum as real) / (n as real) <= (hi as real)
  {
    var a := (sum as real) / (n as real);
    assert a * (n as real) == sum as real;
    assert (lo as real) * (n as real) == (lo * n) as real;
    assert (hi as real) * (n as real) == (hi * n) as real;
  }

  lemma MulSucc(x: int, n: nat)
    ensures x * (n + 1) == x * n + x
  {
  }

  /** Samples all at least `lo` sum to at least `count` times `lo`. */
  lemma {:induction false} SumAtLeast(s: seq<int>, lo: int)
    requires forall i :: 0 <= i < |s| ==> lo <= s[i]
    ensures lo * |s| <= Sum(s)
    decreases |s|
  {
    if s != [] {
      var p := s[..|s| - 1];
      assert s == p + [s[|s| - 1]];
      SumAtLeast(p, lo);
      SumAppend(p, s[|s| - 1]);
      MulSucc(lo, |p|);
    }
  }

  /** Samples all at most `hi` sum to at most `count` times `hi`. */
  lemma {:induction false} SumAtMost(s: seq<int>, hi: int)
    requires forall i :: 0 <= i < |s| ==> s[i] <= hi
    ensures Sum(s) <= hi * |s|
    decreases |s|
  {
    if s != [] {
      var p := s[..|s| - 1];
      assert s == p + [s[|s| - 1]];
      SumAtMost(p, hi);
      SumAppend(p, s[|s| - 1]);
      MulSucc(hi, |p|);
    }
  }

  /** `g_stats`: the four fields the workers update under the stats lock,
      and the turnaround times recorded so far. */
  class Stats {
    var sum: int
    var minTime: int
    var maxTime: int
    var count: int
    ghost var samples: seq<int>

    /** The fields summarise the samples: the count and sum always, the
        bounds once there is a sample. */
    ghost predicate Valid()
      reads this
    {
      count == |samples| && sum == Sum(samples) &&
      (count > 0 ==> minTime == MinOf(samples) && maxTime == MaxOf(samples))
    }

    /** A zeroed `Stats`, as `init_system` leaves it. */
    constructor ()
      ensures Valid() && samples == []
      ensures sum == 0 && minTime == 0 && maxTime == 0 && count == 0
    {
      sum, minTime, maxTime, count := 0, 0, 0, 0;
      samples := [];
    }

    /** The zeroing in `init_system`: all four fields set to 0. */
    method Reset()
      modifies this
      ensures Valid() && samples == []
      ensures sum == 0 && minTime == 0 && maxTime == 0 && count == 0
    {
      sum, minTime, maxTime, count := 0, 0, 0, 0;
      samples := [];
    }

    /** Recording one turnaround time: add it to the sum; the first sample
        sets both bounds, a later one widens them; then count it. */
    method Record(t: int)
      requires Valid()
      modifies this
      ensures Valid() && samples == old(samples) + [t]
      ensures sum == old(sum) + t && count == old(count) + 1
      ensures old(count) == 0 ==> minTime == t && maxTime == t
      ensures old(count) > 0 ==> minTime == (if t < old(minTime) then t else old(minTime))
      ensures old(count) > 0 ==> maxTime == (if t > old(maxTime) then t else old(maxTime))
    {
      SumAppend(samples, t);
      if count == 0 {
        minTime := t;
        maxTime := t;
        assert samples + [t] == [t];
      } else {
        MinAppend(samples, t);
        MaxAppend(samples, t);
        if t < minTime {
          minTime := t;
        }
        if t > maxTime {
          maxTime := t;
        }
      }
      sum := sum + t;
      count := count + 1;
      samples := samples + [t];
    }

    /** With samples, the bounds are among them and enclose every one. */
    lemma BoundsAreSamples()
      requires Valid() && count > 0
      ensures minTime in samples && maxTime in samples && minTime <= maxTime
      ensures forall i :: 0 <= i < |samples| ==> minTime <= samples[i] <= maxTime
    {
      assert minTime <= samples[0] <= maxTime;
    }

    /** The snapshot `write_stats_file` takes: the fields copied under the
        lock and turned into a report. A failed `fopen` or a failed lock
        (`openOk`, `lockOk`) returns -1 and reports nothing. */
    method Snapshot(openOk: bool, lockOk: bool) returns (rc: int, report: Report)
      requires Valid()
      ensures rc == 0 <==> openOk && lockOk
      ensures rc != 0 ==> rc == -1
      ensures rc == 0 ==> report == ReportOf(Sum(samples), minTime, maxTime, |samples|)
      ensures rc == 0 && samples == [] ==> report == Report(0, 0, 0, 0, 0.0)
      ensures rc == 0 && samples != [] ==> report.minTime in samples && report.maxTime in samples
    {
      report := Report(0, 0, 0, 0, 0.0);
      if !openOk {
        return -1, report;
      }
      if !lockOk {
        return -1, report;
      }
      var s, lo, hi, n := sum, minTime, maxTime, count;
      ReportOfSamples(samples);
      report := ReportOf(s, lo, hi, n);
      rc := 0;
    }
  }
}
