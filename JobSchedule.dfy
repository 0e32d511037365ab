/** How a worker turns a job line into the sub-commands it executes
    (hw2 `worker_thread_main`, the parse / find-repeat / execute part):
    strip `worker`, split on `;` into at most 128 pieces with leading
    whitespace trimmed, find the first `repeat N` piece, then run the pieces
    before it once and the pieces after it N times. */
module JobSchedule {
  import opened CText
  import opened WorkerCommand

  /** The capacity of the source's `basic[]` array. */
  const MaxPieces: nat := 128

  /** The text of a job after its leading whitespace, a leading `worker`
      (six characters, with no check of what follows) and the whitespace after. */
  function Body(line: string): (b: string)
    ensures |b| <= |line|
    ensures b == [] || !IsSpace(b[0])
  {
    var t := TrimLeft(line);
    TrimLeft(if StartsWith(t, "worker") then t[6..] else t)
  }

  /** Each string with its leading whitespace removed. */
  function Trimmed(ws: seq<string>): (r: seq<string>)
    ensures |r| == |ws|
    ensures forall k :: 0 <= k < |ws| ==> r[k] == TrimLeft(ws[k])
    decreases |ws|
  {
    if ws == [] then [] else [TrimLeft(ws[0])] + Trimmed(ws[1..])
  }

  /** The pieces a job line is split into: the `strtok(…, ";")` tokens of
      its body, each trimmed on the left, the first 128 of them. */
  function Pieces(line: string): seq<string> {
    Take(Trimmed(Runs(Body(line), {';'})), MaxPieces)
  }

  /** At most 128 pieces, none holding a `;` and none starting with
      whitespace. */
  lemma PiecesShape(line: string)
    ensures |Pieces(line)| <= MaxPieces
    ensures forall k :: 0 <= k < |Pieces(line)| ==>
      ';' !in Pieces(line)[k] && (Pieces(line)[k] == [] || !IsSpace(Pieces(line)[k][0]))
  {
    var runs := Runs(Body(line), {';'});
    var ps := Pieces(line);
    forall k | 0 <= k < |ps|
      ensures ';' !in ps[k] && (ps[k] == [] || !IsSpace(ps[k][0]))
    {
      assert ps[k] == TrimLeft(runs[k]);
      TrimLeftIsSuffix(runs[k]);
      assert NoDelims(runs[k], {';'});
    }
  }

  /** `strtok`'s scan for the end of a token starting at `i`. */
  method TokenEnd(p: string, i: nat) returns (j: nat)
    requires i < |p| && p[i] != ';'
    ensures i < j <= |p|
    ensures j - i == RunEnd(p[i..], {';'})
  {
    j := i;
    while j < |p| && p[j] != ';'
      invariant i <= j <= |p|
      invariant forall k :: i <= k < j ==> p[k] != ';'
    {
      j := j + 1;
    }
    RunEndAt(p, {';'}, i, j);
  }

  /** One token of the loop: the pieces from `i` on are the trimmed token
      `p[i..j]` followed by the pieces from `j` on, so appending the token to
      the pieces before `i` keeps the split. */
  lemma TrimmedRunsStep(p: string, i: nat, j: nat, basic: seq<string>, token: string)
    requires i < j <= |p| && p[i] != ';'
    requires j - i == RunEnd(p[i..], {';'})
    requires token == TrimLeft(p[i..j])
    requires Trimmed(Runs(p, {';'})) == basic + Trimmed(Runs(p[i..], {';'}))
    ensures Trimmed(Runs(p, {';'})) == (basic + [token]) + Trimmed(Runs(p[j..], {';'}))
  {
    TrimmedRunsAt(p, i, j);
    AppendBetween(basic, token, Trimmed(Runs(p[j..], {';'})));
  }

  lemma TrimmedRunsAt(p: string, i: nat, j: nat)
    requires i < j <= |p| && p[i] != ';'
    requires j - i == RunEnd(p[i..], {';'})
    ensures Trimmed(Runs(p[i..], {';'})) == [TrimLeft(p[i..j])] + Trimmed(Runs(p[j..], {';'}))
  {
    RunsAt(p, {';'}, i);
    var rest := Runs(p[j..], {';'});
    assert Runs(p[i..], {';'}) == [p[i..j]] + rest;
    assert ([p[i..j]] + rest)[1..] == rest;
  }

  /** A `;` of the loop: the pieces from `i` on are those from `i + 1` on. */
  lemma TrimmedRunsSkip(p: string, i: nat, basic: seq<string>)
    requires i < |p| && p[i] == ';'
    requires Trimmed(Runs(p, {';'})) == basic + Trimmed(Runs(p[i..], {';'}))
    ensures Trimmed(Runs(p, {';'})) == basic + Trimmed(Runs(p[i + 1..], {';'}))
  {
    RunsAt(p, {';'}, i);
  }

  /** The `strtok` loop filling `basic[]`: step over `;`, take the run up to
      the next `;` or the end, trim its leading whitespace, stop at 128. */
  method Tokenize(p: string) returns (basic: seq<string>)
    ensures basic == Take(Trimmed(Runs(p, {';'})), MaxPieces)
  {
    basic := [];
    var i := 0;
    assert p[0..] == p;
    while i < |p| && |basic| < MaxPieces
      invariant 0 <= i <= |p|
      invariant |basic| <= MaxPieces
      invariant Trimmed(Runs(p, {';'})) == basic + Trimmed(Runs(p[i..], {';'}))
    {
      if p[i] == ';' {
        TrimmedRunsSkip(p, i, basic);
        i := i + 1;
      } else {
        var j := TokenEnd(p, i);
        var token := p[i..j];
        var k := SkipSpaces(token, 0);
        assert token[0..] == token;
        TrimmedRunsStep(p, i, j, basic, token[k..]);
        basic := basic + [token[k..]];
        i := j;
      }
    }
    TakeAll(basic, Trimmed(Runs(p[i..], {';'})), MaxPieces);
  }

  lemma TakeAll<T>(a: seq<T>, b: seq<T>, n: nat)
    requires |a| == n || b == []
    requires |a| <= n
    ensures Take(a + b, n) == a
  {
    if b == [] {
      assert a + b == a;
    } else {
      assert (a + b)[..n] == a;
    }
  }

  /** The job-text part of `worker_thread_main`: skip whitespace, skip a
      leading `worker`, skip whitespace, then tokenize. */
  method SplitJob(line: string) returns (basic: seq<string>)
    ensures basic == Pieces(line)
    ensures |basic| <= MaxPieces
  {
    var i := SkipSpaces(line, 0);
    ghost var t := line[i..];
    if StartsWith(line[i..], "worker") {
      i := i + 6;
      assert line[i..] == t[6..];
    }
    i := SkipSpaces(line, i);
    assert line[i..] == Body(line);
    basic := Tokenize(line[i..]);
  }

  /** Round trip: a job written as `worker ` and up to 128 `;`-separated
      pieces (non-empty, without `;`, the first not starting with whitespace)
      is split back into those pieces, each trimmed on the left. */
  lemma PiecesOfJob(ws: seq<string>)
    requires 0 < |ws| <= MaxPieces
    requires forall k :: 0 <= k < |ws| ==> ws[k] != [] && NoDelims(ws[k], {';'})
    requires !IsSpace(ws[0][0])
    ensures Pieces("worker " + JoinWith(ws, ';')) == Trimmed(ws)
  {
    var body := JoinWith(ws, ';');
    JoinWithStart(ws, ';');
    BodyOfWorker(body);
    RunsOfJoin(ws, ';', {';'});
    var t := Trimmed(ws);
    assert Take(t, MaxPieces) == t;
  }

  /** `worker `, then a body not starting with whitespace: the body is what
      remains after the keyword is stripped. */
  lemma BodyOfWorker(body: string)
    requires body != [] && !IsSpace(body[0])
    ensures Body("worker " + body) == body
  {
    var line := "worker " + body;
    assert line[0] == 'w' && TrimLeft(line) == line;
    assert line[..6] == "worker";
    assert line[6..] == [' '] + body;
    TrimLeftSpaces([' '], body);
  }

  /** A join starts with the first word. */
  lemma JoinWithStart(ws: seq<string>, sep: char)
    requires |ws| > 0 && ws[0] != []
    ensures JoinWith(ws, sep) != [] && JoinWith(ws, sep)[0] == ws[0][0]
  {
  }

  /** A piece is a repeat directive when, past its whitespace, it is the
      keyword `repeat` followed by the end or whitespace. */
  predicate IsRepeat(piece: string) {
    IsKeyword(TrimLeft(piece), "repeat")
  }

  /** The repeat count: `atoi` of what follows the keyword. Text after the
      number is ignored. */
  function RepeatCount(piece: string): int
    requires IsRepeat(piece)
  {
    Atoi(TrimLeft(piece)[6..])
  }

  /** The index of the first repeat piece, or -1 when there is none. */
  function RepeatIndex(basic: seq<string>): (k: int)
    ensures -1 <= k < |basic|
    ensures k == -1 <==> forall i :: 0 <= i < |basic| ==> !IsRepeat(basic[i])
    ensures k >= 0 ==> IsRepeat(basic[k]) && forall i :: 0 <= i < k ==> !IsRepeat(basic[i])
    decreases |basic|
  {
    if basic == [] then -1
    else if IsRepeat(basic[0]) then 0
    else
      var k := RepeatIndex(basic[1..]);
      if k == -1 then -1 else k + 1
  }

  /** The `for` loop searching for `repeat`; the count defaults to 1. */
  method FindRepeat(basic: seq<string>) returns (repeatIndex: int, repeatTimes: int)
    ensures repeatIndex == RepeatIndex(basic)
    ensures repeatIndex < 0 ==> repeatTimes == 1
    ensures repeatIndex >= 0 ==> repeatTimes == RepeatCount(basic[repeatIndex])
  {
    repeatIndex, repeatTimes := -1, 1;
    var i := 0;
    while i < |basic|
      invariant 0 <= i <= |basic|
      invariant forall j :: 0 <= j < i ==> !IsRepeat(basic[j])
    {
      var start := SkipSpaces(basic[i], 0);
      var c := basic[i][start..];
      if IsKeyword(c, "repeat") {
        repeatTimes := ReadArgument(c, 6);
        repeatIndex := i;
        return;
      }
      i := i + 1;
    }
  }

  /** The pieces `s`, `n` times over; nothing when `n <= 0`. */
  function Repeated(s: seq<string>, n: int): (r: seq<string>)
    decreases n
  {
    if n <= 0 then [] else Repeated(s, n - 1) + s
  }

  /** The order in which a job's pieces are executed. */
  function Schedule(basic: seq<string>): seq<string> {
    var k := RepeatIndex(basic);
    if k < 0 then basic else basic[..k] + Repeated(basic[k + 1..], RepeatCount(basic[k]))
  }

  lemma {:induction false} RepeatedLength(s: seq<string>, n: int)
    ensures |Repeated(s, n)| == if n <= 0 then 0 else n * |s|
    decreases n
  {
    if n > 0 {
      RepeatedLength(s, n - 1);
      assert (n - 1) * |s| + |s| == n * |s|;
    }
  }

  /** Round `r` of a repetition holds the pieces in their order. */
  lemma {:induction false} RepeatedAt(s: seq<string>, n: int, r: nat, j: nat)
    requires r < n && j < |s|
    ensures r * |s| + j < |Repeated(s, n)|
    ensures Repeated(s, n)[r * |s| + j] == s[j]
    decreases n
  {
    var m := |s|;
    RepeatedLength(s, n);
    RepeatedLength(s, n - 1);
    MulStep(n - 1, m);
    if r < n - 1 {
      RepeatedAt(s, n - 1, r, j);
    } else {
      assert (Repeated(s, n - 1) + s)[(n - 1) * m + j] == s[j];
    }
  }

  lemma MulStep(a: int, m: nat)
    requires 0 <= a
    ensures (a + 1) * m == a * m + m
  {
  }

  /** Without a repeat piece every piece runs once, in order. */
  lemma ScheduleWithoutRepeat(basic: seq<string>)
    requires forall i :: 0 <= i < |basic| ==> !IsRepeat(basic[i])
    ensures Schedule(basic) == basic
  {
  }

  /** The first repeat piece decides the schedule. */
  lemma ScheduleAtRepeat(basic: seq<string>, k: nat)
    requires k < |basic| && IsRepeat(basic[k])
    requires forall i :: 0 <= i < k ==> !IsRepeat(basic[i])
    ensures Schedule(basic) == basic[..k] + Repeated(basic[k + 1..], RepeatCount(basic[k]))
  {
    var f := RepeatIndex(basic);
    assert f != -1;
    assert !(f < k) && !(k < f);
  }

  /** With a repeat piece at k and count N, the schedule is the pieces before
      k once, then N rounds of the pieces after k; the repeat piece itself is
      never executed and a count of 0 or less runs no round. */
  lemma ScheduleWithRepeat(basic: seq<string>, k: nat)
    requires k < |basic| && IsRepeat(basic[k])
    requires forall i :: 0 <= i < k ==> !IsRepeat(basic[i])
    ensures var n := RepeatCount(basic[k]);
      |Schedule(basic)| == k + (if n <= 0 then 0 else n * (|basic| - k - 1))
    ensures forall i :: 0 <= i < k ==> Schedule(basic)[i] == basic[i]
  {
    var tail := basic[k + 1..];
    var rep := Repeated(tail, RepeatCount(basic[k]));
    ScheduleAtRepeat(basic, k);
    RepeatedLength(tail, RepeatCount(basic[k]));
    assert |tail| == |basic| - k - 1;
    assert forall i :: 0 <= i < k ==> (basic[..k] + rep)[i] == basic[i];
  }

  /** A job whose first piece is `repeat N` followed by more text runs only
      the later pieces, N rounds: the count is read with `atoi`, so the text
      after the number (`increment 0` in `repeat 3 increment 0`) is dropped
      and never executed. */
  lemma RepeatDropsItsText(n: int, rest: string, tail: seq<string>)
    requires rest == [] || !IsDigit(rest[0])
    ensures Schedule(["repeat " + Signed(n) + rest] + tail) == Repeated(tail, n)
  {
    var basic := ["repeat " + Signed(n) + rest] + tail;
    RepeatPiece(n, rest);
    ScheduleAtRepeat(basic, 0);
    assert basic[1..] == tail && basic[..0] == [];
  }

  /** `repeat N` followed by non-digit text is a repeat piece with count N. */
  lemma RepeatPiece(n: int, rest: string)
    requires rest == [] || !IsDigit(rest[0])
    ensures IsRepeat("repeat " + Signed(n) + rest)
    ensures RepeatCount("repeat " + Signed(n) + rest) == n
  {
    var d := Signed(n) + rest;
    var p := "repeat " + d;
    assert "repeat " + Signed(n) + rest == p;
    assert p[0] == 'r';
    assert p[..6] == "repeat" && p[6] == ' ' && p[6..] == [' '] + d;
    CountAfterSpace(n, rest);
  }

  lemma CountAfterSpace(n: int, rest: string)
    requires rest == [] || !IsDigit(rest[0])
    ensures Atoi([' '] + (Signed(n) + rest)) == n
  {
    var d := Signed(n) + rest;
    assert d[0] == Signed(n)[0];
    TrimLeftSpaces([' '], d);
    AtoiSkipsSpaces([' '] + d);
    AtoiOfSigned(n, rest);
  }

  lemma {:induction false} ParseAllConcat(a: seq<string>, b: seq<string>)
    ensures ParseAll(a + b) == ParseAll(a) + ParseAll(b)
    decreases |b|
  {
    if b == [] {
      assert a + b == a;
    } else {
      var b' := b[..|b| - 1];
      assert (a + b)[..|a + b| - 1] == a + b';
      ParseAllConcat(a, b');
    }
  }

  lemma {:induction false} AdjustAllConcat(values: seq<int>, a: seq<SubCommand>, b: seq<SubCommand>)
    ensures AdjustAll(values, a + b) == AdjustAll(AdjustAll(values, a), b)
    decreases |b|
  {
    if b == [] {
      assert a + b == a;
    } else {
      var b' := b[..|b| - 1];
      assert (a + b)[..|a + b| - 1] == a + b';
      AdjustAllConcat(values, a, b');
    }
  }

  /** One of the source's `for` loops over consecutive pieces: each piece
      `basic[lo]`, …, `basic[hi - 1]` goes through `execute_single_command`. */
  method RunRange(basic: seq<string>, lo: nat, hi: nat, counters: array<int>) returns (executed: seq<SubCommand>)
    requires lo <= hi <= |basic|
    modifies counters
    ensures executed == ParseAll(basic[lo..hi])
    ensures counters[..] == AdjustAll(old(counters[..]), executed)
  {
    executed := [];
    var i := lo;
    while i < hi
      invariant lo <= i <= hi
      invariant executed == ParseAll(basic[lo..i])
      invariant counters[..] == AdjustAll(old(counters[..]), executed)
    {
      var c := ExecuteSingleCommand(basic[i], counters);
      ParseAllRangeStep(basic, lo, i, executed, c);
      AdjustAllAppend(old(counters[..]), executed, c);
      executed := executed + [c];
      i := i + 1;
    }
  }

  lemma ParseAllRangeStep(basic: seq<string>, lo: nat, i: nat, executed: seq<SubCommand>, c: SubCommand)
    requires lo <= i < |basic|
    requires executed == ParseAll(basic[lo..i]) && c == Parse(basic[i])
    ensures executed + [c] == ParseAll(basic[lo..i + 1])
  {
    assert basic[lo..i + 1] == basic[lo..i] + [basic[i]];
    ParseAllAppend(basic[lo..i], basic[i]);
  }

  /** The `repeat` loop: `times` rounds of the pieces after `k`; no round
      when `times <= 0`. */
  method RunRounds(basic: seq<string>, k: nat, times: int, counters: array<int>) returns (executed: seq<SubCommand>)
    requires k < |basic|
    modifies counters
    ensures executed == ParseAll(Repeated(basic[k + 1..], times))
    ensures counters[..] == AdjustAll(old(counters[..]), executed)
  {
    ghost var tail := basic[k + 1..];
    executed := [];
    var r := 0;
    while r < times
      invariant 0 <= r <= if times > 0 then times else 0
      invariant executed == ParseAll(Repeated(tail, r))
      invariant counters[..] == AdjustAll(old(counters[..]), executed)
    {
      var round := RunRange(basic, k + 1, |basic|, counters);
      RoundStep(basic, k, r, executed, round);
      AdjustAllConcat(old(counters[..]), executed, round);
      executed := executed + round;
      r := r + 1;
    }
  }

  /** One more round appends the commands of the pieces after `k`. */
  lemma RoundStep(basic: seq<string>, k: nat, r: nat, executed: seq<SubCommand>, round: seq<SubCommand>)
    requires k < |basic|
    requires executed == ParseAll(Repeated(basic[k + 1..], r))
    requires round == ParseAll(basic[k + 1..|basic|])
    ensures executed + round == ParseAll(Repeated(basic[k + 1..], r + 1))
  {
    assert basic[k + 1..|basic|] == basic[k + 1..];
    ParseAllConcat(Repeated(basic[k + 1..], r), basic[k + 1..]);
  }

  /** The execute part of `worker_thread_main`: each piece goes through
      `execute_single_command` in schedule order; the result lists what each
      executed piece was recognised as. */
  method RunPieces(basic: seq<string>, counters: array<int>) returns (executed: seq<SubCommand>)
    modifies counters
    ensures executed == ParseAll(Schedule(basic))
    ensures counters[..] == AdjustAll(old(counters[..]), executed)
  {
    var repeatIndex, repeatTimes := FindRepeat(basic);
    if repeatIndex == -1 {
      executed := RunRange(basic, 0, |basic|, counters);
      assert basic[0..|basic|] == basic;
    } else {
      var once := RunRange(basic, 0, repeatIndex, counters);
      var rounds := RunRounds(basic, repeatIndex, repeatTimes, counters);
      ghost var before := basic[..repeatIndex];
      ghost var rep := Repeated(basic[repeatIndex + 1..], repeatTimes);
      assert basic[0..repeatIndex] == before;
      assert Schedule(basic) == before + rep;
      ParseAllConcat(before, rep);
      AdjustAllConcat(old(counters[..]), once, rounds);
      executed := once + rounds;
    }
  }

  /** Parsing and executing one job line. */
  method RunJob(line: string, counters: array<int>) returns (executed: seq<SubCommand>)
    modifies counters
    ensures executed == ParseAll(Schedule(Pieces(line)))
    ensures counters[..] == AdjustAll(old(counters[..]), executed)
  {
    var basic := SplitJob(line);
    executed := RunPieces(basic, counters);
  }
}
