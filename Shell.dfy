/** The shell's command-line handling and background-job table
    (tests/src/func.c): `split2words` cuts a line into words in place,
    `parse_command` builds an argv-style `Command` and strips a trailing `&`,
    `handle_cd` checks its arguments, and a fixed array of job slots records
    the background commands. Pointers into the line buffer are modelled as
    indices, with `Null` for `NULL`; `fork` and `waitpid` results are inputs. */
module Shell {
  import opened CText

  /** `TEXTSIZE` and `WORDSIZE` in tests/header/func.h. */
  const TextSize := 200
  const WordSize := 50

  /** A null pointer. */
  const Null := -1

  /** The characters that end a word: the split loop stops at space, tab
      and the terminating NUL. */
  const Separators: set<char> := {' ', '\t', '\0'}

  predicate IsBlank(c: char) { c == ' ' || c == '\t' }

  /** `b` holds a C string whose content is `b[..len]`. */
  predicate IsCString(b: seq<char>, len: nat) {
    len < |b| && b[len] == '\0' && forall k :: 0 <= k < len ==> b[k] != '\0'
  }

  /** The words `split2words` finds in a line: its maximal runs of
      characters other than space and tab, at most `WordSize` of them. */
  function Words(line: string): (ws: seq<string>)
    ensures |ws| <= WordSize
  {
    Take(Runs(line, Separators), WordSize)
  }

  /** The NUL-terminated string at index `p` of `b` is `w`. */
  predicate Holds(b: seq<char>, p: int, w: string) {
    0 <= p && p + |w| < |b| && b[p..p + |w|] == w && b[p + |w|] == '\0'
  }

  /** `while (*p == ' ' || *p == '\t') p++;` from index `p` of the buffer,
      whose unchanged part from `p` on still shows the line `c`. */
  method SkipBlanks(buf: array<char>, ghost c: string, p: nat) returns (q: nat)
    requires p <= |c| < buf.Length && buf[|c|] == '\0'
    requires forall k :: p <= k < |c| ==> buf[k] == c[k]
    ensures p <= q <= |c|
    ensures forall k :: p <= k < q ==> IsBlank(c[k])
    ensures q == |c| || !IsBlank(c[q])
    ensures Runs(c[p..], Separators) == Runs(c[q..], Separators)
  {
    q := p;
    while buf[q] == ' ' || buf[q] == '\t'
      invariant p <= q <= |c|
      invariant forall k :: p <= k < q ==> IsBlank(c[k])
      invariant Runs(c[p..], Separators) == Runs(c[q..], Separators)
      decreases |c| - q
    {
      RunsAt(c, Separators, q);
      q := q + 1;
    }
  }

  /** `while (*p != ' ' && *p != '\t' && *p != '\0') p++;`: the end of the
      word that starts at `p`. */
  method ScanWord(buf: array<char>, ghost c: string, p: nat) returns (e: nat)
    requires p <= |c| < buf.Length && buf[|c|] == '\0'
    requires forall k :: p <= k < |c| ==> buf[k] == c[k] && c[k] != '\0'
    ensures p <= e <= |c|
    ensures forall k :: p <= k < e ==> c[k] !in Separators
    ensures e == |c| || IsBlank(c[e])
    ensures buf[e] == '\0' <==> e == |c|
  {
    e := p;
    while buf[e] != ' ' && buf[e] != '\t' && buf[e] != '\0'
      invariant p <= e <= |c|
      invariant forall k :: p <= k < e ==> c[k] !in Separators
      decreases |c| - e
    {
      e := e + 1;
    }
  }

  /** One word found: the runs of the line are those found so far, this
      word, and the runs after it. */
  lemma WordStep(c: string, p: nat, e: nat, found: seq<string>)
    requires p < e <= |c|
    requires forall k :: p <= k < e ==> c[k] !in Separators
    requires e == |c| || c[e] in Separators
    requires Runs(c, Separators) == found + Runs(c[p..], Separators)
    ensures Runs(c, Separators) == (found + [c[p..e]]) + Runs(c[e..], Separators)
  {
    RunAt(c, p, e);
    AppendBetween(found, c[p..e], Runs(c[e..], Separators));
  }

  lemma RunAt(c: string, p: nat, e: nat)
    requires p < e <= |c|
    requires forall k :: p <= k < e ==> c[k] !in Separators
    requires e == |c| || c[e] in Separators
    ensures Runs(c[p..], Separators) == [c[p..e]] + Runs(c[e..], Separators)
  {
    RunsAt(c, Separators, p);
    RunEndAt(c, Separators, p, e);
  }

  /** The first `|found|` runs, when there are no more or `found` has
      `WordSize` of them, are exactly the words. */
  lemma WordsOf(c: string, found: seq<string>, rest: seq<string>)
    requires Runs(c, Separators) == found + rest
    requires |found| <= WordSize && (rest == [] || |found| == WordSize)
    ensures Words(c) == found
  {
    assert (found + rest)[..|found|] == found;
  }

  /** The NUL-terminated string at `starts[j]` of `b` is `ws[j]`, for
      every `j`. */
  predicate Stored(b: seq<char>, starts: seq<int>, ws: seq<string>) {
    |starts| == |ws| && forall j :: 0 <= j < |ws| ==> Holds(b, starts[j], ws[j])
  }

  /** The buffer `b` is the line buffer `b0` with some blanks before `p`
      overwritten by NUL, and untouched from `p` on. */
  predicate Edited(b0: seq<char>, b: seq<char>, p: nat) {
    |b| == |b0| &&
    forall k :: 0 <= k < |b| ==>
      (p <= k ==> b[k] == b0[k]) && (b[k] == b0[k] || (IsBlank(b0[k]) && b[k] == '\0'))
  }

  /** Word `j` of `found` starts at `starts[j]` in the line `c` and ends
      before `p`. */
  predicate Located(c: string, starts: seq<int>, found: seq<string>, p: nat) {
    |starts| == |found| &&
    forall j :: 0 <= j < |found| ==>
      0 <= starts[j] && starts[j] + |found[j]| < p && starts[j] + |found[j]| <= |c| &&
      c[starts[j]..starts[j] + |found[j]|] == found[j]
  }

  /** Every word found is followed by a NUL in `b`. */
  predicate Terminated(b: seq<char>, starts: seq<int>, found: seq<string>) {
    |starts| == |found| &&
    forall j :: 0 <= j < |found| ==> 0 <= starts[j] + |found[j]| < |b| && b[starts[j] + |found[j]|] == '\0'
  }

  /** Overwriting the blank at `e` with NUL ends the word `c[p..e]`. */
  lemma CutStep(b0: seq<char>, b: seq<char>, c: string, starts: seq<int>, found: seq<string>, p: nat, e: nat, q: nat)
    requires |c| < |b0| && c == b0[..|c|] && p < e < q <= |c| && IsBlank(c[e])
    requires Edited(b0, b, p) && Located(c, starts, found, p) && Terminated(b, starts, found)
    ensures Edited(b0, b[e := '\0'], q)
    ensures Located(c, starts + [p], found + [c[p..e]], q)
    ensures Terminated(b[e := '\0'], starts + [p], found + [c[p..e]])
  {
    var b', starts', found' := b[e := '\0'], starts + [p], found + [c[p..e]];
    forall k | 0 <= k < |b'| && q <= k
      ensures b'[k] == b0[k]
    {
    }
    forall j | 0 <= j < |found'|
      ensures b'[starts'[j] + |found'[j]|] == '\0'
    {
      if j < |found| {
        assert starts'[j] == starts[j] && found'[j] == found[j];
      }
    }
    forall j | 0 <= j < |found'|
      ensures starts'[j] + |found'[j]| < q && c[starts'[j]..starts'[j] + |found'[j]|] == found'[j]
    {
      if j < |found| {
        assert starts'[j] == starts[j] && found'[j] == found[j];
      }
    }
  }

  /** What holds up to `p` holds up to any later `q`. */
  lemma Widen(b0: seq<char>, b: seq<char>, c: string, starts: seq<int>, found: seq<string>, p: nat, q: nat)
    requires p <= q
    requires Edited(b0, b, p) && Located(c, starts, found, p)
    ensures Edited(b0, b, q) && Located(c, starts, found, q)
  {
  }

  /** The last word, ended by the NUL that ends the line. */
  lemma LastStep(b0: seq<char>, b: seq<char>, c: string, starts: seq<int>, found: seq<string>, p: nat, e: nat)
    requires p < e == |c| < |b0| && c == b0[..|c|] && b0[|c|] == '\0'
    requires Edited(b0, b, p) && Located(c, starts, found, p) && Terminated(b, starts, found)
    ensures Edited(b0, b, e + 1)
    ensures Located(c, starts + [p], found + [c[p..e]], e + 1)
    ensures Terminated(b, starts + [p], found + [c[p..e]])
  {
    var starts', found' := starts + [p], found + [c[p..e]];
    forall j | 0 <= j < |found'|
      ensures b[starts'[j] + |found'[j]|] == '\0'
    {
      if j < |found| {
        assert starts'[j] == starts[j] && found'[j] == found[j];
      }
    }
    forall j | 0 <= j < |found'|
      ensures starts'[j] + |found'[j]| <= |c| && c[starts'[j]..starts'[j] + |found'[j]|] == found'[j]
    {
      if j < |found| {
        assert starts'[j] == starts[j] && found'[j] == found[j];
      }
    }
  }

  /** The runs found so far hold no separator. */
  lemma FoundNoDelims(c: string, found: seq<string>, rest: seq<string>)
    requires Runs(c, Separators) == found + rest
    ensures forall j :: 0 <= j < |found| ==> NoDelims(found[j], Separators)
  {
    var r := Runs(c, Separators);
    forall j | 0 <= j < |found|
      ensures NoDelims(found[j], Separators)
    {
      assert found[j] == r[j];
    }
  }

  /** The words are still in the buffer, each now ended by a NUL: the
      buffer differs from the line only where a blank became a NUL. */
  lemma StoredWords(b0: seq<char>, b: seq<char>, c: string, starts: seq<int>, found: seq<string>, p: nat,
                     rest: seq<string>)
    requires |c| < |b0| && c == b0[..|c|]
    requires Edited(b0, b, p) && Located(c, starts, found, p) && Terminated(b, starts, found)
    requires Runs(c, Separators) == found + rest
    ensures Stored(b, starts, found)
  {
    FoundNoDelims(c, found, rest);
    forall k | 0 <= k < |b|
      ensures b[k] == b0[k] || (IsBlank(b0[k]) && b[k] == '\0')
    {
    }
    forall j | 0 <= j < |found|
      ensures Holds(b, starts[j], found[j])
    {
      var s, w := starts[j], found[j];
      assert 0 <= s && s + |w| <= |c| && c[s..s + |w|] == w;
      assert b[s + |w|] == '\0';
      StoredWord(b0, b, c, s, w);
    }
  }

  /** One word of the line, between blanks that may have become NULs, is
      unchanged in the buffer. */
  lemma StoredWord(b0: seq<char>, b: seq<char>, c: string, s: int, w: string)
    requires |c| < |b0| == |b| && c == b0[..|c|]
    requires forall k :: 0 <= k < |b| ==> b[k] == b0[k] || (IsBlank(b0[k]) && b[k] == '\0')
    requires 0 <= s && s + |w| <= |c| && c[s..s + |w|] == w && NoDelims(w, Separators)
    requires b[s + |w|] == '\0'
    ensures Holds(b, s, w)
  {
    forall m | 0 <= m < |w|
      ensures b[s + m] == w[m]
    {
      assert c[s..s + |w|][m] == c[s + m];
    }
    assert b[s..s + |w|] == w;
  }

  /** The scan is over: no runs are left, or `WordSize` are found. */
  lemma Finish(b0: seq<char>, b: seq<char>, c: string, starts: seq<int>, found: seq<string>, p: nat,
               rest: seq<string>)
    requires |c| < |b0| && c == b0[..|c|]
    requires Edited(b0, b, p) && Located(c, starts, found, p) && Terminated(b, starts, found)
    requires Runs(c, Separators) == found + rest
    requires |found| <= WordSize && (rest == [] || |found| == WordSize) && p <= |b0|
    ensures Stored(b, starts, Words(c)) && Edited(b0, b, |b0|)
  {
    Widen(b0, b, c, starts, found, p, |b0|);
    WordsOf(c, found, rest);
    StoredWords(b0, b, c, starts, found, p, rest);
  }

  /** One turn of the word loop for the word at `p`, recorded as the
      `|found|`-th word: it is ended with a NUL, unless the line ends right
      after it (`last`); then the blanks after it are skipped. */
  method SplitOne(buf: array<char>, ghost b0: seq<char>, ghost c: string,
                  p: nat, ghost found: seq<string>, ghost starts: seq<int>)
    returns (last: bool, p': nat, ghost found': seq<string>, ghost starts': seq<int>)
    requires buf.Length == |b0| && |c| < |b0| && c == b0[..|c|]
    requires b0[|c|] == '\0' && forall k :: 0 <= k < |c| ==> c[k] != '\0'
    requires p < |c| && !IsBlank(c[p])
    requires Runs(c, Separators) == found + Runs(c[p..], Separators)
    requires Edited(b0, buf[..], p) && Located(c, starts, found, p) && Terminated(buf[..], starts, found)
    modifies buf
    ensures starts' == starts + [p] && |found'| == |found| + 1 && p < p'
    ensures last ==> p' == |c| + 1 && Runs(c, Separators) == found' + []
    ensures !last ==> p' <= |c| && (p' == |c| || !IsBlank(c[p']))
    ensures !last ==> Runs(c, Separators) == found' + Runs(c[p'..], Separators)
    ensures Edited(b0, buf[..], p') && Located(c, starts', found', p') && Terminated(buf[..], starts', found')
  {
    var e := ScanWord(buf, c, p);
    WordStep(c, p, e, found);
    if buf[e] == '\0' {
      assert c[e..] == [];
      LastStep(b0, buf[..], c, starts, found, p, e);
      return true, e + 1, found + [c[p..e]], starts + [p];
    }
    found', starts' := found + [c[p..e]], starts + [p];
    p' := CutWord(buf, b0, c, p, e, found, starts);
    last := false;
  }

  /** `*p = '\0'; p++;` and the skip of the blanks that follow: the word
      `c[p..e]` is ended in place. */
  method CutWord(buf: array<char>, ghost b0: seq<char>, ghost c: string,
                 p: nat, e: nat, ghost found: seq<string>, ghost starts: seq<int>) returns (q: nat)
    requires buf.Length == |b0| && |c| < |b0| && c == b0[..|c|] && b0[|c|] == '\0'
    requires p < e < |c| && IsBlank(c[e])
    requires Runs(c, Separators) == (found + [c[p..e]]) + Runs(c[e..], Separators)
    requires Edited(b0, buf[..], p) && Located(c, starts, found, p) && Terminated(buf[..], starts, found)
    modifies buf
    ensures e < q <= |c| && (q == |c| || !IsBlank(c[q]))
    ensures Runs(c, Separators) == (found + [c[p..e]]) + Runs(c[q..], Separators)
    ensures Edited(b0, buf[..], q)
    ensures Located(c, starts + [p], found + [c[p..e]], q)
    ensures Terminated(buf[..], starts + [p], found + [c[p..e]])
  {
    ghost var before := buf[..];
    CutStep(b0, before, c, starts, found, p, e, e + 1);
    buf[e] := '\0';
    assert buf[..] == before[e := '\0'];
    q := SkipBlanks(buf, c, e + 1);
    Widen(b0, buf[..], c, starts + [p], found + [c[p..e]], e + 1, q);
    RunsAt(c, Separators, e);
  }

  /** The word loop of `split2words`: from the first word at `p0`, each
      turn records a word start in `words[i]` and ends the word, until the
      line ends or `WordSize` words are found. What is left unread is
      `rest`. */
  method SplitLoop(words: array<int>, buf: array<char>, ghost b0: seq<char>, ghost c: string, p0: nat)
    returns (i: nat, p: nat, ghost found: seq<string>, ghost starts: seq<int>, ghost rest: seq<string>)
    requires WordSize <= words.Length && buf.Length == |b0| && |c| < |b0| && c == b0[..|c|]
    requires b0[|c|] == '\0' && forall k :: 0 <= k < |c| ==> c[k] != '\0'
    requires p0 <= |c| && (p0 == |c| || !IsBlank(c[p0])) && Runs(c, Separators) == Runs(c[p0..], Separators)
    requires Edited(b0, buf[..], p0)
    modifies words, buf
    ensures i == |found| <= WordSize && words[..i] == starts && p <= |b0|
    ensures Runs(c, Separators) == found + rest && (rest == [] || i == WordSize)
    ensures Edited(b0, buf[..], p) && Located(c, starts, found, p) && Terminated(buf[..], starts, found)
    ensures forall j :: i <= j < words.Length ==> words[j] == old(words[j])
  {
    found, starts := [], [];
    i, p := 0, p0;
    while buf[p] != '\0' && i < WordSize
      invariant 0 <= i <= WordSize && |found| == i
      invariant p <= |c| && (p == |c| || !IsBlank(c[p]))
      invariant Runs(c, Separators) == found + Runs(c[p..], Separators)
      invariant Edited(b0, buf[..], p) && Located(c, starts, found, p) && Terminated(buf[..], starts, found)
      invariant words[..i] == starts
      invariant forall j :: i <= j < words.Length ==> words[j] == old(words[j])
      decreases |c| - p
    {
      words[i] := p;
      var last;
      last, p, found, starts := SplitOne(buf, b0, c, p, found, starts);
      i := i + 1;
      if last {
        return i, p, found, starts, [];
      }
    }
    rest := Runs(c[p..], Separators);
  }

  /** `split2words(words, line)`: the start of each word goes to
      `words[i]`, the blank after each word is overwritten with NUL, and the
      number of words found is returned. The line is `buf[..len]`. */
  method Split2Words(words: array<int>, buf: array<char>, ghost len: nat) returns (count: int)
    requires WordSize <= words.Length
    requires IsCString(buf[..], len)
    modifies words, buf
    ensures 0 <= count <= words.Length
    ensures Stored(buf[..], words[..count], Words(old(buf[..len])))
    ensures Edited(old(buf[..]), buf[..], buf.Length)
    ensures forall j :: count <= j < words.Length ==> words[j] == old(words[j])
  {
    ghost var b0, c := buf[..], buf[..len];
    var p := SkipBlanks(buf, c, 0);
    assert c[0..] == c;
    var i, p', found, starts, rest := SplitLoop(words, buf, b0, c, p);
    Finish(b0, buf[..], c, starts, found, p', rest);
    count := i;
  }

  /** Every word holds no separator and is not empty. */
  lemma WordsAreRuns(c: string)
    ensures forall j :: 0 <= j < |Words(c)| ==> Words(c)[j] != [] && NoDelims(Words(c)[j], Separators)
  {
    var r, ws := Runs(c, Separators), Words(c);
    forall j | 0 <= j < |ws|
      ensures ws[j] != [] && NoDelims(ws[j], Separators)
    {
      assert ws[j] == r[j];
    }
  }

  /** A trailing standalone `&` marks a background command. */
  predicate Background(ws: seq<string>) {
    ws != [] && ws[|ws| - 1] == "&"
  }

  /** The arguments handed on: the words without a trailing `&`. */
  function Arguments(ws: seq<string>): (args: seq<string>)
    ensures Background(ws) ==> args + ["&"] == ws
    ensures !Background(ws) ==> args == ws
  {
    if Background(ws) then ws[..|ws| - 1] else ws
  }

  /** The line leaves room for the terminating null of the argument list:
      `args[count] = NULL` writes inside `args[WORDSIZE]`. */
  predicate FitsArgv(ws: seq<string>) {
    |ws| < WordSize || Background(ws)
  }

  /** The argv convention on `args`: the first `count` entries point into
      the buffer and every later one is null. */
  predicate ArgvShape(args: seq<int>, count: int) {
    0 <= count < |args| &&
    (forall k :: 0 <= k < count ==> args[k] >= 0) &&
    (forall k :: count <= k < |args| ==> args[k] == Null)
  }

  /** `Command` in tests/header/func.h: the argument pointers, how many are
      used, and whether the command runs in the background. */
  class Command {
    const args: array<int>
    var count: int
    var isBackground: bool

    /** A cleared command, as after `memset(cmd, 0, sizeof(Command))`. */
    constructor ()
      ensures fresh(args) && args.Length == WordSize
      ensures count == 0 && !isBackground && ArgvShape(args[..], 0)
    {
      args := new int[WordSize](_ => Null);
      count := 0;
      isBackground := false;
    }
  }

  /** `strcmp(last_token, "&") == 0` on a word as stored in the buffer. */
  lemma AmpersandTest(b: seq<char>, p: int, w: string)
    requires Holds(b, p, w) && w != [] && NoDelims(w, Separators)
    ensures p + 1 < |b|
    ensures b[p] == '&' && b[p + 1] == '\0' <==> w == "&"
  {
    assert b[p..p + |w|][0] == b[p];
    if |w| >= 2 {
      assert b[p..p + |w|][1] == b[p + 1];
    }
  }

  /** Dropping the last word keeps the others where they are. */
  lemma StoredPrefix(b: seq<char>, starts: seq<int>, ws: seq<string>, n: nat)
    requires Stored(b, starts, ws) && n <= |ws|
    ensures Stored(b, starts[..n], ws[..n])
  {
  }

  /** `cmd->args[i] = temp_args[i]` for the first `n` entries; the others
      stay null. */
  method CopyArgs(args: array<int>, temp: array<int>, n: int)
    requires 0 <= n <= args.Length && n <= temp.Length
    requires forall k :: 0 <= k < args.Length ==> args[k] == Null
    modifies args
    ensures args[..n] == temp[..n]
    ensures forall k :: n <= k < args.Length ==> args[k] == Null
  {
    var i := 0;
    while i < n
      invariant 0 <= i <= n
      invariant forall k :: 0 <= k < i ==> args[k] == temp[k]
      invariant forall k :: i <= k < args.Length ==> args[k] == Null
    {
      args[i] := temp[i];
      i := i + 1;
    }
    assert args[..n] == temp[..n];
  }

  /** Steps 7 and 8 of `parse_command`: a last word `&` is dropped and
      recorded, and the argument list is null-terminated. */
  method StripBackground(cmd: Command, buf: array<char>, ghost ws: seq<string>)
    requires cmd.args.Length == WordSize
    requires 0 < cmd.count == |ws| <= WordSize && FitsArgv(ws) && !cmd.isBackground
    requires forall j :: 0 <= j < |ws| ==> ws[j] != [] && NoDelims(ws[j], Separators)
    requires Stored(buf[..], cmd.args[..cmd.count], ws)
    requires forall k :: cmd.count <= k < WordSize ==> cmd.args[k] == Null
    modifies cmd, cmd.args
    ensures cmd.isBackground == Background(ws)
    ensures ArgvShape(cmd.args[..], cmd.count)
    ensures Stored(buf[..], cmd.args[..cmd.count], Arguments(ws))
  {
    ghost var starts := cmd.args[..cmd.count];
    var n := cmd.count;
    var last := cmd.args[n - 1];
    assert last == starts[n - 1];
    AmpersandTest(buf[..], last, ws[n - 1]);
    if buf[last] == '&' && buf[last + 1] == '\0' {
      cmd.isBackground := true;
      cmd.args[n - 1] := Null;
      cmd.count := n - 1;
      StoredPrefix(buf[..], starts, ws, n - 1);
      assert cmd.args[..n - 1] == starts[..n - 1];
    }
    cmd.args[cmd.count] := Null;
    assert cmd.args[..cmd.count] == starts[..cmd.count];
  }

  /** `parse_command(line, cmd)`: the command is cleared, the line split,
      the word pointers copied into `args`, a trailing `&` taken off and
      recorded, and `args` null-terminated. The result is always 0: the
      `word_count > WORDSIZE` error cannot occur, as `split2words` never
      finds more than `WORDSIZE` words. */
  method ParseCommand(cmd: Command, buf: array<char>, ghost len: nat) returns (rc: int)
    requires cmd.args.Length == WordSize
    requires IsCString(buf[..], len) && FitsArgv(Words(buf[..len]))
    modifies cmd, cmd.args, buf
    ensures rc == 0
    ensures cmd.isBackground == Background(Words(old(buf[..len])))
    ensures ArgvShape(cmd.args[..], cmd.count)
    ensures Stored(buf[..], cmd.args[..cmd.count], Arguments(Words(old(buf[..len]))))
    ensures Edited(old(buf[..]), buf[..], buf.Length)
  {
    ghost var ws := Words(buf[..len]);
    WordsAreRuns(buf[..len]);
    forall k | 0 <= k < cmd.args.Length {
      cmd.args[k] := Null;
    }
    cmd.count, cmd.isBackground := 0, false;
    assert buf[..len] == old(buf[..len]);
    var temp := new int[WordSize + 1];
    var wordCount := Split2Words(temp, buf, len);
    assert wordCount <= WordSize;
    cmd.count := wordCount;
    if cmd.count == 0 {
      assert ws == [];
      assert ArgvShape(cmd.args[..], 0);
      assert Stored(buf[..], cmd.args[..0], Arguments(ws));
      return 0;
    }
    CopyArgs(cmd.args, temp, wordCount);
    StripBackground(cmd, buf, ws);
    rc := 0;
  }

  /** The argument check of `handle_cd`: `args[1]` names a directory and
      `args[2]` ends the list. */
  predicate CdArgsValid(args: seq<int>)
    requires |args| >= 3
  {
    args[1] != Null && args[2] == Null
  }

  /** `cd` is accepted exactly when the command has two words. */
  lemma CdNeedsTwoWords(args: seq<int>, count: int)
    requires |args| == WordSize && ArgvShape(args, count)
    ensures CdArgsValid(args) <==> count == 2
  {
  }

  /** An empty or blank line gives no words, so nothing to run. */
  lemma {:induction false} BlankLineHasNoWords(line: string)
    requires forall k :: 0 <= k < |line| ==> IsBlank(line[k])
    ensures Words(line) == []
    decreases |line|
  {
    if line != [] {
      BlankLineHasNoWords(line[1..]);
    }
  }

  /** A job slot of the background-job table: the child's pid, whether the
      slot is taken, and the command line it ran. */
  datatype Slot = Slot(pid: int, inUse: bool, command: string)

  /** A slot after reaping: `in_use = 0`, `pid = 0`, empty command. */
  const FreeSlot := Slot(0, false, [])

  /** The number of slots in use. */
  function InUseCount(s: seq<Slot>): (n: nat)
    ensures n <= |s|
    decreases |s|
  {
    if s == [] then 0 else InUseCount(s[..|s| - 1]) + (if s[|s| - 1].inUse then 1 else 0)
  }

  /** The table is full exactly when every slot is in use. */
  lemma {:induction false} FullIffAllInUse(s: seq<Slot>)
    ensures InUseCount(s) == |s| <==> forall k :: 0 <= k < |s| ==> s[k].inUse
    decreases |s|
  {
    if s != [] {
      var t := s[..|s| - 1];
      FullIffAllInUse(t);
      assert forall k :: 0 <= k < |t| ==> t[k] == s[k];
    }
  }

  /** Taking a free slot adds one to the slots in use. */
  lemma {:induction false} TakeSlotCount(s: seq<Slot>, k: nat, x: Slot)
    requires k < |s| && !s[k].inUse && x.inUse
    ensures InUseCount(s[k := x]) == InUseCount(s) + 1
    decreases |s|
  {
    var n := |s| - 1;
    var s' := s[k := x];
    assert s'[..n] == if k < n then s[..n][k := x] else s[..n];
    if k < n {
      TakeSlotCount(s[..n], k, x);
    }
  }

  /** The lowest free slot, or -1 when every slot is in use. */
  function FirstFree(s: seq<Slot>): (k: int)
    ensures -1 <= k < |s|
    ensures k == -1 <==> forall j :: 0 <= j < |s| ==> s[j].inUse
    ensures k >= 0 ==> !s[k].inUse && forall j :: 0 <= j < k ==> s[j].inUse
    decreases |s|
  {
    if s == [] then -1
    else if !s[0].inUse then 0
    else
      var r := FirstFree(s[1..]);
      if r == -1 then -1 else r + 1
  }

  /** The counting loop of `execute_external_command`. */
  method CountRunning(jobs: array<Slot>) returns (running: int)
    ensures running == InUseCount(jobs[..])
  {
    running := 0;
    var i := 0;
    while i < jobs.Length
      invariant 0 <= i <= jobs.Length
      invariant running == InUseCount(jobs[..i])
    {
      assert jobs[..i + 1][..i] == jobs[..i];
      if jobs[i].inUse {
        running := running + 1;
      }
      i := i + 1;
    }
    assert jobs[..i] == jobs[..];
  }

  /** The search for a free slot: the first one not in use, or -1. */
  method FindFreeSlot(jobs: array<Slot>) returns (slot: int)
    ensures slot == FirstFree(jobs[..])
  {
    slot := -1;
    var i := 0;
    while i < jobs.Length
      invariant 0 <= i <= jobs.Length
      invariant forall j :: 0 <= j < i ==> jobs[j].inUse
    {
      if !jobs[i].inUse {
        slot := i;
        return;
      }
      i := i + 1;
    }
  }

  /** What `execute_external_command` does. */
  datatype Launch =
    | NoCommand
    | TooManyJobs
    | ForkFailed
    | InChild
    | Foreground
    | Started(slot: int)

  /** The outcome for a command with `count` words whose first pointer is
      `arg0`, when `fork` returns `pid` and the table is `s`. */
  function LaunchOf(s: seq<Slot>, count: int, arg0: int, background: bool, pid: int): (o: Launch)
    ensures o.Started? ==> 0 <= o.slot < |s| && !s[o.slot].inUse
  {
    FullIffAllInUse(s);
    if count == 0 || arg0 == Null then NoCommand
    else if background && InUseCount(s) >= |s| then TooManyJobs
    else if pid < 0 then ForkFailed
    else if pid == 0 then InChild
    else if !background then Foreground
    else Started(FirstFree(s))
  }

  /** The slot a background command takes: its pid, in use, and the command
      line cut to `TEXTSIZE - 1` characters. */
  function StartedSlot(pid: int, text: string): (x: Slot)
    ensures x.inUse && x.pid == pid
    ensures |x.command| == if |text| < TextSize then |text| else TextSize - 1
    ensures x.command == text[..|x.command|]
  {
    Slot(pid, true, Take(text, TextSize - 1))
  }

  /** A background start takes the lowest free slot, keeps the slots a
      refused launch leaves full, and uses exactly one more slot. */
  lemma StartTakesLowestFree(s: seq<Slot>, count: int, arg0: int, pid: int, text: string)
    requires LaunchOf(s, count, arg0, true, pid).Started?
    ensures var k := LaunchOf(s, count, arg0, true, pid).slot;
      k < |s| && !s[k].inUse && (forall j :: 0 <= j < k ==> s[j].inUse) &&
      InUseCount(s[k := StartedSlot(pid, text)]) == InUseCount(s) + 1
  {
    FullIffAllInUse(s);
    var k := FirstFree(s);
    TakeSlotCount(s, k, StartedSlot(pid, text));
  }

  /** A background command is refused exactly when every slot is taken. */
  lemma RefusedIffFull(s: seq<Slot>, count: int, arg0: int, pid: int)
    requires count != 0 && arg0 != Null
    ensures LaunchOf(s, count, arg0, true, pid) == TooManyJobs <==>
      forall k :: 0 <= k < |s| ==> s[k].inUse
  {
    FullIffAllInUse(s);
  }

  /** The table part of `execute_external_command` for a command with
      `count` words, first pointer `arg0`, and line `text`, when `fork`
      returns `pid`. */
  method ExecuteExternal(jobs: array<Slot>, count: int, arg0: int, background: bool, text: string, pid: int)
    returns (o: Launch)
    modifies jobs
    ensures o == LaunchOf(old(jobs[..]), count, arg0, background, pid)
    ensures !o.Started? ==> jobs[..] == old(jobs[..])
    ensures o.Started? ==> jobs[..] == old(jobs[..])[o.slot := StartedSlot(pid, text)]
  {
    if count == 0 || arg0 == Null {
      return NoCommand;
    }
    if background {
      var running := CountRunning(jobs);
      if running >= jobs.Length {
        return TooManyJobs;
      }
    }
    if pid < 0 {
      return ForkFailed;
    }
    if pid == 0 {
      return InChild;
    }
    if !background {
      return Foreground;
    }
    var slot := FindFreeSlot(jobs);
    assert slot != -1 by {
      FullIffAllInUse(jobs[..]);
    }
    jobs[slot] := StartedSlot(pid, text);
    o := Started(slot);
  }

  /** A slot after `waitpid(pid, &status, WNOHANG)` returned `ret`: a slot in
      use is freed unless its child is still running (`ret == 0`). */
  function ReapSlot(x: Slot, ret: int): Slot {
    if x.inUse && ret != 0 then FreeSlot else x
  }

  /** The table after reaping, `rets[i]` being the result for slot `i`. */
  function Reaped(s: seq<Slot>, rets: seq<int>): (r: seq<Slot>)
    requires |rets| >= |s|
    ensures |r| == |s|
  {
    seq(|s|, i requires 0 <= i < |s| => ReapSlot(s[i], rets[i]))
  }

  /** The pids reported as finished, in slot order. */
  function FinishedPids(s: seq<Slot>, rets: seq<int>): seq<int>
    requires |rets| >= |s|
    decreases |s|
  {
    if s == [] then []
    else
      var n := |s| - 1;
      FinishedPids(s[..n], rets) + (if s[n].inUse && rets[n] > 0 then [s[n].pid] else [])
  }

  /** A pid is reported exactly when some slot in use holds it and its
      `waitpid` returned a positive value; no more pids than slots in use. */
  lemma {:induction false} FinishedPidsInUse(s: seq<Slot>, rets: seq<int>)
    requires |rets| >= |s|
    ensures |FinishedPids(s, rets)| <= InUseCount(s)
    ensures forall p :: p in FinishedPids(s, rets) <==>
      exists i :: 0 <= i < |s| && s[i].inUse && rets[i] > 0 && s[i].pid == p
    decreases |s|
  {
    if s != [] {
      var n := |s| - 1;
      FinishedPidsInUse(s[..n], rets);
      assert forall i :: 0 <= i < n ==> s[..n][i] == s[i];
    }
  }

  /** Reaping changes a slot exactly when it was in use and `waitpid` did
      not return 0, and then frees it; the slots in use never grow. */
  lemma ReapFreesExactly(s: seq<Slot>, rets: seq<int>)
    requires |rets| >= |s|
    ensures forall i :: 0 <= i < |s| ==> (Reaped(s, rets)[i] != s[i] <==> s[i].inUse && rets[i] != 0)
    ensures forall i :: 0 <= i < |s| ==> (Reaped(s, rets)[i].inUse <==> s[i].inUse && rets[i] == 0)
    ensures InUseCount(Reaped(s, rets)) <= InUseCount(s)
  {
    ReapCount(s, rets);
  }

  lemma {:induction false} ReapCount(s: seq<Slot>, rets: seq<int>)
    requires |rets| >= |s|
    ensures InUseCount(Reaped(s, rets)) <= InUseCount(s)
    decreases |s|
  {
    if s != [] {
      var n := |s| - 1;
      ReapCount(s[..n], rets);
      assert Reaped(s, rets)[..n] == Reaped(s[..n], rets);
    }
  }

  /** `reap_background_jobs`: each slot in use is polled (`rets[i]` is what
      `waitpid` returns for slot `i`) and freed when its child is done or the
      poll failed. The result holds the pids reported finished. */
  method ReapBackgroundJobs(jobs: array<Slot>, rets: seq<int>) returns (finished: seq<int>)
    requires |rets| >= jobs.Length
    modifies jobs
    ensures jobs[..] == Reaped(old(jobs[..]), rets)
    ensures finished == FinishedPids(old(jobs[..]), rets)
  {
    ghost var s := jobs[..];
    finished := [];
    var i := 0;
    while i < jobs.Length
      invariant 0 <= i <= jobs.Length
      invariant forall k :: 0 <= k < i ==> jobs[k] == ReapSlot(s[k], rets[k])
      invariant forall k :: i <= k < jobs.Length ==> jobs[k] == s[k]
      invariant finished == FinishedPids(s[..i], rets)
    {
      assert s[..i + 1][..i] == s[..i];
      if jobs[i].inUse {
        var ret := rets[i];
        if ret > 0 {
          finished := finished + [jobs[i].pid];
          jobs[i] := FreeSlot;
        } else if ret < 0 {
          jobs[i] := FreeSlot;
        }
      }
      i := i + 1;
    }
    assert s[..i] == s;
  }

  /** The lines `handle_jobs` prints: pid and command of each slot in use,
      in slot order. */
  function Listing(s: seq<Slot>): (lines: seq<(int, string)>)
    decreases |s|
  {
    if s == [] then []
    else
      var n := |s| - 1;
      Listing(s[..n]) + (if s[n].inUse then [(s[n].pid, s[n].command)] else [])
  }

  /** One line for each slot in use, and only those. */
  lemma {:induction false} ListingOfInUse(s: seq<Slot>)
    ensures |Listing(s)| == InUseCount(s)
    ensures forall l :: l in Listing(s) <==>
      exists k :: 0 <= k < |s| && s[k].inUse && l == (s[k].pid, s[k].command)
    decreases |s|
  {
    if s != [] {
      var n := |s| - 1;
      ListingOfInUse(s[..n]);
      assert forall k :: 0 <= k < n ==> s[..n][k] == s[k];
    }
  }

  /** `handle_jobs`. */
  method HandleJobs(jobs: array<Slot>) returns (lines: seq<(int, string)>)
    ensures lines == Listing(jobs[..])
  {
    lines := [];
    var i := 0;
    while i < jobs.Length
      invariant 0 <= i <= jobs.Length
      invariant lines == Listing(jobs[..i])
    {
      assert jobs[..i + 1][..i] == jobs[..i];
      if jobs[i].inUse {
        lines := lines + [(jobs[i].pid, jobs[i].command)];
      }
      i := i + 1;
    }
    assert jobs[..i] == jobs[..];
  }
}
