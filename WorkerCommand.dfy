/** One worker sub-command (hw2 `execute_single_command`): recognise
    `msleep X`, `increment C`, `decrement C`, or report an unknown command;
    counters are bounds-checked by id and moved by one.
    The `countNN.txt` files are modelled as one in-memory array of values. */
module WorkerCommand {
  import opened CText

  /** What a sub-command is recognised as. `Unknown` carries the text
      the worker reports (the command after its leading whitespace). */
  datatype SubCommand =
    | Sleep(ms: int)
    | Increment(id: int)
    | Decrement(id: int)
    | Unknown(text: string)

  /** The argument of a keyword command: `atoi` of the text after the
      keyword. (The source first skips the whitespace after the keyword,
      which `atoi` does anyway: see `AtoiSkipsSpaces`.) */
  function Argument(c: string, kw: string): int
    requires StartsWith(c, kw)
  {
    Atoi(c[|kw|..])
  }

  /** The decision `execute_single_command` makes, as a value. */
  function Parse(cmd: string): SubCommand {
    Recognise(TrimLeft(cmd))
  }

  /** The keyword chain, on the command after its leading whitespace. */
  function Recognise(c: string): SubCommand {
    if IsKeyword(c, "msleep") then Sleep(Argument(c, "msleep"))
    else if IsKeyword(c, "increment") then Increment(Argument(c, "increment"))
    else if IsKeyword(c, "decrement") then Decrement(Argument(c, "decrement"))
    else Unknown(c)
  }

  /** The counter values after one recognised command: an id in range is
      moved by one, anything else leaves every counter as it was. */
  function Adjust(values: seq<int>, c: SubCommand): (r: seq<int>)
    ensures |r| == |values|
    ensures forall j :: 0 <= j < |values| ==>
      r[j] == values[j] + (if c.Increment? && c.id == j then 1
                           else if c.Decrement? && c.id == j then -1
                           else 0)
  {
    match c
    case Increment(id) => Moved(values, id, 1)
    case Decrement(id) => Moved(values, id, -1)
    case _ => values
  }

  /** One counter moved by `delta` when its id is in range. */
  function Moved(values: seq<int>, id: int, delta: int): (r: seq<int>)
    ensures |r| == |values|
  {
    if 0 <= id < |values| then values[id := values[id] + delta] else values
  }

  /** The counters after a sequence of commands, applied in order. */
  function AdjustAll(values: seq<int>, cs: seq<SubCommand>): (r: seq<int>)
    ensures |r| == |values|
    decreases |cs|
  {
    if cs == [] then values else Adjust(AdjustAll(values, cs[..|cs| - 1]), cs[|cs| - 1])
  }

  /** The commands a sequence of sub-command texts is recognised as. */
  function ParseAll(ps: seq<string>): (cs: seq<SubCommand>)
    ensures |cs| == |ps|
    decreases |ps|
  {
    if ps == [] then [] else ParseAll(ps[..|ps| - 1]) + [Parse(ps[|ps| - 1])]
  }

  lemma {:induction false} ParseAllAt(ps: seq<string>, i: nat)
    requires i < |ps|
    ensures ParseAll(ps)[i] == Parse(ps[i])
    decreases |ps|
  {
    if i < |ps| - 1 {
      ParseAllAt(ps[..|ps| - 1], i);
    }
  }

  lemma ParseAllAppend(ps: seq<string>, p: string)
    ensures ParseAll(ps + [p]) == ParseAll(ps) + [Parse(p)]
  {
    assert (ps + [p])[..|ps|] == ps;
  }

  lemma AdjustAllAppend(values: seq<int>, cs: seq<SubCommand>, c: SubCommand)
    ensures AdjustAll(values, cs + [c]) == Adjust(AdjustAll(values, cs), c)
  {
    assert (cs + [c])[..|cs|] == cs;
  }

  /** The decimal spelling of an integer, with a `-` when negative. */
  function Signed(n: int): (d: string)
    ensures |d| > 0 && !IsSpace(d[0])
  {
    if n < 0 then "-" + Decimal(-n) else Decimal(n)
  }

  lemma AtoiOfSigned(n: int, rest: string)
    requires rest == [] || !IsDigit(rest[0])
    ensures Atoi(Signed(n) + rest) == n
  {
    if n < 0 {
      AtoiOfNegativeDecimal(-n, rest);
      assert Signed(n) + rest == "-" + Decimal(-n) + rest;
    } else {
      AtoiOfDecimal(n, rest);
    }
  }

  lemma ArgumentOfRendered(kw: string, n: int, lead: string, rest: string)
    requires forall i :: 0 <= i < |lead| ==> IsSpace(lead[i])
    requires rest == [] || !IsDigit(rest[0])
    ensures StartsWith(kw + " " + lead + Signed(n) + rest, kw)
    ensures Argument(kw + " " + lead + Signed(n) + rest, kw) == n
  {
    var c := kw + " " + lead + Signed(n) + rest;
    assert c[..|kw|] == kw;
    var a := c[|kw|..];
    assert a == ([' '] + lead) + (Signed(n) + rest);
    TrimLeftSpaces([' '] + lead, Signed(n) + rest);
    AtoiOfSigned(n, rest);
    AtoiSkipsSpaces(a);
  }

  lemma {:induction false} TrimLeftSpaces(lead: string, t: string)
    requires forall i :: 0 <= i < |lead| ==> IsSpace(lead[i])
    requires t == [] || !IsSpace(t[0])
    ensures TrimLeft(lead + t) == t
    decreases |lead|
  {
    if lead == [] {
      assert lead + t == t;
    } else {
      assert (lead + t)[1..] == lead[1..] + t;
      TrimLeftSpaces(lead[1..], t);
    }
  }

  /** A command written out: its keyword, a space, more whitespace `lead`,
      its number in decimal and then `rest`. */
  function Render(c: SubCommand, lead: string, rest: string): string
    requires !c.Unknown?
  {
    Keyword(c) + " " + lead + Signed(Value(c)) + rest
  }

  /** The keyword chain on `kw N...` picks the keyword `kw` with argument N. */
  lemma RecogniseRendered(c: SubCommand, lead: string, rest: string)
    requires !c.Unknown?
    requires forall i :: 0 <= i < |lead| ==> IsSpace(lead[i])
    requires rest == [] || !IsDigit(rest[0])
    ensures Recognise(Render(c, lead, rest)) == c
  {
    var kw := Keyword(c);
    var body := Render(c, lead, rest);
    ArgumentOfRendered(kw, Value(c), lead, rest);
    assert body[|kw|] == ' ';
    assert IsKeyword(body, kw);
    match c
    case Sleep(_) =>
    case Increment(_) =>
      assert !IsKeyword(body, "msleep");
    case Decrement(_) =>
      assert !IsKeyword(body, "msleep");
      assert !IsKeyword(body, "increment");
  }

  /** Round trip: a rendered command is recognised as that command, also with
      leading whitespace before it, more whitespace after the keyword and
      non-digit text after the number. */
  lemma ParseOfRender(c: SubCommand, indent: string, lead: string, rest: string)
    requires !c.Unknown?
    requires forall i :: 0 <= i < |indent| ==> IsSpace(indent[i])
    requires forall i :: 0 <= i < |lead| ==> IsSpace(lead[i])
    requires rest == [] || !IsDigit(rest[0])
    ensures Parse(indent + Render(c, lead, rest)) == c
  {
    var body := Render(c, lead, rest);
    assert body[0] == Keyword(c)[0];
    TrimLeftSpaces(indent, body);
    RecogniseRendered(c, lead, rest);
  }

  function Keyword(c: SubCommand): string
    requires !c.Unknown?
  {
    match c
    case Sleep(_) => "msleep"
    case Increment(_) => "increment"
    case Decrement(_) => "decrement"
  }

  function Value(c: SubCommand): int
    requires !c.Unknown?
  {
    match c
    case Sleep(ms) => ms
    case Increment(id) => id
    case Decrement(id) => id
  }

  /** A keyword counts only when the end of the text or whitespace follows
      it: `incrementX`, `msleep5` and the like are unknown commands. */
  lemma GluedKeywordIsUnknown(kw: string, rest: string)
    requires kw == "msleep" || kw == "increment" || kw == "decrement"
    requires rest != [] && !IsSpace(rest[0])
    ensures Parse(kw + rest) == Unknown(kw + rest)
  {
    var c := kw + rest;
    assert c[0] == kw[0] && !IsSpace(c[0]);
    assert TrimLeft(c) == c;
    assert c[|kw|] == rest[0];
    assert c[..|kw|] == kw;
    assert !IsKeyword(c, "msleep");
    assert !IsKeyword(c, "increment");
    assert !IsKeyword(c, "decrement");
  }

  /** `repeat` is not a sub-command: a `repeat` piece that reaches
      `execute_single_command` is reported as unknown. */
  lemma RepeatIsUnknown(piece: string)
    requires IsKeyword(TrimLeft(piece), "repeat")
    ensures Parse(piece) == Unknown(TrimLeft(piece))
  {
    var c := TrimLeft(piece);
    assert c[0] == 'r';
    assert !IsKeyword(c, "msleep");
    assert !IsKeyword(c, "increment");
    assert !IsKeyword(c, "decrement");
  }

  /** `char *p = cmd + n; while (*p && isspace(*p)) p++; atoi(p)`. */
  method ReadArgument(s: string, n: nat) returns (v: int)
    requires n <= |s|
    ensures v == Atoi(s[n..])
  {
    var p := SkipSpaces(s, n);
    assert s[p..] == TrimLeft(s[n..]);
    AtoiSkipsSpaces(s[n..]);
    v := Atoi(s[p..]);
  }

  /** The bounds check and read-modify-write of one counter. */
  method MoveCounter(counters: array<int>, cid: int, delta: int)
    modifies counters
    ensures counters[..] == Moved(old(counters[..]), cid, delta)
  {
    if 0 <= cid < counters.Length {
      counters[cid] := counters[cid] + delta;
    }
  }

  /** `execute_single_command`: skip leading whitespace, test the three
      keywords in order, and apply a counter command in place. The result
      says what the command was recognised as. */
  method ExecuteSingleCommand(cmd: string, counters: array<int>) returns (c: SubCommand)
    modifies counters
    ensures c == Parse(cmd)
    ensures counters[..] == Adjust(old(counters[..]), c)
  {
    var start := SkipSpaces(cmd, 0);
    var s := cmd[start..];
    assert Parse(cmd) == Recognise(s);
    if IsKeyword(s, "msleep") {
      var ms := ReadArgument(s, 6);
      c := Sleep(ms);
    } else if IsKeyword(s, "increment") {
      var cid := ReadArgument(s, 9);
      MoveCounter(counters, cid, 1);
      c := Increment(cid);
      assert Adjust(old(counters[..]), c) == Moved(old(counters[..]), cid, 1);
    } else if IsKeyword(s, "decrement") {
      var cid := ReadArgument(s, 9);
      MoveCounter(counters, cid, -1);
      c := Decrement(cid);
      assert Adjust(old(counters[..]), c) == Moved(old(counters[..]), cid, -1);
    } else {
      c := Unknown(s);
    }
  }
}
