/** Character and string primitives of the C library as the programs use them:
    `isspace`, pointer-advancing whitespace skips, `strncmp` keyword tests,
    `atoi`, and splitting into maximal runs of non-delimiter characters
    (what `strtok` and the shell's word splitter both produce).
    A C string is modelled by its content: the characters before its NUL. */
module CText {

  /** `isspace` in the C locale: space, \t, \n, \v, \f, \r. */
  predicate IsSpace(c: char) {
    c == ' ' || c == '\t' || c == '\n' || c == '\U{B}' || c == '\U{C}' || c == '\r'
  }

  predicate IsDigit(c: char) { '0' <= c <= '9' }

  function DigitValue(c: char): (d: nat)
    requires IsDigit(c)
    ensures d < 10
  {
    (c as int - '0' as int) as nat
  }

  function DigitChar(d: nat): (c: char)
    requires d < 10
    ensures IsDigit(c) && DigitValue(c) == d
  {
    ('0' as int + d) as char
  }

  /** What remains after a `while (*p && isspace(*p)) p++;` loop. */
  function TrimLeft(s: string): (r: string)
    ensures |r| <= |s|
    ensures forall i :: 0 <= i < |s| - |r| ==> IsSpace(s[i])
    ensures r == [] || !IsSpace(r[0])
    decreases |s|
  {
    if |s| > 0 && IsSpace(s[0]) then TrimLeft(s[1..]) else s
  }

  /** What is left is a suffix of the input. (Kept out of `TrimLeft`'s own
      contract, where the slice would be instantiated at every use.) */
  lemma {:induction false} TrimLeftIsSuffix(s: string)
    ensures TrimLeft(s) == s[|s| - |TrimLeft(s)|..]
    decreases |s|
  {
    if |s| > 0 && IsSpace(s[0]) {
      TrimLeftIsSuffix(s[1..]);
      assert s[1..][|s| - 1 - |TrimLeft(s)|..] == s[|s| - |TrimLeft(s)|..];
    }
  }

  /** The whitespace skip as the C code writes it: advance an index past
      spaces. The result is the first non-space position at or after `i`. */
  method SkipSpaces(s: string, i: nat) returns (j: nat)
    requires i <= |s|
    ensures i <= j <= |s|
    ensures s[j..] == TrimLeft(s[i..])
    ensures forall k :: i <= k < j ==> IsSpace(s[k])
    ensures j == |s| || !IsSpace(s[j])
  {
    j := i;
    while j < |s| && IsSpace(s[j])
      invariant i <= j <= |s|
      invariant TrimLeft(s[j..]) == TrimLeft(s[i..])
      invariant forall k :: i <= k < j ==> IsSpace(s[k])
    {
      assert s[j..][1..] == s[j + 1..];
      j := j + 1;
    }
  }

  predicate StartsWith(s: string, prefix: string) {
    |prefix| <= |s| && s[..|prefix|] == prefix
  }

  /** `strncmp(c, kw, |kw|) == 0 && (c[|kw|] == '\0' || isspace(c[|kw|]))`:
      the keyword followed by the end of the string or by whitespace. */
  predicate IsKeyword(s: string, kw: string) {
    StartsWith(s, kw) && (|s| == |kw| || IsSpace(s[|kw|]))
  }

  /** The longest prefix of `s` made of decimal digits. */
  function DigitPrefix(s: string): (d: string)
    ensures |d| <= |s| && d == s[..|d|]
    ensures forall i :: 0 <= i < |d| ==> IsDigit(d[i])
    ensures |d| == |s| || !IsDigit(s[|d|])
    decreases |s|
  {
    if |s| > 0 && IsDigit(s[0]) then [s[0]] + DigitPrefix(s[1..]) else []
  }

  /** The value of a string of decimal digits, most significant first. */
  function DigitsValue(d: string): nat
    requires forall i :: 0 <= i < |d| ==> IsDigit(d[i])
    decreases |d|
  {
    if d == [] then 0 else DigitsValue(d[..|d| - 1]) * 10 + DigitValue(d[|d| - 1])
  }

  /** `atoi`: leading whitespace, an optional sign, then the longest digit prefix.
      Integers are unbounded here: the C overflow cases are not modelled. */
  function Atoi(s: string): int {
    var t := TrimLeft(s);
    if |t| > 0 && t[0] == '-' then 0 - DigitsValue(DigitPrefix(t[1..]))
    else if |t| > 0 && t[0] == '+' then DigitsValue(DigitPrefix(t[1..]))
    else DigitsValue(DigitPrefix(t))
  }

  lemma TrimLeftIdempotent(s: string)
    ensures TrimLeft(TrimLeft(s)) == TrimLeft(s)
  {
  }

  /** Skipping whitespace before `atoi` changes nothing: `atoi` skips it itself. */
  lemma AtoiSkipsSpaces(s: string)
    ensures Atoi(TrimLeft(s)) == Atoi(s)
  {
    TrimLeftIdempotent(s);
  }

  /** The decimal spelling of a natural number (what `%d` prints). */
  function Decimal(n: nat): (d: string)
    ensures |d| > 0
    ensures forall i :: 0 <= i < |d| ==> IsDigit(d[i])
    decreases n
  {
    if n < 10 then [DigitChar(n)] else Decimal(n / 10) + [DigitChar(n % 10)]
  }

  lemma {:induction false} DigitsValueOfDecimal(n: nat)
    ensures DigitsValue(Decimal(n)) == n
    decreases n
  {
    var d := Decimal(n);
    if n >= 10 {
      DigitsValueOfDecimal(n / 10);
      assert d[..|d| - 1] == Decimal(n / 10);
    } else {
      assert d[..|d| - 1] == [];
    }
  }

  lemma {:induction false} DigitPrefixOfDigits(d: string, rest: string)
    requires forall i :: 0 <= i < |d| ==> IsDigit(d[i])
    requires rest == [] || !IsDigit(rest[0])
    ensures DigitPrefix(d + rest) == d
    decreases |d|
  {
    if d != [] {
      assert (d + rest)[1..] == d[1..] + rest;
      DigitPrefixOfDigits(d[1..], rest);
    }
  }

  lemma AtoiUnsigned(t: string)
    requires |t| > 0 && IsDigit(t[0])
    ensures Atoi(t) == DigitsValue(DigitPrefix(t))
  {
    assert !IsSpace(t[0]);
    assert TrimLeft(t) == t;
    assert t[0] != '-' && t[0] != '+';
  }

  lemma AtoiNegative(t: string)
    ensures Atoi("-" + t) == 0 - DigitsValue(DigitPrefix(t))
  {
    var u := "-" + t;
    assert TrimLeft(u) == u;
    assert u[1..] == t;
  }

  /** Round trip: `atoi` reads back what `%d` writes, whatever non-digit text follows. */
  lemma AtoiOfDecimal(n: nat, rest: string)
    requires rest == [] || !IsDigit(rest[0])
    ensures Atoi(Decimal(n) + rest) == n
  {
    var d := Decimal(n);
    var t := d + rest;
    DigitPrefixOfDigits(d, rest);
    DigitsValueOfDecimal(n);
    assert t[0] == d[0];
    AtoiUnsigned(t);
  }

  /** The same round trip for a negative number. */
  lemma AtoiOfNegativeDecimal(n: nat, rest: string)
    requires rest == [] || !IsDigit(rest[0])
    ensures Atoi("-" + Decimal(n) + rest) == 0 - n
  {
    var d := Decimal(n);
    var t := d + rest;
    DigitPrefixOfDigits(d, rest);
    DigitsValueOfDecimal(n);
    AtoiNegative(t);
    assert "-" + d + rest == "-" + t;
  }

  /** The length of the leading run of non-delimiter characters. */
  function RunEnd(s: string, delims: set<char>): (k: nat)
    ensures k <= |s|
    ensures forall i :: 0 <= i < k ==> s[i] !in delims
    ensures k == |s| || s[k] in delims
    decreases |s|
  {
    if s == [] || s[0] in delims then 0 else 1 + RunEnd(s[1..], delims)
  }

  /** The run starting at `i` ends at `j`, the first delimiter or the end. */
  lemma {:induction false} RunEndAt(s: string, delims: set<char>, i: nat, j: nat)
    requires i <= j <= |s|
    requires forall k :: i <= k < j ==> s[k] !in delims
    requires j == |s| || s[j] in delims
    ensures RunEnd(s[i..], delims) == j - i
    decreases j - i
  {
    if i < j {
      assert s[i..][1..] == s[i + 1..];
      RunEndAt(s, delims, i + 1, j);
    }
  }

  predicate NoDelims(w: string, delims: set<char>) {
    forall i :: 0 <= i < |w| ==> w[i] !in delims
  }

  /** The maximal non-empty runs of non-delimiter characters, in order. */
  function Runs(s: string, delims: set<char>): (ws: seq<string>)
    ensures forall k :: 0 <= k < |ws| ==> ws[k] != [] && NoDelims(ws[k], delims)
    decreases |s|
  {
    if s == [] then []
    else if s[0] in delims then Runs(s[1..], delims)
    else
      var k := RunEnd(s, delims);
      [s[..k]] + Runs(s[k..], delims)
  }

  /** Unfolding of `Runs` at an index, in the form the scanning loops use. */
  lemma RunsAt(s: string, delims: set<char>, i: nat)
    requires i < |s|
    ensures s[i] in delims ==> Runs(s[i..], delims) == Runs(s[i + 1..], delims)
    ensures s[i] !in delims ==>
      var k := RunEnd(s[i..], delims);
      Runs(s[i..], delims) == [s[i..i + k]] + Runs(s[i + k..], delims)
  {
    assert s[i..][1..] == s[i + 1..];
    var k := RunEnd(s[i..], delims);
    assert s[i..][k..] == s[i + k..];
    assert s[i..][..k] == s[i..i + k];
  }

  /** The words joined with one separator between neighbours. */
  function JoinWith(ws: seq<string>, sep: char): string
    decreases |ws|
  {
    if ws == [] then []
    else if |ws| == 1 then ws[0]
    else ws[0] + [sep] + JoinWith(ws[1..], sep)
  }

  lemma {:induction false} RunEndOfWord(w: string, t: string, delims: set<char>)
    requires NoDelims(w, delims)
    requires t == [] || t[0] in delims
    ensures RunEnd(w + t, delims) == |w|
    decreases |w|
  {
    if w != [] {
      assert (w + t)[1..] == w[1..] + t;
      RunEndOfWord(w[1..], t, delims);
    }
  }

  /** Round trip: splitting words joined by a delimiter gives the words back. */
  lemma {:induction false} RunsOfJoin(ws: seq<string>, sep: char, delims: set<char>)
    requires sep in delims
    requires forall k :: 0 <= k < |ws| ==> ws[k] != [] && NoDelims(ws[k], delims)
    ensures Runs(JoinWith(ws, sep), delims) == ws
    decreases |ws|
  {
    if ws == [] {
    } else {
      var w := ws[0];
      var rest := if |ws| == 1 then [] else [sep] + JoinWith(ws[1..], sep);
      assert JoinWith(ws, sep) == w + rest;
      RunEndOfWord(w, rest, delims);
      var s := w + rest;
      assert s[..|w|] == w;
      assert s[|w|..] == rest;
      if |ws| > 1 {
        RunsOfJoin(ws[1..], sep, delims);
        assert rest[1..] == JoinWith(ws[1..], sep);
        assert ws == [w] + ws[1..];
      }
    }
  }

  /** Regrouping an element appended between two sequences. */
  lemma AppendBetween<T>(a: seq<T>, x: T, r: seq<T>)
    ensures a + ([x] + r) == (a + [x]) + r
  {
  }

  /** The first `n` elements, or all of them when there are fewer. */
  function Take<T>(s: seq<T>, n: nat): (r: seq<T>)
    ensures |r| == if |s| <= n then |s| else n
    ensures r == s[..|r|]
  {
    if |s| <= n then s else s[..n]
  }
}
