/** The JavaScript string built-ins the record store relies on: `trim`,
    `split` on one character, `join`, splitting text into lines on /\r?\n/,
    and decimal integer text (`String(n)` and `Number(s)` on digit strings).
    A string is a sequence of Dafny `char`s, that is of Unicode scalar
    values; JavaScript's UTF-16 code units coincide with them on the Basic
    Multilingual Plane outside the surrogate range. */
module JsText {

  /** The code units `String.prototype.trim` removes: ECMAScript WhiteSpace
      and LineTerminator. */
  predicate IsWs(c: char) {
    c == ' ' || c == '\t' || c == '\n' || c == '\r' || c == '\U{B}' || c == '\U{C}'
    || c == '\U{A0}' || c == '\U{1680}' || ('\U{2000}' <= c <= '\U{200A}')
    || c == '\U{2028}' || c == '\U{2029}' || c == '\U{202F}' || c == '\U{205F}'
    || c == '\U{3000}' || c == '\U{FEFF}'
  }

  /** Neither end of `s` is whitespace: what `trim` leaves behind. */
  predicate Trimmed(s: string) {
    s == [] || (!IsWs(s[0]) && !IsWs(s[|s| - 1]))
  }

  /** The number of whitespace characters `s` starts with. */
  function LeadingWs(s: string): (k: nat)
    ensures k <= |s|
    ensures forall i :: 0 <= i < k ==> IsWs(s[i])
    ensures k < |s| ==> !IsWs(s[k])
  {
    if s != [] && IsWs(s[0]) then 1 + LeadingWs(s[1..]) else 0
  }

  /** The length of `s` without the whitespace it ends with. */
  function KeptLength(s: string): (k: nat)
    ensures k <= |s|
    ensures forall i :: k <= i < |s| ==> IsWs(s[i])
    ensures k > 0 ==> !IsWs(s[k - 1])
  {
    if s != [] && IsWs(s[|s| - 1]) then KeptLength(s[..|s| - 1]) else |s|
  }

  /** `s.trimStart()`: drops the leading whitespace and nothing else. */
  function TrimStart(s: string): (r: string)
    ensures |r| <= |s| && r == s[|s| - |r|..]
    ensures forall i :: 0 <= i < |s| - |r| ==> IsWs(s[i])
    ensures r != [] ==> !IsWs(r[0])
  {
    s[LeadingWs(s)..]
  }

  /** `s.trimEnd()`: drops the trailing whitespace and nothing else. */
  function TrimEnd(s: string): (r: string)
    ensures |r| <= |s| && r == s[..|r|]
    ensures forall i :: |r| <= i < |s| ==> IsWs(s[i])
    ensures r != [] ==> !IsWs(r[|r| - 1])
  {
    s[..KeptLength(s)]
  }

  /** `s.trim()`. The result is trimmed, it is empty exactly when `s` is all
      whitespace, and trimming a trimmed string changes nothing. */
  function Trim(s: string): (r: string)
    ensures Trimmed(r)
    ensures r == [] <==> IsBlank(s)
    ensures Trimmed(s) ==> r == s
  {
    var t := TrimStart(s);
    var r := TrimEnd(t);
    assert r != [] ==> r[0] == t[0];
    assert r == [] ==> t == [];
    r
  }

  /** A line made of whitespace only: by the contract of `Trim`, exactly a
      line with `l.trim().length == 0`, which the loader skips. */
  predicate IsBlank(s: string) {
    forall i :: 0 <= i < |s| ==> IsWs(s[i])
  }

  /** `s.split(d)` for a one-character separator `d`: the pieces between the
      occurrences of `d`, always at least one (`"".split(d)` is `[""]`). */
  function Split(s: string, d: char): (r: seq<string>)
    ensures |r| >= 1
    ensures forall i :: 0 <= i < |r| ==> d !in r[i]
  {
    if s == [] then [[]]
    else
      var rest := Split(s[1..], d);
      if s[0] == d then [[]] + rest else [[s[0]] + rest[0]] + rest[1..]
  }

  /** `xs.join(d)`: the pieces with `d` between consecutive ones. */
  function Join(xs: seq<string>, d: char): (r: string)
    ensures |xs| > 0 ==> |xs[0]| <= |r| && r[..|xs[0]|] == xs[0]
  {
    if |xs| == 0 then []
    else if |xs| == 1 then xs[0]
    else xs[0] + [d] + Join(xs[1..], d)
  }

  /** The text ends in `'\r'`. */
  predicate EndsInCr(s: string) {
    s != [] && s[|s| - 1] == '\r'
  }

  /** Drops one `'\r'` at the end of a line. */
  function StripCr(s: string): string {
    if EndsInCr(s) then s[..|s| - 1] else s
  }

  /** `s.split(/\r?\n/)`: every `'\n'` separates two lines, and a `'\r'`
      just before it belongs to the separator. The text after the last
      `'\n'` keeps a final `'\r'`, which no separator follows. */
  function Lines(s: string): (r: seq<string>) {
    var parts := Split(s, '\n');
    seq(|parts|, i requires 0 <= i < |parts| =>
      if i < |parts| - 1 then StripCr(parts[i]) else parts[i])
  }

  /** Splitting and joining again on the same character gives back the text. */
  lemma {:induction false} JoinSplit(s: string, d: char)
    ensures Join(Split(s, d), d) == s
  {
    if s != [] {
      var rest := Split(s[1..], d);
      JoinSplit(s[1..], d);
      if s[0] == d {
        assert ([[]] + rest)[1..] == rest;
      } else if |rest| > 1 {
        var p := [[s[0]] + rest[0]] + rest[1..];
        assert p[1..] == rest[1..];
        assert Join(rest, d) == rest[0] + [d] + Join(rest[1..], d);
      }
    }
  }

  lemma {:induction false} SplitWithout(x: string, d: char)
    requires d !in x
    ensures Split(x, d) == [x]
  {
    if x != [] {
      assert x[0] in x;
      SplitWithout(x[1..], d);
      assert [x[0]] + x[1..] == x;
    }
  }

  lemma {:induction false} SplitFirst(x: string, d: char, rest: string)
    requires d !in x
    ensures Split(x + [d] + rest, d) == [x] + Split(rest, d)
  {
    var s := x + [d] + rest;
    if x == [] {
      assert s[1..] == rest;
    } else {
      assert s[1..] == x[1..] + [d] + rest;
      SplitFirst(x[1..], d, rest);
      assert [x[0]] + x[1..] == x;
    }
  }

  /** Joining pieces that do not contain the separator and splitting again
      gives back the pieces. */
  lemma {:induction false} SplitJoin(xs: seq<string>, d: char)
    requires |xs| >= 1
    requires forall i :: 0 <= i < |xs| ==> d !in xs[i]
    ensures Split(Join(xs, d), d) == xs
  {
    if |xs| == 1 {
      SplitWithout(xs[0], d);
    } else {
      SplitJoin(xs[1..], d);
      SplitFirst(xs[0], d, Join(xs[1..], d));
      assert [xs[0]] + xs[1..] == xs;
    }
  }

  /** A joined text holds no character other than the separator that none of
      the pieces holds. */
  lemma {:induction false} JoinAvoids(xs: seq<string>, d: char, c: char)
    requires c != d
    requires forall i :: 0 <= i < |xs| ==> c !in xs[i]
    ensures c !in Join(xs, d)
  {
    if |xs| > 1 {
      JoinAvoids(xs[1..], d, c);
    }
  }

  /** A joined text ends with its last piece, and, when there are two or
      more pieces, the separator comes just before it. */
  lemma {:induction false} JoinLast(xs: seq<string>, d: char)
    requires |xs| >= 1
    ensures |xs[|xs| - 1]| <= |Join(xs, d)|
    ensures Join(xs, d)[|Join(xs, d)| - |xs[|xs| - 1]|..] == xs[|xs| - 1]
    ensures |xs| >= 2 ==> |xs[|xs| - 1]| < |Join(xs, d)| && Join(xs, d)[|Join(xs, d)| - |xs[|xs| - 1]| - 1] == d
  {
    if |xs| >= 2 {
      JoinLast(xs[1..], d);
      var t := Join(xs[1..], d);
      assert Join(xs, d) == xs[0] + [d] + t;
      if |xs| == 2 {
        assert t == xs[1];
      }
    }
  }

  /** Trimmed pieces joined with a separator other than `'\r'` do not end
      in `'\r'`. */
  lemma JoinNotEndsInCr(xs: seq<string>, d: char)
    requires |xs| >= 1 && d != '\r'
    requires Trimmed(xs[|xs| - 1])
    ensures !EndsInCr(Join(xs, d))
  {
    JoinLast(xs, d);
    var j, last := Join(xs, d), xs[|xs| - 1];
    if last != [] {
      assert j[|j| - 1] == j[|j| - |last|..][|last| - 1] == last[|last| - 1];
    }
  }

  /** Joining two or more pieces puts the separator in the text. */
  lemma JoinHasSeparator(xs: seq<string>, d: char)
    requires |xs| >= 2
    ensures d in Join(xs, d)
  {
    assert Join(xs, d)[|xs[0]|] == d;
  }

  /** Every character of every piece of a split comes from the text. */
  lemma {:induction false} SplitChars(s: string, d: char)
    ensures forall i, j :: 0 <= i < |Split(s, d)| && 0 <= j < |Split(s, d)[i]| ==> Split(s, d)[i][j] in s
  {
    if s != [] {
      SplitChars(s[1..], d);
      var rest := Split(s[1..], d);
      assert forall i, j :: 0 <= i < |rest| && 0 <= j < |rest[i]| ==> rest[i][j] in s;
    }
  }

  /** Lines that hold no `'\n'` and do not end in `'\r'`, joined with `'\n'`,
      are split back into the same lines; a `'\r'` inside a line stays. */
  lemma LinesJoin(ls: seq<string>)
    requires |ls| >= 1
    requires forall i :: 0 <= i < |ls| ==> '\n' !in ls[i] && !EndsInCr(ls[i])
    ensures Lines(Join(ls, '\n')) == ls
  {
    SplitJoin(ls, '\n');
  }

  /** `ls.join('\r\n')`: the lines with `"\r\n"` between consecutive ones. */
  function JoinCrLf(ls: seq<string>): string {
    if |ls| == 0 then []
    else if |ls| == 1 then ls[0]
    else ls[0] + "\r\n" + JoinCrLf(ls[1..])
  }

  /** The pieces a `'\n'` split leaves of lines joined with `"\r\n"`: each
      line but the last keeps the `'\r'` of its separator. */
  function CrPieces(ls: seq<string>): (r: seq<string>)
    ensures |r| == |ls|
  {
    seq(|ls|, i requires 0 <= i < |ls| => if i < |ls| - 1 then ls[i] + ['\r'] else ls[i])
  }

  lemma {:induction false} SplitCrLf(ls: seq<string>)
    requires |ls| >= 1
    requires forall i :: 0 <= i < |ls| ==> '\n' !in ls[i]
    ensures Split(JoinCrLf(ls), '\n') == CrPieces(ls)
  {
    if |ls| == 1 {
      SplitWithout(ls[0], '\n');
    } else {
      SplitCrLf(ls[1..]);
      assert JoinCrLf(ls) == (ls[0] + ['\r']) + ['\n'] + JoinCrLf(ls[1..]);
      SplitFirst(ls[0] + ['\r'], '\n', JoinCrLf(ls[1..]));
      assert CrPieces(ls) == [ls[0] + ['\r']] + CrPieces(ls[1..]);
    }
  }

  /** Text that splits on `'\n'` into the pieces of some lines joined with
      `"\r\n"` has those lines. */
  lemma LinesOfCrPieces(s: string, ls: seq<string>)
    requires |ls| >= 1 && Split(s, '\n') == CrPieces(ls)
    ensures Lines(s) == ls
  {
    var parts := Split(s, '\n');
    forall i | 0 <= i < |ls| ensures Lines(s)[i] == ls[i] {
      if i < |ls| - 1 {
        assert parts[i] == ls[i] + ['\r'];
        assert parts[i][..|ls[i]|] == ls[i];
      }
    }
  }

  /** A `"\r\n"` ends a line just as `'\n'` does: lines that hold no `'\n'`,
      joined with `"\r\n"`, are split back into the same lines. */
  lemma LinesCrLf(ls: seq<string>)
    requires |ls| >= 1
    requires forall i :: 0 <= i < |ls| ==> '\n' !in ls[i]
    ensures Lines(JoinCrLf(ls)) == ls
  {
    SplitCrLf(ls);
    LinesOfCrPieces(JoinCrLf(ls), ls);
  }

  /** Every character of every line comes from the text. */
  lemma LinesChars(s: string)
    ensures forall i, j :: 0 <= i < |Lines(s)| && 0 <= j < |Lines(s)[i]| ==> Lines(s)[i][j] in s
  {
    var parts := Split(s, '\n');
    SplitChars(s, '\n');
    forall i, j | 0 <= i < |Lines(s)| && 0 <= j < |Lines(s)[i]| ensures Lines(s)[i][j] in s {
      assert Lines(s)[i][j] == parts[i][j];
    }
  }

  // Decimal integer text

  predicate IsDigit(c: char) {
    '0' <= c <= '9'
  }

  /** A non-empty run of decimal digits. */
  predicate IsDigits(s: string) {
    |s| > 0 && forall i :: 0 <= i < |s| ==> IsDigit(s[i])
  }

  function DigitChar(n: nat): char
    requires n < 10
  {
    (48 + n) as char
  }

  /** `String(n)` for a non-negative integer: its shortest decimal text. */
  function DecimalString(n: nat): (r: string)
    ensures IsDigits(r)
  {
    if n < 10 then [DigitChar(n)] else DecimalString(n / 10) + [DigitChar(n % 10)]
  }

  /** The value of a run of decimal digits (leading zeros allowed). */
  function DigitsValue(s: string): nat
    requires forall i :: 0 <= i < |s| ==> IsDigit(s[i])
  {
    if s == [] then 0
    else
      assert IsDigit(s[|s| - 1]);
      10 * DigitsValue(s[..|s| - 1]) + (s[|s| - 1] as int - 48)
  }

  /** `Number(s)` restricted to digit strings: a value for a non-empty run of
      decimal digits, none for anything else. */
  function NumberValue(s: string): Option<nat> {
    if IsDigits(s) then Some(DigitsValue(s)) else None
  }

  datatype Option<+T> = None | Some(value: T)

  /** Reading back the decimal text of `n` gives `n`. */
  lemma {:induction false} DecimalRoundTrip(n: nat)
    ensures NumberValue(DecimalString(n)) == Some(n)
  {
    var s := DecimalString(n);
    if n < 10 {
      assert s[..0] == [];
      assert s[0] as int - 48 == n;
      assert DigitsValue(s) == 10 * DigitsValue([]) + n;
    } else {
      DecimalRoundTrip(n / 10);
      assert s[..|s| - 1] == DecimalString(n / 10);
      assert s[|s| - 1] as int - 48 == n % 10;
    }
  }

  /** Different numbers have different decimal texts. */
  lemma DecimalInjective(m: nat, n: nat)
    requires m != n
    ensures DecimalString(m) != DecimalString(n)
  {
    DecimalRoundTrip(m);
    DecimalRoundTrip(n);
  }
}
