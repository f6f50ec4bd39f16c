/** The parts of JavaScript's string and number handling that the modelled code uses. */
module JsText {
  import opened Wrappers

  /** JavaScript's WhiteSpace and LineTerminator code points, as trim() and \s use them. */
  predicate IsSpace(c: char) {
    || c == ' ' || '\t' <= c <= '\r' || c == '\U{A0}' || c == '\U{1680}' || '\U{2000}' <= c <= '\U{200A}'
    || c == '\U{2028}' || c == '\U{2029}' || c == '\U{202F}' || c == '\U{205F}' || c == '\U{3000}'
    || c == '\U{FEFF}'
  }

  function TrimStart(s: string): (r: string)
    ensures r == [] || !IsSpace(r[0])
    ensures |r| <= |s| && r == s[|s| - |r|..]
    ensures forall i :: 0 <= i < |s| - |r| ==> IsSpace(s[i])
    ensures forall c :: c in r ==> c in s
  {
    if s != [] && IsSpace(s[0]) then TrimStart(s[1..]) else s
  }

  function TrimEnd(s: string): (r: string)
    ensures r == [] || !IsSpace(r[|r| - 1])
    ensures |r| <= |s| && r == s[..|r|]
    ensures forall i :: |r| <= i < |s| ==> IsSpace(s[i])
    ensures forall c :: c in r ==> c in s
  {
    if s != [] && IsSpace(s[|s| - 1]) then TrimEnd(s[..|s| - 1]) else s
  }

  function Trim(s: string): (r: string)
    ensures r == [] || (!IsSpace(r[0]) && !IsSpace(r[|r| - 1]))
    ensures forall c :: c in r ==> c in s
  {
    TrimEnd(TrimStart(s))
  }

  /** A string is trimmed when it neither starts nor ends with white space. */
  predicate Trimmed(s: string) {
    s == [] || (!IsSpace(s[0]) && !IsSpace(s[|s| - 1]))
  }

  lemma TrimOfTrimmed(s: string)
    requires Trimmed(s)
    ensures Trim(s) == s
  {
  }

  predicate Blank(s: string) {
    forall i :: 0 <= i < |s| ==> IsSpace(s[i])
  }

  lemma {:induction false} TrimStartOf(white: string, s: string)
    requires Blank(white) && s != [] && !IsSpace(s[0])
    ensures TrimStart(white + s) == s
  {
    if white == [] {
      assert white + s == s;
    } else {
      assert (white + s)[1..] == white[1..] + s;
      TrimStartOf(white[1..], s);
    }
  }

  lemma {:induction false} TrimEndOf(s: string, white: string)
    requires Blank(white) && s != [] && !IsSpace(s[|s| - 1])
    ensures TrimEnd(s + white) == s
    decreases |white|
  {
    if white == [] {
      assert s + white == s;
    } else {
      var front := white[..|white| - 1];
      assert (s + white)[..|s + white| - 1] == s + front;
      TrimEndOf(s, front);
    }
  }

  /** trim() takes away the white space around a text, all of it, and nothing else. */
  lemma {:induction false} TrimOf(before: string, s: string, after: string)
    requires Blank(before) && Blank(after) && Trimmed(s)
    ensures Trim(before + s + after) == s
  {
    if s == [] {
      var text := before + s + after;
      BlankIffTrimmedAway(text);
      assert Blank(text);
    } else {
      assert before + s + after == before + (s + after);
      TrimStartOf(before, s + after);
      TrimEndOf(s, after);
    }
  }

  /** Nothing is left of a text exactly when it is all white space. */
  lemma BlankIffTrimmedAway(s: string)
    ensures Blank(s) <==> Trim(s) == []
  {
    var t := TrimStart(s);
    if Trim(s) == [] {
      assert Blank(t);
      assert t == [];
    } else {
      var i :| 0 <= i < |t| && !IsSpace(t[i]) by {
        assert !IsSpace(t[0]);
      }
      assert s[|s| - |t| + i] == t[i];
    }
  }

  /** A text with a character that is not white space is not blank. */
  lemma {:induction false} TrimKeepsInk(s: string, i: nat)
    requires i < |s| && !IsSpace(s[i])
    ensures Trim(s) != []
    decreases |s|
  {
    if IsSpace(s[0]) {
      TrimKeepsInk(s[1..], i - 1);
    } else {
      TrimEndKeepsFirst(s);
    }
  }

  lemma {:induction false} TrimEndKeepsFirst(s: string)
    requires s != [] && !IsSpace(s[0])
    ensures TrimEnd(s) != []
    decreases |s|
  {
    if IsSpace(s[|s| - 1]) {
      TrimEndKeepsFirst(s[..|s| - 1]);
    }
  }

  /** s.split(sep) for a one-character separator. */
  function Split(s: string, sep: char): (parts: seq<string>)
    ensures |parts| >= 1
    ensures forall p :: p in parts ==> sep !in p
    ensures sep in s <==> |parts| >= 2
    ensures sep !in s ==> parts == [s]
  {
    if s == [] then [[]]
    else
      var rest := Split(s[1..], sep);
      assert s == [s[0]] + s[1..];
      if s[0] == sep then [[]] + rest else [[s[0]] + rest[0]] + rest[1..]
  }

  /** parts.join(sep) for a one-character separator. */
  function Join(parts: seq<string>, sep: char): string {
    if parts == [] then []
    else if |parts| == 1 then parts[0]
    else parts[0] + [sep] + Join(parts[1..], sep)
  }

  lemma {:induction false} SplitPiece(piece: string, rest: string, sep: char)
    requires sep !in piece
    ensures Split(piece + [sep] + rest, sep) == [piece] + Split(rest, sep)
  {
    var s := piece + [sep] + rest;
    if piece == [] {
      assert s[1..] == rest;
    } else {
      assert s[1..] == piece[1..] + [sep] + rest;
      SplitPiece(piece[1..], rest, sep);
      assert [piece[0]] + piece[1..] == piece;
    }
  }

  /** Splitting undoes joining when no part contains the separator. */
  lemma {:induction false} SplitOfJoin(parts: seq<string>, sep: char)
    requires parts != []
    requires forall p :: p in parts ==> sep !in p
    ensures Split(Join(parts, sep), sep) == parts
  {
    if |parts| > 1 {
      SplitOfJoin(parts[1..], sep);
      SplitPiece(parts[0], Join(parts[1..], sep), sep);
      assert parts == [parts[0]] + parts[1..];
    }
  }

  predicate IsDigit(c: char) {
    '0' <= c <= '9'
  }

  function DigitPrefix(s: string): (d: string)
    ensures |d| <= |s| && d == s[..|d|]
    ensures forall c :: c in d ==> IsDigit(c)
    ensures |d| == |s| || !IsDigit(s[|d|])
  {
    if s != [] && IsDigit(s[0]) then [s[0]] + DigitPrefix(s[1..]) else []
  }

  /** The number a run of decimal digits denotes. */
  function Value(d: string): nat
    requires forall c :: c in d ==> IsDigit(c)
  {
    if d == [] then 0
    else
      assert IsDigit(d[|d| - 1]);
      10 * Value(d[..|d| - 1]) + (d[|d| - 1] as int - '0' as int)
  }

  /** parseInt(s, 10); None is NaN. */
  function ParseInt(s: string): Option<int> {
    var body := TrimStart(s);
    var signed := body != [] && body[0] in {'-', '+'};
    var digits := DigitPrefix(if signed then body[1..] else body);
    if digits == [] then None
    else
      var magnitude: int := Value(digits);
      Some(if body[0] == '-' then -magnitude else magnitude)
  }

  /** Number(s) on the texts cron ranges are made of: no text is 0, digits are their value;
      None stands for NaN. */
  function ToNumber(s: string): Option<int> {
    if forall c :: c in s ==> IsDigit(c) then Some(Value(s)) else None
  }

  /** Decimal digits of n, without leading zeros. */
  function Decimal(n: nat): (d: string)
    ensures d != []
    ensures forall c :: c in d ==> IsDigit(c)
    ensures Value(d) == n
  {
    var last := [('0' as int + n % 10) as char];
    if n < 10 then
      assert Value(last) == n by { assert last[..0] == []; }
      last
    else
      var d := Decimal(n / 10) + last;
      assert d[..|d| - 1] == Decimal(n / 10);
      d
  }

  lemma DigitsAreInk(c: char)
    requires IsDigit(c)
    ensures !IsSpace(c) && c !in {'-', '+', '*', '/', ','}
  {
  }

  /** Reading back printed digits gives the number, by parseInt and by Number. */
  lemma {:induction false} DecimalReadsBack(n: nat)
    ensures ParseInt(Decimal(n)) == Some(n)
    ensures ToNumber(Decimal(n)) == Some(n)
  {
    var d := Decimal(n);
    assert IsDigit(d[0]);
    DigitsAreInk(d[0]);
    assert TrimStart(d) == d;
    assert DigitPrefix(d) == d;
  }

  // ----- Numbers as they are written -----

  function NumberText(n: int): string {
    if n < 0 then "-" + Decimal(-n) else Decimal(n)
  }

  lemma {:induction false} DigitPrefixOf(d: string, rest: string)
    requires forall c :: c in d ==> IsDigit(c)
    requires rest == [] || !IsDigit(rest[0])
    ensures DigitPrefix(d + rest) == d
  {
    if d == [] {
      assert d + rest == rest;
    } else {
      assert (d + rest)[1..] == d[1..] + rest;
      DigitPrefixOf(d[1..], rest);
      assert [d[0]] + d[1..] == d;
    }
  }

  /** parseInt skips white space, reads a number, and ignores what follows its digits. */
  lemma {:induction false} NumberReadsBack(white: string, n: int, rest: string)
    requires Blank(white) && (rest == [] || !IsDigit(rest[0]))
    ensures ParseInt(white + NumberText(n) + rest) == Some(n)
  {
    hide Decimal, DigitPrefix, TrimStart, Value;
    var text := NumberText(n) + rest;
    NumberStarts(n);
    assert text[0] == NumberText(n)[0];
    assert white + NumberText(n) + rest == white + text;
    TrimStartOf(white, text);
    if n < 0 {
      assert text[1..] == Decimal(-n) + rest;
      DigitPrefixOf(Decimal(-n), rest);
    } else {
      assert text == Decimal(n) + rest;
      DigitPrefixOf(Decimal(n), rest);
    }
  }

  lemma NumberStarts(n: int)
    ensures NumberText(n) != [] && !IsSpace(NumberText(n)[0])
    ensures if n < 0 then NumberText(n)[0] == '-' else IsDigit(NumberText(n)[0]) && NumberText(n)[0] !in {'-', '+'}
  {
    if n >= 0 {
      var d := Decimal(n);
      hide Decimal;
      assert d[0] in d;
      DigitsAreInk(d[0]);
    }
  }
}
