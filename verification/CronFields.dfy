/** Five-field cron texts and the times they stand for. */
module CronFields {
  import opened Wrappers
  import opened JsText

  // ----- The matcher -----

  predicate Divides(step: int, n: int) {
    step != 0 && n % step == 0
  }

  predicate WithinText(range: string, value: int)
    requires '-' in range
  {
    var ends := Split(range, '-');
    var lo, hi := ToNumber(ends[0]), ToNumber(ends[1]);
    lo.Some? && hi.Some? && lo.value <= value <= hi.value
  }

  predicate SteppedText(range: string, step: int, value: int)
    requires '-' in range
  {
    WithinText(range, value) && Divides(step, value - ToNumber(Split(range, '-')[0]).value)
  }

  /** One comma-separated part. */
  predicate PartMatches(part: string, value: int) {
    if '/' in part then
      var pieces := Split(part, '/');
      var range, step := pieces[0], ParseInt(pieces[1]);
      if step.None? then false
      else if range == "*" then Divides(step.value, value)
      else '-' in range && SteppedText(range, step.value, value)
    else if '-' in part then WithinText(part, value)
    else ParseInt(part) == Some(value)
  }

  predicate FieldMatches(field: string, value: int) {
    field == "*" || var parts := Split(field, ','); exists k :: 0 <= k < |parts| && PartMatches(parts[k], value)
  }

  datatype Cron = Cron(minute: string, hour: string, dayOfMonth: string, month: string, dayOfWeek: string)

  /** The characters before the first white space. */
  function Word(s: string): (w: string)
    ensures |w| <= |s| && w == s[..|w|]
    ensures forall c :: c in w ==> !IsSpace(c)
    ensures |w| == |s| || IsSpace(s[|w|])
  {
    if s == [] || IsSpace(s[0]) then [] else [s[0]] + Word(s[1..])
  }

  /** s.split(/\s+/). */
  function SplitSpaces(s: string): (words: seq<string>)
    decreases |s|
  {
    var w := Word(s);
    if |w| == |s| then [s]
    else
      var rest := s[|w|..];
      assert TrimStart(rest) == TrimStart(rest[1..]);
      [w] + SplitSpaces(TrimStart(rest))
  }

  function ParseCron(expr: string): Option<Cron> {
    var parts := SplitSpaces(Trim(expr));
    if expr == [] || |parts| != 5 then None
    else Some(Cron(parts[0], parts[1], parts[2], parts[3], parts[4]))
  }

  /** The fields of a Date the matcher looks at; months count from 1, weekdays from Sunday = 0. */
  datatype CivilTime = CivilTime(minute: nat, hour: nat, dayOfMonth: nat, month: nat, dayOfWeek: nat)

  predicate CronMatches(expr: string, at: CivilTime) {
    var c := ParseCron(expr);
    && c.Some?
    && FieldMatches(c.value.minute, at.minute)
    && FieldMatches(c.value.hour, at.hour)
    && FieldMatches(c.value.dayOfMonth, at.dayOfMonth)
    && FieldMatches(c.value.month, at.month)
    && FieldMatches(c.value.dayOfWeek, at.dayOfWeek)
  }

  // ----- What a field means -----

  datatype Term =
    | Star
    | Single(n: nat)
    | Range(lo: nat, hi: nat)
    | Every(step: nat)
    | SingleStep(n: nat, step: nat)
    | Stepped(lo: nat, hi: nat, step: nat)

  function TermText(t: Term): string {
    match t
    case Star => "*"
    case Single(n) => Decimal(n)
    case Range(lo, hi) => Decimal(lo) + "-" + Decimal(hi)
    case Every(step) => "*/" + Decimal(step)
    case SingleStep(n, step) => Decimal(n) + "/" + Decimal(step)
    case Stepped(lo, hi, step) => Decimal(lo) + "-" + Decimal(hi) + "/" + Decimal(step)
  }

  /** The values a term of a list stands for. A star in a list stands for none, and neither does a step
      after a single number. */
  predicate TermHolds(t: Term, value: nat) {
    match t
    case Star => false
    case Single(n) => value == n
    case Range(lo, hi) => lo <= value <= hi
    case Every(step) => step > 0 && value % step == 0
    case SingleStep(_, _) => false
    case Stepped(lo, hi, step) => lo <= value <= hi && step > 0 && (value - lo) % step == 0
  }

  function Texts(terms: seq<Term>): (texts: seq<string>)
    ensures |texts| == |terms|
    ensures forall k :: 0 <= k < |terms| ==> texts[k] == TermText(terms[k])
  {
    seq(|terms|, k requires 0 <= k < |terms| => TermText(terms[k]))
  }

  function FieldText(terms: seq<Term>): string {
    Join(Texts(terms), ',')
  }

  /** A field means everything when it is a lone star, and else the union of its terms. */
  predicate FieldHolds(terms: seq<Term>, value: nat) {
    terms == [Star] || exists k :: 0 <= k < |terms| && TermHolds(terms[k], value)
  }

  lemma {:induction false} DecimalClean(n: nat)
    ensures forall c :: c in Decimal(n) ==> c !in {'-', '+', '*', '/', ','} && !IsSpace(c)
  {
    forall c | c in Decimal(n) ensures c !in {'-', '+', '*', '/', ','} && !IsSpace(c) {
      DigitsAreInk(c);
    }
  }

  lemma SplitPair(a: string, b: string, sep: char)
    requires sep !in a && sep !in b
    ensures Split(a + [sep] + b, sep) == [a, b]
  {
    SplitPiece(a, b, sep);
  }

  lemma RangeText(lo: nat, hi: nat, value: nat)
    ensures var text := Decimal(lo) + "-" + Decimal(hi);
            '-' in text && '/' !in text && Split(text, '-') == [Decimal(lo), Decimal(hi)]
            && (WithinText(text, value) <==> lo <= value <= hi)
  {
    hide Decimal, ParseInt, Split, ToNumber, Value;
    var text := Decimal(lo) + "-" + Decimal(hi);
    DecimalClean(lo);
    DecimalClean(hi);
    DecimalReadsBack(lo);
    DecimalReadsBack(hi);
    SplitPair(Decimal(lo), Decimal(hi), '-');
    assert text[|Decimal(lo)|] == '-';
  }

  lemma EveryText(step: nat, value: nat)
    ensures PartMatches("*/" + Decimal(step), value) <==> Divides(step, value)
  {
    hide Decimal, ParseInt, Split, ToNumber, Value, SteppedText, WithinText;
    DecimalClean(step);
    DecimalReadsBack(step);
    var text := "*/" + Decimal(step);
    assert text[1] == '/';
    assert text == "*" + ['/'] + Decimal(step);
    SplitPair("*", Decimal(step), '/');
  }

  lemma {:induction false} SingleStepText(n: nat, step: nat, value: nat)
    ensures !PartMatches(Decimal(n) + "/" + Decimal(step), value)
  {
    hide Decimal, ParseInt, Split, ToNumber, Value, SteppedText, WithinText;
    var text := Decimal(n) + "/" + Decimal(step);
    DecimalClean(n);
    DecimalClean(step);
    SplitPair(Decimal(n), Decimal(step), '/');
    assert text == Decimal(n) + ['/'] + Decimal(step);
    assert text[|Decimal(n)|] == '/';
    assert Decimal(n) != "*" by { assert '*' in "*"; }
  }

  lemma {:induction false} SlashText(range: string, step: nat, value: nat)
    requires '-' in range && '/' !in range
    ensures PartMatches(range + "/" + Decimal(step), value) <==> SteppedText(range, step, value)
  {
    hide Decimal, ParseInt, Split, ToNumber, Value, SteppedText, WithinText;
    var text := range + "/" + Decimal(step);
    DecimalClean(step);
    DecimalReadsBack(step);
    SplitPair(range, Decimal(step), '/');
    assert text == range + ['/'] + Decimal(step);
    assert text[|range|] == '/';
    assert range != "*" by { assert '-' !in "*"; }
  }

  lemma {:induction false} StepsOfRange(lo: nat, hi: nat, step: nat, value: nat)
    ensures
      var range := Decimal(lo) + "-" + Decimal(hi);
      '-' in range && '/' !in range
      && (SteppedText(range, step, value) <==> lo <= value <= hi && Divides(step, value - lo))
  {
    hide Decimal, ParseInt, Split, ToNumber, Value;
    RangeText(lo, hi, value);
    DecimalReadsBack(lo);
  }

  lemma {:induction false} RangeStepText(lo: nat, hi: nat, step: nat, value: nat)
    ensures PartMatches(Decimal(lo) + "-" + Decimal(hi) + "/" + Decimal(step), value) <==>
            lo <= value <= hi && Divides(step, value - lo)
  {
    StepsOfRange(lo, hi, step, value);
    SlashText(Decimal(lo) + "-" + Decimal(hi), step, value);
  }

  lemma StarText(text: string, value: nat)
    requires text == "*"
    ensures !PartMatches(text, value)
  {
    hide Split, ToNumber, Value, SteppedText, WithinText;
    assert TrimStart(text) == text && DigitPrefix(text) == [];
    assert '/' !in text && '-' !in text;
  }

  lemma SingleText(n: nat, value: nat)
    ensures PartMatches(Decimal(n), value) <==> value == n
  {
    hide Decimal, ParseInt, Split, ToNumber, Value, SteppedText, WithinText;
    DecimalClean(n);
    DecimalReadsBack(n);
  }

  /** Reading one printed term gives what it stands for. */
  lemma PartMeansTerm(t: Term, value: nat)
    ensures PartMatches(TermText(t), value) <==> TermHolds(t, value)
  {
    hide Decimal, Split, ParseInt, ToNumber, Value;
    match t
    case Star => StarText("*", value);
    case Single(n) => SingleText(n, value);
    case Range(lo, hi) =>
      RangeText(lo, hi, value);
    case Every(step) =>
      EveryText(step, value);
    case SingleStep(n, step) =>
      SingleStepText(n, step, value);
    case Stepped(lo, hi, step) =>
      RangeStepText(lo, hi, step, value);
  }

  lemma RangeTextClean(lo: nat, hi: nat)
    ensures var text := Decimal(lo) + "-" + Decimal(hi);
            |text| > 1 && ',' !in text && forall c :: c in text ==> !IsSpace(c)
  {
    DecimalClean(lo);
    DecimalClean(hi);
    assert !IsSpace('-');
  }

  lemma TermTextClean(t: Term)
    ensures TermText(t) != [] && ',' !in TermText(t) && (forall c :: c in TermText(t) ==> !IsSpace(c))
    ensures TermText(t) == "*" <==> t == Star
  {
    match t
    case Star => assert !IsSpace('*');
    case Single(n) =>
      DecimalClean(n);
      assert Decimal(n)[0] in Decimal(n);
    case Range(lo, hi) =>
      RangeTextClean(lo, hi);
    case Every(step) =>
      DecimalClean(step);
      assert !IsSpace('*') && !IsSpace('/');
    case SingleStep(n, step) =>
      DecimalClean(n);
      DecimalClean(step);
      assert !IsSpace('/') && |Decimal(n) + "/" + Decimal(step)| > 1;
    case Stepped(lo, hi, step) =>
      RangeTextClean(lo, hi);
      DecimalClean(step);
      assert !IsSpace('/');
  }

  /** The matcher on a printed field decides exactly the union of the terms' values; a bare star
      counts only when it is the whole field. */
  lemma {:induction false} FieldMeansTerms(terms: seq<Term>, value: nat)
    requires terms != []
    ensures FieldMatches(FieldText(terms), value) <==> FieldHolds(terms, value)
  {
    var texts := Texts(terms);
    forall k | 0 <= k < |terms|
      ensures ',' !in texts[k] && (texts[k] == "*" <==> terms[k] == Star)
      ensures PartMatches(texts[k], value) <==> TermHolds(terms[k], value)
    {
      TermTextClean(terms[k]);
      PartMeansTerm(terms[k], value);
    }
    SplitOfJoin(texts, ',');
    if |terms| > 1 {
      assert FieldText(terms)[|texts[0]|] == ',';
    }
  }

  // ----- What a cron text means -----

  datatype Schedule = Schedule(minute: seq<Term>, hour: seq<Term>, dayOfMonth: seq<Term>,
                               month: seq<Term>, dayOfWeek: seq<Term>)

  function Fields(s: Schedule): seq<seq<Term>> {
    [s.minute, s.hour, s.dayOfMonth, s.month, s.dayOfWeek]
  }

  function FieldTexts(s: Schedule): (texts: seq<string>)
    ensures |texts| == 5
  {
    [FieldText(s.minute), FieldText(s.hour), FieldText(s.dayOfMonth), FieldText(s.month), FieldText(s.dayOfWeek)]
  }

  function CronText(s: Schedule): string {
    Join(FieldTexts(s), ' ')
  }

  predicate IsWord(s: string) {
    s != [] && forall c :: c in s ==> !IsSpace(c)
  }

  lemma {:induction false} JoinIsWord(parts: seq<string>)
    requires parts != [] && forall p :: p in parts ==> IsWord(p)
    ensures IsWord(Join(parts, ','))
  {
    if |parts| > 1 {
      JoinIsWord(parts[1..]);
      assert !IsSpace(',');
      assert IsWord(parts[0]);
    }
  }

  lemma FieldTextIsWord(terms: seq<Term>)
    requires terms != []
    ensures IsWord(FieldText(terms))
  {
    var texts := Texts(terms);
    forall p | p in texts ensures IsWord(p) {
      var k :| 0 <= k < |texts| && texts[k] == p;
      TermTextClean(terms[k]);
    }
    JoinIsWord(texts);
  }

  predicate IsGap(s: string) {
    s != [] && Blank(s)
  }

  lemma {:induction false} WordThenGap(w: string, gap: string, rest: string)
    requires IsGap(gap) && forall c :: c in w ==> !IsSpace(c)
    ensures Word(w + gap + rest) == w
  {
    var s := w + gap + rest;
    if w != [] {
      assert s[1..] == w[1..] + gap + rest;
      WordThenGap(w[1..], gap, rest);
    } else {
      assert s[0] == gap[0];
    }
  }

  lemma {:induction false} WholeWord(w: string)
    requires forall c :: c in w ==> !IsSpace(c)
    ensures Word(w) == w
  {
  }

  lemma {:induction false} JoinedWords(words: seq<string>)
    requires words != [] && forall i :: 0 <= i < |words| ==> IsWord(words[i])
    ensures SplitSpaces(Join(words, ' ')) == words
    ensures Join(words, ' ') != [] && Trimmed(Join(words, ' '))
  {
    hide SplitSpaces, IsGap;
    if |words| == 1 {
      OneWord(words[0]);
      assert words == [words[0]];
    } else {
      JoinedWords(words[1..]);
      OneSpaceIsGap();
      OneMoreWord(words[0], [' '], Join(words[1..], ' '));
      assert words == [words[0]] + words[1..];
    }
  }

  lemma OneSpaceIsGap()
    ensures IsGap([' '])
  {
  }

  lemma OneWord(w: string)
    requires IsWord(w)
    ensures SplitSpaces(w) == [w] && Trimmed(w)
  {
    WholeWord(w);
    assert w[0] in w && w[|w| - 1] in w;
  }

  lemma {:induction false} OneMoreWord(w: string, gap: string, rest: string)
    requires IsWord(w) && IsGap(gap) && rest != [] && Trimmed(rest)
    ensures var s := w + gap + rest;
            SplitSpaces(s) == [w] + SplitSpaces(rest) && Trimmed(s)
  {
    hide Word, TrimStart;
    var s := w + gap + rest;
    WordThenGap(w, gap, rest);
    assert w[0] in w && !IsSpace(w[0]);
    var tail := s[|w|..];
    assert tail == gap + rest;
    TrimStartOf(gap, rest);
    assert s[0] == w[0] && s[|s| - 1] == rest[|rest| - 1];
  }

  /** A printed schedule matches a time exactly when all five fields hold of it: the day of the month
      and the day of the week must both hold, unlike in POSIX crontab. */
  lemma CronMeansSchedule(s: Schedule, at: CivilTime)
    requires forall f :: f in Fields(s) ==> f != []
    ensures CronMatches(CronText(s), at) <==>
            FieldHolds(s.minute, at.minute) && FieldHolds(s.hour, at.hour)
            && FieldHolds(s.dayOfMonth, at.dayOfMonth) && FieldHolds(s.month, at.month)
            && FieldHolds(s.dayOfWeek, at.dayOfWeek)
  {
    var f := Fields(s);
    assert f[0] in f && f[1] in f && f[2] in f && f[3] in f && f[4] in f;
    FieldTextIsWord(s.minute);
    FieldTextIsWord(s.hour);
    FieldTextIsWord(s.dayOfMonth);
    FieldTextIsWord(s.month);
    FieldTextIsWord(s.dayOfWeek);
    JoinedWords(FieldTexts(s));
    TrimOfTrimmed(CronText(s));
    FieldMeansTerms(s.minute, at.minute);
    FieldMeansTerms(s.hour, at.hour);
    FieldMeansTerms(s.dayOfMonth, at.dayOfMonth);
    FieldMeansTerms(s.month, at.month);
    FieldMeansTerms(s.dayOfWeek, at.dayOfWeek);
  }

  // ----- However it is spaced -----

  /** The words with white space between them. */
  function Spaced(words: seq<string>, gaps: seq<string>): string
    requires words != [] && |gaps| == |words| - 1
  {
    if |words| == 1 then words[0] else words[0] + gaps[0] + Spaced(words[1..], gaps[1..])
  }

  predicate AllWords(words: seq<string>) {
    forall i :: 0 <= i < |words| ==> IsWord(words[i])
  }

  predicate AllGaps(gaps: seq<string>) {
    forall i :: 0 <= i < |gaps| ==> IsGap(gaps[i])
  }

  lemma {:induction false} SpacedWords(words: seq<string>, gaps: seq<string>)
    requires words != [] && |gaps| == |words| - 1 && AllWords(words) && AllGaps(gaps)
    ensures
      var text := Spaced(words, gaps);
      SplitSpaces(text) == words && text != [] && Trimmed(text)
    decreases |words|
  {
    hide SplitSpaces, IsWord, IsGap;
    if |words| == 1 {
      OneWord(words[0]);
      WordNotEmpty(words[0]);
      assert words == [words[0]];
    } else {
      SpacedWords(words[1..], gaps[1..]);
      OneMoreWord(words[0], gaps[0], Spaced(words[1..], gaps[1..]));
      WordNotEmpty(words[0]);
      assert words == [words[0]] + words[1..];
    }
  }

  lemma WordNotEmpty(w: string)
    requires IsWord(w)
    ensures w != []
  {
  }

  /** A text is a cron text exactly when it has five words, whatever white space stands around and
      between them; and these are its fields, in order. */
  lemma {:induction false} ParsedIffFive(before: string, words: seq<string>, gaps: seq<string>, after: string)
    requires words != [] && |gaps| == |words| - 1 && AllWords(words) && AllGaps(gaps)
    requires Blank(before) && Blank(after)
    ensures ParseCron(before + Spaced(words, gaps) + after) ==
            if |words| == 5 then Some(Cron(words[0], words[1], words[2], words[3], words[4])) else None
  {
    hide SplitSpaces, Trim, Spaced;
    SpacedWords(words, gaps);
    TrimOf(before, Spaced(words, gaps), after);
  }

  /** So any spacing of a printed schedule means the same. */
  lemma {:induction false} SpacingIsIgnored(before: string, s: Schedule, gaps: seq<string>, after: string,
                                            at: CivilTime)
    requires forall f :: f in Fields(s) ==> f != []
    requires |gaps| == 4 && AllGaps(gaps) && Blank(before) && Blank(after)
    ensures CronMatches(before + Spaced(FieldTexts(s), gaps) + after, at) <==> CronMatches(CronText(s), at)
  {
    hide ParseCron, Spaced, FieldMatches, FieldText, Join;
    var f, texts, single := Fields(s), FieldTexts(s), [[' '], [' '], [' '], [' ']];
    assert f[0] in f && f[1] in f && f[2] in f && f[3] in f && f[4] in f;
    FieldTextIsWord(s.minute);
    FieldTextIsWord(s.hour);
    FieldTextIsWord(s.dayOfMonth);
    FieldTextIsWord(s.month);
    FieldTextIsWord(s.dayOfWeek);
    ParsedIffFive(before, texts, gaps, after);
    ParsedIffFive([], texts, single, []);
    JoinIsSpaced(texts, single);
    assert [] + Spaced(texts, single) + [] == Spaced(texts, single);
  }

  lemma {:induction false} JoinIsSpaced(words: seq<string>, gaps: seq<string>)
    requires words != [] && |gaps| == |words| - 1 && forall i :: 0 <= i < |gaps| ==> gaps[i] == [' ']
    ensures Spaced(words, gaps) == Join(words, ' ')
    decreases |words|
  {
    if |words| > 1 {
      JoinIsSpaced(words[1..], gaps[1..]);
    }
  }
}
