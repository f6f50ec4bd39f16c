/** How a caller's timing options become the limits of a command. */
module NexusTiming {
  import opened Wrappers
  import opened JsText

  const MAX_TIMEOUT_MS := 30 * 60 * 1000
  const MAX_LEASE_MS := 10 * 60 * 1000
  const MIN_SPAN_MS := 100
  const MAX_ATTEMPTS := 10
  const MAX_CLAIM := 10

  /** A caller's option, under its camelCase and its snake_case name, as String() renders it. */
  datatype Setting = Setting(camel: Option<string>, snake: Option<string>)

  datatype Options = Options(timeout: Setting, lease: Setting, attempts: Setting)

  datatype Timing = Timing(timeoutMs: int, leaseMs: int, maxAttempts: int)

  /** The range every accepted command lives in. */
  predicate InRange(t: Timing) {
    && MIN_SPAN_MS <= t.timeoutMs <= MAX_TIMEOUT_MS
    && MIN_SPAN_MS <= t.leaseMs <= MAX_LEASE_MS
    && 1 <= t.maxAttempts <= MAX_ATTEMPTS
  }

  /** 2^256, and 2^256 - 2^202. */
  const TWO_256: int := 0x1_0000_0000_0000_0000_0000_0000_0000_0000_0000_0000_0000_0000_0000_0000_0000_0000
  const TOP_54_BITS: int := 0xFFFF_FFFF_FFFF_FC00_0000_0000_0000_0000_0000_0000_0000_0000_0000_0000_0000_0000

  /** 2^1024 - 2^970: an integer text from here on rounds to Infinity as a double. */
  const OVERFLOW: int := TOP_54_BITS * TWO_256 * TWO_256 * TWO_256

  function Pow2(n: nat): nat {
    if n == 0 then 1 else 2 * Pow2(n - 1)
  }

  lemma {:induction false} Pow2Adds(a: nat, b: nat)
    ensures Pow2(a + b) == Pow2(a) * Pow2(b)
    decreases a
  {
    if a > 0 {
      Pow2Adds(a - 1, b);
    }
  }

  lemma {:induction false} Pow2Twice(n: nat, p: nat)
    requires Pow2(n) == p
    ensures Pow2(2 * n) == p * p
  {
    hide Pow2;
    Pow2Adds(n, n);
  }

  lemma Pow2Values()
    ensures Pow2(256) == TWO_256 && TOP_54_BITS == TWO_256 - Pow2(202)
  {
    assert Pow2(2) == 4 && Pow2(8) == 256;
    hide Pow2;
    Pow2Twice(8, 0x100);
    Pow2Twice(16, 0x1_0000);
    Pow2Twice(32, 0x1_0000_0000);
    Pow2Twice(64, 0x1_0000_0000_0000_0000);
    Pow2Twice(128, 0x1_0000_0000_0000_0000_0000_0000_0000_0000);
    Pow2Adds(128, 64);
    Pow2Adds(192, 8);
    Pow2Adds(200, 2);
  }

  lemma Cubes(a: int, q: int)
    ensures (a - q) * a * a * a == a * a * a * a - a * a * a * q
  {
  }

  /** The bound is what it is said to be. */
  lemma OverflowIs(n: nat)
    requires n == 256
    ensures OVERFLOW == Pow2(4 * n) - Pow2(3 * n + 202)
  {
    Pow2Values();
    hide Pow2, TWO_256, TOP_54_BITS;
    var a, q := TWO_256, Pow2(202);
    Pow2Adds(n, n);
    Pow2Adds(2 * n, n);
    Pow2Adds(3 * n, n);
    Pow2Adds(3 * n, 202);
    Cubes(a, q);
  }

  /** Number.isFinite of a parsed integer. */
  predicate IsFinite(n: int) {
    -OVERFLOW < n < OVERFLOW
  }

  function Clamp(text: string, fallback: int, min: int, max: int): int {
    match ParseInt(text)
    case None => fallback
    case Some(n) =>
      if !IsFinite(n) then fallback
      else if n < min then min
      else if n > max then max
      else n
  }

  /** `camel ?? snake`, then String(): a setting given under neither name reads "undefined". */
  function Text(s: Setting): string {
    s.camel.GetOr(s.snake.GetOr("undefined"))
  }

  function ResolveTiming(o: Options, defaults: Timing): Timing {
    Timing(
      Clamp(Text(o.timeout), defaults.timeoutMs, MIN_SPAN_MS, MAX_TIMEOUT_MS),
      Clamp(Text(o.lease), defaults.leaseMs, MIN_SPAN_MS, MAX_LEASE_MS),
      Clamp(Text(o.attempts), defaults.maxAttempts, 1, MAX_ATTEMPTS))
  }

  /** A setting given under neither name is not a number, so the default is taken as it stands. */
  lemma UndefinedIsNaN()
    ensures ParseInt("undefined") == None
  {
    LetterIsNaN("undefined");
  }

  lemma LetterIsNaN(s: string)
    requires s != [] && 'a' <= s[0] <= 'z'
    ensures ParseInt(s) == None
  {
    LetterIsNoDigit(s[0]);
    assert TrimStart(s) == s;
    assert DigitPrefix(s) == [];
  }

  lemma LetterIsNoDigit(c: char)
    requires 'a' <= c <= 'z'
    ensures !IsSpace(c) && !IsDigit(c) && c !in {'-', '+'}
  {
  }

  lemma ResolveInRange(o: Options, defaults: Timing)
    requires InRange(defaults)
    ensures InRange(ResolveTiming(o, defaults))
  {
  }

  /** Every resolution is in range exactly when the defaults are: the fallback is never clamped. */
  lemma TimingInRangeIffDefaultsAre(defaults: Timing)
    ensures (forall o :: InRange(ResolveTiming(o, defaults))) <==> InRange(defaults)
  {
    var unset := Setting(None, None);
    var o := Options(unset, unset, unset);
    UndefinedIsNaN();
    assert ResolveTiming(o, defaults) == defaults;
    if InRange(defaults) {
      forall o ensures InRange(ResolveTiming(o, defaults)) {
        ResolveInRange(o, defaults);
      }
    }
  }

  function Between(n: int, min: int, max: int): int {
    if n < min then min else if n > max then max else n
  }

  /** A caller writes a number for a setting: the camelCase name wins over the snake_case one. */
  predicate Says(s: Setting, n: int) {
    s.camel == Some(NumberText(n)) || (s.camel.None? && s.snake == Some(NumberText(n)))
  }

  lemma ClampReads(text: string, white: string, n: int, rest: string, fallback: int, min: int, max: int)
    requires text == white + NumberText(n) + rest && Blank(white) && (rest == [] || !IsDigit(rest[0]))
    ensures Clamp(text, fallback, min, max) == if -OVERFLOW < n < OVERFLOW then Between(n, min, max) else fallback
  {
    NumberReadsBack(white, n, rest);
  }

  lemma SettingMeans(s: Setting, n: int, fallback: int, min: int, max: int)
    ensures Says(s, n) && -OVERFLOW < n < OVERFLOW ==> Clamp(Text(s), fallback, min, max) == Between(n, min, max)
    ensures s == Setting(None, None) ==> Clamp(Text(s), fallback, min, max) == fallback
  {
    hide NumberText, ParseInt;
    UndefinedIsNaN();
    if Says(s, n) {
      assert Text(s) == "" + NumberText(n) + "";
      ClampReads(Text(s), "", n, "", fallback, min, max);
    }
  }

  /** Each limit is the number asked for, moved into its range if it is outside; and the configured
      default if nothing is asked for. */
  lemma {:induction false} TimingAsAsked(o: Options, defaults: Timing, timeout: int, lease: int, attempts: int)
    requires -OVERFLOW < timeout < OVERFLOW && -OVERFLOW < lease < OVERFLOW && -OVERFLOW < attempts < OVERFLOW
    ensures
      var t := ResolveTiming(o, defaults);
      && (Says(o.timeout, timeout) ==> t.timeoutMs == Between(timeout, 100, 1_800_000))
      && (Says(o.lease, lease) ==> t.leaseMs == Between(lease, 100, 600_000))
      && (Says(o.attempts, attempts) ==> t.maxAttempts == Between(attempts, 1, 10))
      && (o.timeout == Setting(None, None) ==> t.timeoutMs == defaults.timeoutMs)
      && (o.lease == Setting(None, None) ==> t.leaseMs == defaults.leaseMs)
      && (o.attempts == Setting(None, None) ==> t.maxAttempts == defaults.maxAttempts)
  {
    hide Clamp, Says, Text;
    SettingMeans(o.timeout, timeout, defaults.timeoutMs, MIN_SPAN_MS, MAX_TIMEOUT_MS);
    SettingMeans(o.lease, lease, defaults.leaseMs, MIN_SPAN_MS, MAX_LEASE_MS);
    SettingMeans(o.attempts, attempts, defaults.maxAttempts, 1, MAX_ATTEMPTS);
  }

  /** `Math.max(1, Math.min(10, parseInt(limit || '5') || 5))`. */
  function ClaimLimit(query: Option<string>): (limit: nat)
    ensures 1 <= limit <= MAX_CLAIM
  {
    var text := query.GetOr("");
    var parsed := ParseInt(if text == "" then "5" else text);
    var n := if parsed.None? || parsed.value == 0 then 5 else parsed.value;
    if n > MAX_CLAIM then MAX_CLAIM else if n < 1 then 1 else n
  }

  lemma NumberIsText(n: int)
    ensures NumberText(n) != ""
  {
  }

  lemma FiveIsFive()
    ensures ParseInt("5") == Some(5)
  {
    hide ParseInt;
    NumberReadsBack("", 5, "");
    assert NumberText(5) == "5";
    assert "" + NumberText(5) + "" == "5";
  }

  /** A poll is given as many commands as it asks for, but at least 1 and at most 10; and 5 if it asks
      for none, or for 0. */
  lemma {:induction false} ClaimLimitMeans(n: int)
    ensures ClaimLimit(None) == ClaimLimit(Some("")) == 5
    ensures ClaimLimit(Some(NumberText(n))) == if n == 0 then 5 else Between(n, 1, 10)
  {
    FiveIsFive();
    hide ParseInt, NumberText;
    NumberReadsBack("", n, "");
    assert "" + NumberText(n) + "" == NumberText(n);
    NumberIsText(n);
  }
}
