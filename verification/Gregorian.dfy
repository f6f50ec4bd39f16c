/** The calendar in UTC, and schedules that the search for the next run is too short for. */
module Gregorian {
  import opened JsText
  import opened CronFields
  import opened CronRuns

  datatype Date = Date(year: int, month: nat, day: nat)

  predicate IsLeap(year: int) {
    year % 4 == 0 && (year % 100 != 0 || year % 400 == 0)
  }

  function YearLength(year: int): nat {
    if IsLeap(year) then 366 else 365
  }

  function MonthLength(year: int, month: nat): nat {
    if month == 2 then if IsLeap(year) then 29 else 28
    else if month in {4, 6, 9, 11} then 30
    else 31
  }

  predicate ValidDate(d: Date) {
    1 <= d.month <= 12 && 1 <= d.day <= MonthLength(d.year, d.month)
  }

  function NextDay(d: Date): Date {
    if d.day < MonthLength(d.year, d.month) then d.(day := d.day + 1)
    else if d.month < 12 then Date(d.year, d.month + 1, 1)
    else Date(d.year + 1, 1, 1)
  }

  function PreviousDay(d: Date): Date
    requires ValidDate(d)
  {
    if d.day > 1 then d.(day := d.day - 1)
    else if d.month > 1 then Date(d.year, d.month - 1, MonthLength(d.year, d.month - 1))
    else Date(d.year - 1, 12, 31)
  }

  /** The date n days after 1 January 1970. */
  function DateOf(n: int): (d: Date)
    ensures ValidDate(d)
    decreases if n < 0 then -n else n
  {
    if n == 0 then Date(1970, 1, 1)
    else if n > 0 then NextDay(DateOf(n - 1))
    else PreviousDay(DateOf(n + 1))
  }

  /** Days follow one another, before 1970 too. */
  lemma OneDayLater(n: int)
    ensures DateOf(n + 1) == NextDay(DateOf(n))
  {
  }

  const DAY := 24 * 60 * MINUTE

  /** The civil time of an instant in UTC; 1 January 1970 was a Thursday. */
  function Utc(t: int): CivilTime {
    var day := t / DAY;
    var date := DateOf(day);
    CivilTime(t / MINUTE % 60, t / (60 * MINUTE) % 24, date.day, date.month, (day + 4) % 7)
  }

  // ----- Days of a year -----

  /** The days of the year before the month. */
  function DaysBefore(year: int, month: nat): nat {
    var leap := if IsLeap(year) then 1 else 0;
    match month
    case 2 => 31
    case 3 => 59 + leap
    case 4 => 90 + leap
    case 5 => 120 + leap
    case 6 => 151 + leap
    case 7 => 181 + leap
    case 8 => 212 + leap
    case 9 => 243 + leap
    case 10 => 273 + leap
    case 11 => 304 + leap
    case 12 => 334 + leap
    case _ => 0
  }

  /** How many days of its year a date has behind it. */
  function Ordinal(d: Date): int {
    DaysBefore(d.year, d.month) + d.day - 1
  }

  lemma OrdinalNext(d: Date)
    requires ValidDate(d)
    ensures 0 <= Ordinal(d) < YearLength(d.year)
    ensures
      if Ordinal(d) + 1 < YearLength(d.year)
      then NextDay(d).year == d.year && Ordinal(NextDay(d)) == Ordinal(d) + 1
      else NextDay(d) == Date(d.year + 1, 1, 1)
  {
  }

  predicate IsLeapDay(d: Date) {
    d.month == 2 && d.day == 29
  }

  lemma LeapDayOrdinal(d: Date)
    requires ValidDate(d)
    ensures IsLeapDay(d) <==> IsLeap(d.year) && Ordinal(d) == 59
  {
  }

  /** The number of 1 January of a year. */
  function YearDay(year: int): int
    requires year >= 1970
    decreases year
  {
    if year == 1970 then 0 else YearDay(year - 1) + YearLength(year - 1)
  }

  lemma {:induction false} DayOfYear(year: int, k: nat)
    requires year >= 1970 && k < YearLength(year)
    ensures DateOf(YearDay(year) + k).year == year && Ordinal(DateOf(YearDay(year) + k)) == k
    decreases year, k
  {
    if k > 0 {
      hide DateOf, Ordinal, NextDay, YearDay, IsLeap;
      DayOfYear(year, k - 1);
      StepInto(YearDay(year) + k - 1);
    } else if year == 1970 {
      assert DateOf(0) == Date(1970, 1, 1);
    } else {
      hide DateOf, NextDay, IsLeap;
      DayOfYear(year - 1, YearLength(year - 1) - 1);
      StepInto(YearDay(year) - 1);
    }
  }

  lemma StepInto(n: int)
    ensures DateOf(n + 1) == NextDay(DateOf(n))
    ensures
      var d := DateOf(n);
      if Ordinal(d) + 1 < YearLength(d.year)
      then DateOf(n + 1).year == d.year && Ordinal(DateOf(n + 1)) == Ordinal(d) + 1
      else DateOf(n + 1) == Date(d.year + 1, 1, 1)
  {
    OneDayLater(n);
    OrdinalNext(DateOf(n));
  }

  // ----- The leap day -----

  /** The number of 29 February of a leap year. */
  function LeapDay(year: int): int
    requires year >= 1970
  {
    YearDay(year) + 59
  }

  lemma LeapDayIs(year: int)
    requires year >= 1970 && IsLeap(year)
    ensures IsLeapDay(DateOf(LeapDay(year)))
  {
    DayOfYear(year, 59);
    LeapDayOrdinal(DateOf(LeapDay(year)));
  }

  lemma {:induction false} LaterLeapDay(y: int, z: int)
    requires 1970 <= y < z
    ensures LeapDay(y) < LeapDay(z)
    decreases z
  {
    if y < z - 1 {
      LaterLeapDay(y, z - 1);
    }
  }

  /** None of the 366 days after a leap day is one. */
  lemma NoLeapDaySoon(year: int, k: int)
    requires year >= 1970 && IsLeap(year) && 1 <= k <= 366
    ensures !IsLeapDay(DateOf(LeapDay(year) + k))
  {
    hide DateOf, Ordinal, NextDay;
    var n := LeapDay(year) + k;
    if 59 + k < 366 {
      DayOfYear(year, 59 + k);
    } else {
      assert YearDay(year + 1) == YearDay(year) + 366 && !IsLeap(year + 1);
      DayOfYear(year + 1, 59 + k - 366);
      assert YearDay(year + 1) + (59 + k - 366) == n;
    }
    LeapDayOrdinal(DateOf(n));
  }

  // ----- Once a year -----

  /** A schedule for one time of one date: its cron text is "minute hour day month *". */
  function Yearly(minute: nat, hour: nat, day: nat, month: nat): Schedule {
    Schedule([Single(minute)], [Single(hour)], [Single(day)], [Single(month)], [Star])
  }

  /** That time on the n-th day. */
  function TimeOf(n: int, hour: nat, minute: nat): int {
    n * DAY + hour * (60 * MINUTE) + minute * MINUTE
  }

  predicate IsTime(t: int, hour: nat, minute: nat) {
    t == TimeOf(t / DAY, hour, minute)
  }

  /** Minutes, hours and days of an instant. */
  lemma ClockFace(t: int)
    ensures
      var m, h, n := t / MINUTE, t / (60 * MINUTE), t / DAY;
      t == DAY * n + 60 * MINUTE * (h % 24) + MINUTE * (m % 60) + t % MINUTE
  {
    var m := t / 60000;
    var h := m / 60;
    var n := h / 24;
    assert t == 60000 * m + t % 60000 && m == 60 * h + m % 60 && h == 24 * n + h % 24;
    assert t == 3600000 * h + (60000 * (m % 60) + t % 60000);
    assert t / 3600000 == h;
    assert t == 86400000 * n + (3600000 * (h % 24) + 60000 * (m % 60) + t % 60000);
    assert t / 86400000 == n;
  }

  lemma SameFace(h: int, m: int, r: int, hour: int, minute: int)
    requires 0 <= m < 60 && 0 <= r < MINUTE && 0 <= minute < 60
    ensures 60 * MINUTE * h + MINUTE * m + r == 60 * MINUTE * hour + MINUTE * minute <==>
            h == hour && m == minute && r == 0
  {
    var d, e := h - hour, m - minute;
    assert -60 < e < 60;
    if 3600000 * d + 60000 * e + r == 0 {
      assert -3600000 < 60000 * e + r < 3600000;
      assert d == 0;
      assert e == 0;
    }
  }

  lemma TimeIs(t: int, hour: nat, minute: nat)
    requires hour < 24 && minute < 60
    ensures Aligned(t) && t / MINUTE % 60 == minute && t / (60 * MINUTE) % 24 == hour <==> IsTime(t, hour, minute)
  {
    var h, m, r := t / (60 * MINUTE) % 24, t / MINUTE % 60, t % MINUTE;
    ClockFace(t);
    SameFace(h, m, r, hour, minute);
    assert t - DAY * (t / DAY) == 60 * MINUTE * h + MINUTE * m + r;
    assert IsTime(t, hour, minute) <==> t - DAY * (t / DAY) == 60 * MINUTE * hour + MINUTE * minute;
  }

  lemma TimesOfDays(m: int, n: int, hour: nat, minute: nat)
    requires hour < 24 && minute < 60
    ensures TimeOf(m, hour, minute) / DAY == m
    ensures m < n <==> TimeOf(m, hour, minute) < TimeOf(n, hour, minute)
    ensures TimeOf(n, hour, minute) <= Horizon(TimeOf(m, hour, minute)) <==> n <= m + 366
  {
  }

  lemma SingleHolds(n: nat, value: nat)
    ensures FieldHolds([Single(n)], value) <==> value == n
  {
    assert TermHolds([Single(n)][0], value) <==> value == n;
  }

  predicate OnDate(t: int, day: nat, month: nat) {
    DateOf(t / DAY).day == day && DateOf(t / DAY).month == month
  }

  /** A run of such a schedule is that time on a day of that date. */
  lemma YearlyHit(s: Schedule, minute: nat, hour: nat, day: nat, month: nat, t: int)
    requires hour < 24 && minute < 60 && s == Yearly(minute, hour, day, month)
    ensures Hit(RuleOf(CronText(s), Utc), t) <==> IsTime(t, hour, minute) && OnDate(t, day, month)
  {
    hide DateOf, CronText, RuleOf, FieldHolds, IsTime;
    var at := Utc(t);
    HitMeansSchedule(s, Utc, t);
    SingleHolds(minute, at.minute);
    SingleHolds(hour, at.hour);
    SingleHolds(day, at.dayOfMonth);
    SingleHolds(month, at.month);
    assert FieldHolds([Star], at.dayOfWeek) by { StarHolds(at.dayOfWeek); }
    TimeIs(t, hour, minute);
  }

  lemma StarHolds(value: nat)
    ensures FieldHolds([Star], value)
  {
  }

  // ----- The leap day is too rare -----

  /** From 29 February on, the search sees no other. */
  lemma LeapDayStarves(s: Schedule, minute: nat, hour: nat, year: int)
    requires hour < 24 && minute < 60 && s == Yearly(minute, hour, 29, 2) && year >= 1970 && IsLeap(year)
    ensures !Served(RuleOf(CronText(s), Utc), TimeOf(LeapDay(year), hour, minute))
  {
    hide CronText, RuleOf, Hit, LeapDay, TimeOf, Horizon, DateOf;
    var rule, n := RuleOf(CronText(s), Utc), LeapDay(year);
    var a := TimeOf(n, hour, minute);
    forall m | a < m <= Horizon(a) ensures !Hit(rule, m) {
      YearlyHit(s, minute, hour, 29, 2, m);
      if IsTime(m, hour, minute) {
        TimesOfDays(n, m / DAY, hour, minute);
        NoLeapDaySoon(year, m / DAY - n);
      }
    }
  }

  lemma LeapDayHit(s: Schedule, minute: nat, hour: nat, year: int)
    requires hour < 24 && minute < 60 && s == Yearly(minute, hour, 29, 2) && year >= 1970 && IsLeap(year)
    ensures Hit(RuleOf(CronText(s), Utc), TimeOf(LeapDay(year), hour, minute))
  {
    hide CronText, RuleOf, Hit, LeapDay, TimeOf, DateOf;
    LeapDayIs(year);
    TimesOfDays(LeapDay(year), LeapDay(year), hour, minute);
    YearlyHit(s, minute, hour, 29, 2, TimeOf(LeapDay(year), hour, minute));
  }

  lemma JoinMore(first: string, rest: seq<string>)
    requires rest != []
    ensures Join([first] + rest, ' ') == first + " " + Join(rest, ' ')
  {
    assert ([first] + rest)[1..] == rest;
  }

  lemma JoinFive(a: string, b: string, c: string, d: string, e: string)
    ensures Join([a, b, c, d, e], ' ') == a + " " + (b + " " + (c + " " + (d + " " + e)))
  {
    assert Join([e], ' ') == e;
    hide Join;
    JoinMore(d, [e]);
    JoinMore(c, [d, e]);
    JoinMore(b, [c, d, e]);
    JoinMore(a, [b, c, d, e]);
    assert [d] + [e] == [d, e] && [c] + [d, e] == [c, d, e] && [b] + [c, d, e] == [b, c, d, e];
    assert [a] + [b, c, d, e] == [a, b, c, d, e];
  }

  lemma OneTermText(t: Term)
    ensures FieldText([t]) == TermText(t)
  {
    assert Texts([t]) == [TermText(t)];
  }

  lemma SmallDecimals()
    ensures Decimal(0) == "0" && Decimal(2) == "2" && Decimal(5) == "5"
    ensures Decimal(13) == "13" && Decimal(29) == "29"
  {
    assert Decimal(13) == Decimal(1) + "3";
    assert Decimal(29) == Decimal(2) + "9";
  }

  lemma LeapDaysText()
    ensures CronText(Yearly(0, 0, 29, 2)) == "0 0 29 2 *"
  {
    hide Decimal, FieldText, Join;
    SmallDecimals();
    OneTermText(Single(0));
    OneTermText(Single(29));
    OneTermText(Single(2));
    OneTermText(Star);
    JoinFive("0", "0", "29", "2", "*");
    assert "0" + " " + ("0" + " " + ("29" + " " + ("2" + " " + "*"))) == "0 0 29 2 *";
  }

  /** A schedule for midnight on 29 February, due on a leap day, is never expanded to any later leap
      day, whatever range is asked for: the next one is further off than the search looks. */
  lemma RunLostToDrought(text: string, y: int, z: int, start: int, end: int)
    requires text == "0 0 29 2 *" && 1970 <= y < z && IsLeap(y) && IsLeap(z)
    ensures
      var rule, due, next := RuleOf(text, Utc), TimeOf(LeapDay(y), 0, 0), TimeOf(LeapDay(z), 0, 0);
      Hit(rule, due) && Hit(rule, next) && due < next && next !in Expand(rule, due, start, end)
  {
    hide CronText, RuleOf, Hit, LeapDay, TimeOf, Expand, Served, IsLeap;
    LeapDaysText();
    var s := Yearly(0, 0, 29, 2);
    LeapDayHit(s, 0, 0, y);
    LeapDayHit(s, 0, 0, z);
    LaterLeapDay(y, z);
    TimesOfDays(LeapDay(y), LeapDay(z), 0, 0);
    LeapDayStarves(s, 0, 0, y);
    LostToDrought(RuleOf(text, Utc), TimeOf(LeapDay(y), 0, 0), start, end, TimeOf(LeapDay(z), 0, 0));
  }

  // ----- Every other date comes in time -----

  lemma FirstOrdinal(year: int)
    ensures Ordinal(Date(year, 1, 1)) == 0
  {
  }

  lemma {:induction false} YearOf(n: int)
    requires n >= 0
    ensures
      var d := DateOf(n);
      d.year >= 1970 && n == YearDay(d.year) + Ordinal(d) && 0 <= Ordinal(d) < YearLength(d.year)
    decreases n
  {
    if n == 0 {
      assert DateOf(0) == Date(1970, 1, 1);
    } else {
      hide DateOf, NextDay, IsLeap, Ordinal;
      YearOf(n - 1);
      StepInto(n - 1);
      OrdinalNext(DateOf(n));
      FirstOrdinal(DateOf(n).year);
    }
  }

  lemma SameOrdinal(d: Date, e: Date)
    requires ValidDate(d) && ValidDate(e) && d.year == e.year && Ordinal(d) == Ordinal(e)
    ensures d == e
  {
  }

  /** The number of a date. */
  function DayNumber(d: Date): int
    requires d.year >= 1970
  {
    YearDay(d.year) + Ordinal(d)
  }

  lemma DayNumberIs(d: Date)
    requires d.year >= 1970 && ValidDate(d)
    ensures DateOf(DayNumber(d)) == d
  {
    hide DateOf, Ordinal, YearDay, ValidDate;
    OrdinalNext(d);
    DayOfYear(d.year, Ordinal(d));
    SameOrdinal(d, DateOf(DayNumber(d)));
  }

  /** The same date in the next year is 365 or 366 days later. */
  lemma YearLater(year: int, month: nat, day: nat)
    requires year >= 1970 && ValidDate(Date(year, month, day)) && !IsLeapDay(Date(year, month, day))
    ensures ValidDate(Date(year + 1, month, day))
    ensures DayNumber(Date(year, month, day)) < DayNumber(Date(year + 1, month, day))
            <= DayNumber(Date(year, month, day)) + 366
  {
  }

  /** A date that every year has. */
  predicate EveryYear(month: nat, day: nat) {
    ValidDate(Date(1970, month, day))
  }

  lemma EveryYearIs(year: int, month: nat, day: nat)
    requires EveryYear(month, day)
    ensures ValidDate(Date(year, month, day)) && !IsLeapDay(Date(year, month, day))
  {
  }

  lemma RunOfYear(s: Schedule, minute: nat, hour: nat, day: nat, month: nat, year: int)
    requires hour < 24 && minute < 60 && s == Yearly(minute, hour, day, month) && EveryYear(month, day)
    requires year >= 1970
    ensures Hit(RuleOf(CronText(s), Utc), TimeOf(DayNumber(Date(year, month, day)), hour, minute))
  {
    hide CronText, RuleOf, Hit, TimeOf, DateOf, DayNumber, EveryYear;
    var n := DayNumber(Date(year, month, day));
    EveryYearIs(year, month, day);
    DayNumberIs(Date(year, month, day));
    TimesOfDays(n, n, hour, minute);
    YearlyHit(s, minute, hour, day, month, TimeOf(n, hour, minute));
  }

  /** The first of the instants t1 < t2 after x is no further off than the search looks, if t1 is not
      beyond it and t2 no more than 366 days after t1. */
  lemma NearEnough(x: int, m: int, n: int, hour: nat, minute: nat)
    requires hour < 24 && minute < 60 && m < n <= m + 366 && m <= x / DAY + 365 && x / DAY < n
    ensures
      var t1, t2 := TimeOf(m, hour, minute), TimeOf(n, hour, minute);
      if x < t1 then t1 <= Horizon(x) else x < t2 <= Horizon(x)
  {
    FloorFacts(x);
  }

  lemma {:induction false} DateServes(s: Schedule, minute: nat, hour: nat, day: nat, month: nat, x: int)
    requires hour < 24 && minute < 60 && s == Yearly(minute, hour, day, month) && EveryYear(month, day)
    requires x >= 0
    ensures Served(RuleOf(CronText(s), Utc), x)
  {
    hide CronText, RuleOf, Hit, TimeOf, Horizon, DateOf, EveryYear, Ordinal;
    var y := DateOf(x / DAY).year;
    var d, e := Date(y, month, day), Date(y + 1, month, day);
    YearOf(x / DAY);
    EveryYearIs(y, month, day);
    YearLater(y, month, day);
    EveryYearIs(y + 1, month, day);
    OrdinalNext(d);
    OrdinalNext(e);
    RunOfYear(s, minute, hour, day, month, y);
    RunOfYear(s, minute, hour, day, month, y + 1);
    NearEnough(x, DayNumber(d), DayNumber(e), hour, minute);
    var t1, t2 := TimeOf(DayNumber(d), hour, minute), TimeOf(DayNumber(e), hour, minute);
    assert exists m :: x < m <= Horizon(x) && Hit(RuleOf(CronText(s), Utc), m) by {
      assert Hit(RuleOf(CronText(s), Utc), t1) && Hit(RuleOf(CronText(s), Utc), t2);
    }
  }

  lemma LeapDayComes(year: int, hour: nat, minute: nat)
    requires year >= 1970
    ensures TimeOf(LeapDay(year), hour, minute) >= 0
    decreases year
  {
    if year > 1970 { LeapDayComes(year - 1, hour, minute); }
  }

  /** A schedule for one date of the year never starves, from 1970 on, if and only if the date is not
      29 February. */
  lemma {:induction false} YearlyNeverStarvesIff(s: Schedule, minute: nat, hour: nat, day: nat, month: nat)
    requires hour < 24 && minute < 60 && s == Yearly(minute, hour, day, month)
    requires EveryYear(month, day) || (month == 2 && day == 29)
    ensures (forall x :: x >= 0 ==> Served(RuleOf(CronText(s), Utc), x)) <==> !(month == 2 && day == 29)
  {
    hide CronText, RuleOf, Served, EveryYear;
    if month == 2 && day == 29 {
      LeapDayComes(1972, hour, minute);
      LeapDayStarves(s, minute, hour, 1972);
    } else {
      forall x | x >= 0 ensures Served(RuleOf(CronText(s), Utc), x) {
        DateServes(s, minute, hour, day, month, x);
      }
    }
  }

  // ----- Friday the 13th -----

  const FRIDAYS := Schedule([Single(0)], [Single(0)], [Single(13)], [Star], [Single(5)])

  predicate IsFriday13(n: int) {
    DateOf(n).day == 13 && (n + 4) % 7 == 5
  }

  predicate OnFriday13(t: int) {
    IsFriday13(t / DAY)
  }

  lemma FridayHit(s: Schedule, t: int)
    requires s == FRIDAYS
    ensures Hit(RuleOf(CronText(s), Utc), t) <==> IsTime(t, 0, 0) && OnFriday13(t)
  {
    hide DateOf, CronText, RuleOf, FieldHolds, IsTime;
    var at := Utc(t);
    HitMeansSchedule(s, Utc, t);
    SingleHolds(0, at.minute);
    SingleHolds(0, at.hour);
    SingleHolds(13, at.dayOfMonth);
    SingleHolds(5, at.dayOfWeek);
    StarHolds(at.month);
    TimeIs(t, 0, 0);
  }

  lemma FridaysText()
    ensures CronText(FRIDAYS) == "0 0 13 * 5"
  {
    hide Decimal, FieldText, Join;
    SmallDecimals();
    OneTermText(Single(0));
    OneTermText(Single(13));
    OneTermText(Single(5));
    OneTermText(Star);
    JoinFive("0", "0", "13", "*", "5");
    assert "0" + " " + ("0" + " " + ("13" + " " + ("*" + " " + "5"))) == "0 0 13 * 5";
  }

  lemma {:induction false} YearDaysAre(year: int)
    requires year >= 1973
    ensures YearDay(1971) == 365 && YearDay(1972) == 730 && YearDay(year) >= 1096
    decreases year
  {
    if year == 1973 {
      assert YearDay(1973) == YearDay(1972) + 366 && YearDay(1972) == YearDay(1971) + 365;
    } else {
      YearDaysAre(year - 1);
    }
  }

  /** 13 August 1971 and 13 October 1972. */
  const AUGUST := 589
  const OCTOBER := 1016

  lemma BothAreFridays()
    ensures IsFriday13(AUGUST) && IsFriday13(OCTOBER)
  {
    hide DateOf;
    YearDaysAre(1973);
    DayNumberIs(Date(1971, 8, 13));
    DayNumberIs(Date(1972, 10, 13));
  }

  lemma {:induction false} NoFridaySoon(n: int)
    requires AUGUST < n <= AUGUST + 366
    ensures !IsFriday13(n)
  {
    hide DateOf, YearDay;
    var d := DateOf(n);
    YearOf(n);
    YearDaysAre(if d.year >= 1973 then d.year else 1973);
    assert d.year == 1970 ==> YearDay(1970) == 0 by { FirstYear(); }
    assert d.year in {1971, 1972};
  }

  lemma FirstYear()
    ensures YearDay(1970) == 0
  {
  }

  lemma AugustStarves(s: Schedule)
    requires s == FRIDAYS
    ensures !Served(RuleOf(CronText(s), Utc), TimeOf(AUGUST, 0, 0))
  {
    hide CronText, RuleOf, Hit, TimeOf, Horizon, IsFriday13;
    var a := TimeOf(AUGUST, 0, 0);
    forall m | a < m <= Horizon(a) ensures !Hit(RuleOf(CronText(s), Utc), m) {
      FridayHit(s, m);
      if IsTime(m, 0, 0) {
        TimesOfDays(AUGUST, m / DAY, 0, 0);
        NoFridaySoon(m / DAY);
      }
    }
  }

  /** Since the day of the month and of the week must both match, a schedule for Friday the 13th can
      wait longer than the search looks, too: due on 13 August 1971, it is never expanded to the next
      one, on 13 October 1972. */
  lemma FridayLostToDrought(text: string, start: int, end: int)
    requires text == "0 0 13 * 5"
    ensures
      var rule, due, next := RuleOf(text, Utc), TimeOf(AUGUST, 0, 0), TimeOf(OCTOBER, 0, 0);
      Hit(rule, due) && Hit(rule, next) && due < next && next !in Expand(rule, due, start, end)
  {
    hide CronText, RuleOf, Hit, TimeOf, Expand, Served, IsFriday13;
    FridaysText();
    BothAreFridays();
    var s := FRIDAYS;
    TimesOfDays(AUGUST, OCTOBER, 0, 0);
    TimesOfDays(OCTOBER, AUGUST, 0, 0);
    FridayHit(s, TimeOf(AUGUST, 0, 0));
    FridayHit(s, TimeOf(OCTOBER, 0, 0));
    AugustStarves(s);
    LostToDrought(RuleOf(text, Utc), TimeOf(AUGUST, 0, 0), start, end, TimeOf(OCTOBER, 0, 0));
  }
}
