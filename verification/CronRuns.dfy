/** Finding the next run of a cron text, and expanding a schedule into its occurrences.
    Times are milliseconds; a calendar gives the civil time of any instant. */
module CronRuns {
  import opened Wrappers
  import opened CronFields

  type Calendar = int -> CivilTime

  /** Which instants a cron text matches; None for a text that is no cron text. The search and the
      expansion below know a cron text only through its rule. */
  type Rule = Option<int -> bool>

  function RuleOf(expr: string, cal: Calendar): Rule {
    if ParseCron(expr).None? then None else Some(t => CronMatches(expr, cal(t)))
  }

  const MINUTE := 60 * 1000
  const WINDOW := 366 * 24 * 60 * 60 * 1000
  const MAX_OCCURRENCES := 90

  function Floor(t: int): int {
    t - t % MINUTE
  }

  predicate Aligned(t: int) {
    t % MINUTE == 0
  }

  /** A whole minute the cron text stands for. */
  predicate Hit(rule: Rule, t: int) {
    Aligned(t) && rule.Some? && rule.value(t)
  }

  lemma FloorFacts(t: int)
    ensures Aligned(Floor(t)) && Floor(t) <= t < Floor(t) + MINUTE && Aligned(Floor(t) + MINUTE)
  {
  }

  // ----- The next run -----

  /** The first match at m or a whole number of minutes later, up to the limit. */
  function Search(rule: Rule, m: int, limit: int): Option<int>
    requires rule.Some?
    decreases limit - m
  {
    if m > limit then None
    else if rule.value(m) then Some(m)
    else Search(rule, m + MINUTE, limit)
  }

  /** The last instant getNextRun looks at. */
  function Horizon(from: int): int {
    Floor(from) + MINUTE + WINDOW
  }

  function NextRun(rule: Rule, from: int): Option<int> {
    if rule.None? then None else Search(rule, Floor(from) + MINUTE, Horizon(from))
  }

  method GetNextRun(rule: Rule, from: int) returns (r: Option<int>)
    ensures r == NextRun(rule, from)
  {
    if rule.None? {
      return None;
    }
    var cursor := Floor(from);
    cursor := cursor + MINUTE;
    var limit := cursor + WINDOW;
    while cursor <= limit
      invariant NextRun(rule, from) == Search(rule, cursor, limit)
      decreases limit - cursor
    {
      if rule.value(cursor) {
        return Some(cursor);
      }
      cursor := cursor + MINUTE;
    }
    r := None;
  }

  lemma {:induction false} SearchFindsLeast(rule: Rule, m: int, limit: int)
    requires Aligned(m) && rule.Some?
    ensures
      var r := Search(rule, m, limit);
      && (r.Some? ==> Hit(rule, r.value) && m <= r.value <= limit
                      && forall x :: m <= x < r.value ==> !Hit(rule, x))
      && (r.None? ==> forall x :: m <= x <= limit ==> !Hit(rule, x))
    decreases limit - m
  {
    if m <= limit && !rule.value(m) {
      SearchFindsLeast(rule, m + MINUTE, limit);
      forall x | m <= x < m + MINUTE ensures !Hit(rule, x) {
        assert Aligned(x) ==> x == m;
      }
    }
  }

  /** getNextRun returns the least matching minute strictly after its argument, and nothing exactly
      when none comes within the search window. */
  lemma NextRunIsLeast(rule: Rule, from: int)
    ensures
      var r := NextRun(rule, from);
      && (r.Some? ==> Hit(rule, r.value) && from < r.value <= Horizon(from)
                      && forall x :: from < x < r.value ==> !Hit(rule, x))
      && (r.None? <==> forall x :: from < x <= Horizon(from) ==> !Hit(rule, x))
  {
    FloorFacts(from);
    var m := Floor(from) + MINUTE;
    assert forall x :: from < x < m ==> !Aligned(x);
    if rule.Some? { SearchFindsLeast(rule, m, Horizon(from)); }
  }

  lemma FloorMonotone(a: int, b: int)
    requires a <= b
    ensures Floor(a) <= Floor(b)
  {
    FloorFacts(a);
    FloorFacts(b);
  }

  /** From any instant before the next run, the next run is the same. */
  lemma SameNextRun(rule: Rule, from: int, later: int)
    requires NextRun(rule, from).Some? && from <= later < NextRun(rule, from).value
    ensures NextRun(rule, later) == NextRun(rule, from)
  {
    NextRunIsLeast(rule, from);
    NextRunIsLeast(rule, later);
    FloorMonotone(from, later);
  }

  /** A later start never gives an earlier run. */
  lemma NextRunMonotone(rule: Rule, from: int, later: int)
    requires from <= later
    requires NextRun(rule, from).Some? && NextRun(rule, later).Some?
    ensures NextRun(rule, from).value <= NextRun(rule, later).value
  {
    NextRunIsLeast(rule, from);
    NextRunIsLeast(rule, later);
  }

  /** What is searched for, in the terms of the schedule a cron text was printed from. */
  lemma HitMeansSchedule(s: Schedule, cal: Calendar, t: int)
    requires forall f :: f in Fields(s) ==> f != []
    ensures
      var at := cal(t);
      Hit(RuleOf(CronText(s), cal), t) <==>
        Aligned(t) && FieldHolds(s.minute, at.minute) && FieldHolds(s.hour, at.hour)
        && FieldHolds(s.dayOfMonth, at.dayOfMonth) && FieldHolds(s.month, at.month)
        && FieldHolds(s.dayOfWeek, at.dayOfWeek)
  {
    CronMeansSchedule(s, cal(t));
  }

  // ----- Expanding one schedule -----

  /** `while (occurrence && occurrence < start) occurrence = getNextRun(cron, occurrence)`. */
  function CatchUp(rule: Rule, occurrence: int, start: int): Option<int>
    decreases start - occurrence
  {
    if occurrence >= start then Some(occurrence)
    else
      var next := NextRun(rule, occurrence);
      NextRunIsLeast(rule, occurrence);
      if next.None? then None else CatchUp(rule, next.value, start)
  }

  /** The runs from an occurrence on, up to `end` and at most `room` of them. */
  function Emit(rule: Rule, occurrence: Option<int>, end: int, room: nat): seq<int>
    decreases room
  {
    if occurrence.None? || occurrence.value > end || room == 0 then []
    else [occurrence.value] + Emit(rule, NextRun(rule, occurrence.value), end, room - 1)
  }

  function Expand(rule: Rule, nextRunAt: int, start: int, end: int): seq<int> {
    Emit(rule, CatchUp(rule, nextRunAt, start), end, MAX_OCCURRENCES)
  }

  /** A matching minute comes within the search window after x. */
  ghost predicate Served(rule: Rule, x: int) {
    exists m :: x < m <= Horizon(x) && Hit(rule, m)
  }

  /** From no instant between a and b on is the wait for a matching minute longer than the window. */
  ghost predicate NoDrought(rule: Rule, a: int, b: int) {
    forall x :: a <= x < b ==> Served(rule, x)
  }

  lemma ServedIffFound(rule: Rule, x: int)
    ensures Served(rule, x) <==> NextRun(rule, x).Some?
  {
    NextRunIsLeast(rule, x);
  }

  /** What is due from nextRunAt on: that instant itself, and every matching minute after it that no
      drought cuts off. */
  ghost predicate Due(rule: Rule, nextRunAt: int, m: int) {
    m == nextRunAt || (nextRunAt < m && Hit(rule, m) && NoDrought(rule, nextRunAt, m))
  }

  lemma DueStep(rule: Rule, root: int, m: int)
    requires Due(rule, root, m)
    ensures
      var next := NextRun(rule, m);
      && (next.Some? ==> m < next.value && Due(rule, root, next.value)
                         && forall x :: m < x < next.value ==> !Due(rule, root, x))
      && (next.None? ==> forall x :: m < x ==> !Due(rule, root, x))
  {
    var next := NextRun(rule, m);
    NextRunIsLeast(rule, m);
    ServedIffFound(rule, m);
    if next.Some? {
      forall x | root <= x < next.value ensures Served(rule, x) {
        if m <= x {
          SameNextRun(rule, m, x);
          ServedIffFound(rule, x);
        }
      }
    }
  }

  lemma {:induction false} CatchUpFindsFirstDue(rule: Rule, root: int, occurrence: int, start: int)
    requires Due(rule, root, occurrence)
    requires forall x :: start <= x < occurrence ==> !Due(rule, root, x)
    ensures
      var first := CatchUp(rule, occurrence, start);
      && (first.Some? ==> start <= first.value && Due(rule, root, first.value)
                          && forall x :: start <= x < first.value ==> !Due(rule, root, x))
      && (first.None? ==> forall x :: start <= x ==> !Due(rule, root, x))
    decreases start - occurrence
  {
    if occurrence < start {
      DueStep(rule, root, occurrence);
      var next := NextRun(rule, occurrence);
      if next.Some? {
        CatchUpFindsFirstDue(rule, root, next.value, start);
      }
    }
  }

  predicate Increasing(s: seq<int>) {
    forall j, k :: 0 <= j < k < |s| ==> s[j] < s[k]
  }

  /** s lists the first `room` of what is due from `from` to `end`. */
  ghost predicate FirstDue(rule: Rule, root: int, from: int, end: int, room: nat, s: seq<int>) {
    && Increasing(s) && |s| <= room
    && (forall k :: 0 <= k < |s| ==> from <= s[k] <= end && Due(rule, root, s[k]))
    && (forall m :: from <= m <= end && Due(rule, root, m) ==>
          m in s || (|s| == room && forall k :: 0 <= k < |s| ==> s[k] < m))
  }

  lemma FirstDuePrepend(rule: Rule, root: int, m: int, next: int, end: int, room: nat, rest: seq<int>)
    requires Due(rule, root, m) && m < next && m <= end && room > 0
    requires forall x :: m < x < next ==> !Due(rule, root, x)
    requires FirstDue(rule, root, next, end, room - 1, rest)
    ensures FirstDue(rule, root, m, end, room, [m] + rest)
  {
    var s := [m] + rest;
    forall x | m <= x <= end && Due(rule, root, x)
      ensures x in s || (|s| == room && forall k :: 0 <= k < |s| ==> s[k] < x)
    {
      assert x > m ==> x >= next;
    }
  }

  lemma {:induction false} EmitListsDue(rule: Rule, root: int, m: int, end: int, room: nat)
    requires Due(rule, root, m)
    ensures FirstDue(rule, root, m, end, room, Emit(rule, Some(m), end, room))
    decreases room
  {
    if m <= end && room > 0 {
      DueStep(rule, root, m);
      var next := NextRun(rule, m);
      var after := if next.Some? then next.value else end + 1;
      if next.Some? {
        EmitListsDue(rule, root, after, end, room - 1);
      }
      FirstDuePrepend(rule, root, m, after, end, room, Emit(rule, next, end, room - 1));
    }
  }

  /** A schedule expands to exactly the first 90 instants due in [start, end], in order, none
      skipped and none twice. */
  lemma ExpansionExact(rule: Rule, nextRunAt: int, start: int, end: int)
    ensures FirstDue(rule, nextRunAt, start, end, MAX_OCCURRENCES, Expand(rule, nextRunAt, start, end))
  {
    var first := CatchUp(rule, nextRunAt, start);
    CatchUpFindsFirstDue(rule, nextRunAt, nextRunAt, start);
    if first.Some? {
      EmitListsDue(rule, nextRunAt, first.value, end, MAX_OCCURRENCES);
    }
  }

  /** When the next run is itself a matching minute and no two runs up to `end` are further apart
      than the search window, that is every matching minute from the next run or the start on. */
  lemma ExpansionComplete(rule: Rule, nextRunAt: int, start: int, end: int)
    requires Hit(rule, nextRunAt)
    requires forall x, y :: nextRunAt <= x < y <= end && Hit(rule, y) && y > Horizon(x) ==>
               exists z :: x < z <= Horizon(x) && Hit(rule, z)
    ensures
      var s := Expand(rule, nextRunAt, start, end);
      var from := if start < nextRunAt then nextRunAt else start;
      && Increasing(s) && |s| <= MAX_OCCURRENCES
      && (forall k :: 0 <= k < |s| ==> from <= s[k] <= end && Hit(rule, s[k]))
      && (forall m :: from <= m <= end && Hit(rule, m) ==>
            m in s || (|s| == MAX_OCCURRENCES && forall k :: 0 <= k < |s| ==> s[k] < m))
  {
    ExpansionExact(rule, nextRunAt, start, end);
    forall m | nextRunAt <= m <= end && Hit(rule, m)
      ensures Due(rule, nextRunAt, m)
    {
      forall x | nextRunAt <= x < m ensures Served(rule, x) {
        if m <= Horizon(x) {
          assert x < m <= Horizon(x) && Hit(rule, m);
        }
      }
    }
  }

  /** While there is room, a matching minute is listed exactly when the wait for a match is nowhere
      before it longer than the window. */
  lemma ListedIffNoDrought(rule: Rule, nextRunAt: int, start: int, end: int, m: int)
    requires Hit(rule, m) && nextRunAt <= m && start <= m <= end
    requires |Expand(rule, nextRunAt, start, end)| < MAX_OCCURRENCES
    ensures m in Expand(rule, nextRunAt, start, end) <==> NoDrought(rule, nextRunAt, m)
  {
    ExpansionExact(rule, nextRunAt, start, end);
  }

  /** What comes after a drought is never listed. */
  lemma LostToDrought(rule: Rule, nextRunAt: int, start: int, end: int, m: int)
    requires nextRunAt < m && !NoDrought(rule, nextRunAt, m)
    ensures m !in Expand(rule, nextRunAt, start, end)
  {
    ExpansionExact(rule, nextRunAt, start, end);
  }

  /** Catching up one run at a time lands where a search from just before the start would, exactly
      when no drought lies on the way; else it gives up. */
  lemma {:induction false} CatchUpIsDirect(rule: Rule, occurrence: int, start: int)
    requires occurrence < start
    ensures NoDrought(rule, occurrence, start) ==>
              CatchUp(rule, occurrence, start) == NextRun(rule, start - 1)
    ensures CatchUp(rule, occurrence, start).Some? <==> NoDrought(rule, occurrence, start)
    decreases start - occurrence
  {
    var next := NextRun(rule, occurrence);
    NextRunIsLeast(rule, occurrence);
    ServedIffFound(rule, occurrence);
    if next.Some? {
      forall x | occurrence <= x < next.value ensures NextRun(rule, x) == next && Served(rule, x) {
        SameNextRun(rule, occurrence, x);
        ServedIffFound(rule, x);
      }
      if next.value < start {
        CatchUpIsDirect(rule, next.value, start);
      }
    }
  }

  // ----- All schedules -----

  /** A scheduled_tasks row; its cron text as a rule, and no next_run_at when that is no valid time. */
  datatype Task = Task(id: string, rule: Rule, nextRunAt: Option<int>)

  datatype Occurrence = Occurrence(task: string, at: int)

  function Tagged(task: string, times: seq<int>): (o: seq<Occurrence>)
    ensures |o| == |times|
    ensures forall k :: 0 <= k < |o| ==> o[k] == Occurrence(task, times[k])
  {
    seq(|times|, k requires 0 <= k < |times| => Occurrence(task, times[k]))
  }

  /** The occurrences of several tasks, each at its own times, task after task. */
  function Listed(tasks: seq<Task>, times: seq<seq<int>>): seq<Occurrence>
    requires |tasks| == |times|
  {
    if tasks == [] then []
    else
      var n := |tasks| - 1;
      Listed(tasks[..n], times[..n]) + Tagged(tasks[n].id, times[n])
  }

  /** The times of a task that has a cron text and a next run: the first 90 of what is due in the range.
      Any other task has none. */
  ghost predicate TimesOf(t: Task, start: int, end: int, times: seq<int>) {
    if t.rule.Some? && t.nextRunAt.Some? then FirstDue(t.rule, t.nextRunAt.value, start, end, 90, times)
    else times == []
  }

  lemma ListedMore(tasks: seq<Task>, times: seq<seq<int>>, t: Task, more: seq<int>)
    requires |tasks| == |times|
    ensures Listed(tasks + [t], times + [more]) == Listed(tasks, times) + Tagged(t.id, more)
  {
    assert (tasks + [t])[..|tasks|] == tasks && (times + [more])[..|times|] == times;
  }

  /** Every occurrence listed is within the range, and of one of the tasks that can have any. */
  lemma {:induction false} ListedInRange(tasks: seq<Task>, times: seq<seq<int>>, start: int, end: int, e: Occurrence)
    requires |tasks| == |times| && e in Listed(tasks, times)
    requires forall k :: 0 <= k < |tasks| ==> TimesOf(tasks[k], start, end, times[k])
    ensures start <= e.at <= end
    ensures exists k :: 0 <= k < |tasks| && tasks[k].id == e.task && tasks[k].rule.Some? && tasks[k].nextRunAt.Some?
  {
    var n := |tasks| - 1;
    if e in Listed(tasks[..n], times[..n]) {
      ListedInRange(tasks[..n], times[..n], start, end, e);
      var k :| 0 <= k < n && tasks[..n][k].id == e.task
               && tasks[..n][k].rule.Some? && tasks[..n][k].nextRunAt.Some?;
      assert tasks[k].id == e.task;
    } else {
      assert TimesOf(tasks[n], start, end, times[n]);
    }
  }

  /** The catch-up loop. */
  method SkipTo(rule: Rule, from: int, start: int) returns (occurrence: Option<int>)
    ensures occurrence == CatchUp(rule, from, start)
  {
    occurrence := Some(from);
    while occurrence.Some? && occurrence.value < start
      invariant CatchUp(rule, from, start) ==
                if occurrence.None? then None else CatchUp(rule, occurrence.value, start)
      decreases occurrence.Some?, if occurrence.Some? then start - occurrence.value else 0
    {
      NextRunIsLeast(rule, occurrence.value);
      occurrence := GetNextRun(rule, occurrence.value);
    }
  }

  lemma TaggedFirst(task: string, t: int, rest: seq<int>)
    ensures Tagged(task, [t] + rest) == [Occurrence(task, t)] + Tagged(task, rest)
  {
  }

  lemma NoneTagged(task: string)
    ensures Tagged(task, []) == []
  {
  }

  /** The emitting loop: what the expansion lists is pushed after what was pushed before. */
  method PushFrom(task: string, rule: Rule, first: Option<int>, end: int, max: nat,
                  before: seq<Occurrence>)
    returns (events: seq<Occurrence>)
    ensures events == before + Tagged(task, Emit(rule, first, end, max))
  {
    hide NextRun, Tagged;
    var occurrence, count := first, 0;
    events := before;
    NoneTagged(task);
    while occurrence.Some? && occurrence.value <= end && count < max
      invariant 0 <= count <= max
      invariant before + Tagged(task, Emit(rule, first, end, max)) ==
                events + Tagged(task, Emit(rule, occurrence, end, max - count))
      decreases max - count
    {
      var t := occurrence.value;
      TaggedFirst(task, t, Emit(rule, NextRun(rule, t), end, max - count - 1));
      events := events + [Occurrence(task, t)];
      occurrence := GetNextRun(rule, t);
      count := count + 1;
    }
  }

  /** The body of the loop over the schedules. */
  method PushTask(t: Task, start: int, end: int, before: seq<Occurrence>)
    returns (events: seq<Occurrence>, ghost times: seq<int>)
    ensures events == before + Tagged(t.id, times) && TimesOf(t, start, end, times)
  {
    hide Tagged, CatchUp, Emit, TimesOf;
    if t.rule.None? || t.nextRunAt.None? {
      NoTimes(t, start, end);
      NoneTagged(t.id);
      return before, [];
    }
    var occurrence := SkipTo(t.rule, t.nextRunAt.value, start);
    events := PushFrom(t.id, t.rule, occurrence, end, MAX_OCCURRENCES, before);
    times := Expand(t.rule, t.nextRunAt.value, start, end);
    ExpandIsDue(t, start, end);
  }

  /** Task by task, what is due of each in the range; and nothing if the range ends before it starts. */
  method FetchScheduledTaskEvents(tasks: seq<Task>, start: int, end: int)
    returns (events: seq<Occurrence>, ghost times: seq<seq<int>>)
    ensures end < start ==> events == []
    ensures start <= end ==>
      && |times| == |tasks| && events == Listed(tasks, times)
      && (forall k :: 0 <= k < |tasks| ==> TimesOf(tasks[k], start, end, times[k]))
    ensures forall e :: e in events ==>
      && start <= e.at <= end
      && exists k :: 0 <= k < |tasks| && tasks[k].id == e.task && tasks[k].rule.Some? && tasks[k].nextRunAt.Some?
  {
    events, times := [], [];
    if end < start {
      return;
    }
    assert Listed([], []) == [];
    hide Tagged, TimesOf, Listed;
    for i := 0 to |tasks|
      invariant |times| == i && events == Listed(tasks[..i], times)
      invariant forall k :: 0 <= k < i ==> TimesOf(tasks[k], start, end, times[k])
    {
      assert tasks[..i + 1] == tasks[..i] + [tasks[i]];
      ghost var own: seq<int>;
      events, own := PushTask(tasks[i], start, end, events);
      ListedMore(tasks[..i], times, tasks[i], own);
      times := times + [own];
    }
    assert tasks[..|tasks|] == tasks;
    AllInRange(tasks, times, start, end);
  }

  lemma {:induction false} AllInRange(tasks: seq<Task>, times: seq<seq<int>>, start: int, end: int)
    requires |tasks| == |times| && forall k :: 0 <= k < |tasks| ==> TimesOf(tasks[k], start, end, times[k])
    ensures forall e :: e in Listed(tasks, times) ==>
      && start <= e.at <= end
      && exists k :: 0 <= k < |tasks| && tasks[k].id == e.task && tasks[k].rule.Some? && tasks[k].nextRunAt.Some?
  {
    hide Listed, TimesOf;
    forall e | e in Listed(tasks, times)
      ensures start <= e.at <= end
      ensures exists k :: 0 <= k < |tasks| && tasks[k].id == e.task && tasks[k].rule.Some? && tasks[k].nextRunAt.Some?
    {
      ListedInRange(tasks, times, start, end, e);
    }
  }

  lemma NoTimes(t: Task, start: int, end: int)
    requires t.rule.None? || t.nextRunAt.None?
    ensures TimesOf(t, start, end, [])
  {
  }

  lemma ExpandIsDue(t: Task, start: int, end: int)
    requires t.rule.Some? && t.nextRunAt.Some?
    ensures TimesOf(t, start, end, Expand(t.rule, t.nextRunAt.value, start, end))
  {
    ExpansionExact(t.rule, t.nextRunAt.value, start, end);
  }
}
