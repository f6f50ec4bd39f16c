/** Whether a command can be started more often than its attempt budget says. */
module NexusBudget {
  import opened Wrappers
  import opened NexusTiming
  import opened NexusCommands
  import opened NexusRuns
  import opened NexusRequests

  /** How often command i was started in a run of requests. */
  function Starts(run: Run, i: nat): nat {
    Count(Started, Flatten(run), i)
  }

  /** The starts of a command are its attempts exactly when no progress came in while it was queued;
      so they stay within its budget then. In any case they do exactly as long as the starts by
      progress fit in the attempts it has left. */
  lemma StartsWithinBudget(tr: Trace, i: nat)
    requires Valid(tr) && i < |Exec(tr)|
    ensures
      var c := Exec(tr)[i];
      && (Count(Started, tr, i) == c.attempts <==> Count(Pushed, tr, i) == 0)
      && (Count(Pushed, tr, i) == 0 ==> Count(Started, tr, i) <= c.maxAttempts)
      && (Count(Started, tr, i) <= c.maxAttempts <==> Count(Pushed, tr, i) <= c.maxAttempts - c.attempts)
  {
    StartsAndRequeues(tr, i);
    ReachableSound(tr, i);
  }

  // ----- Starts, call by call -----

  /** Call c starts command i of table t. */
  predicate StartedBy(t: Table, i: nat, c: Call)
    requires i < |t|
  {
    var action := Action(c.request, c.at);
    action.Some? && Marks(Started, Readied(t, c.request, c.at), i, action.value, c.at)
  }

  lemma RefreshStartsNothing(tr: Trace, scope: Scope, now: int, i: nat)
    requires i < |Exec(tr)|
    ensures Count(Started, tr + RefreshSteps(scope, now), i) == Count(Started, tr, i)
  {
    var steps := RefreshSteps(scope, now);
    OneMore(Started, tr, steps[0], i);
    OneMore(Started, tr + [steps[0]], steps[1], i);
    OneMore(Started, tr + [steps[0]] + [steps[1]], steps[2], i);
    assert tr + steps == tr + [steps[0]] + [steps[1]] + [steps[2]];
  }

  lemma StepsCount(tr: Trace, c: Call, i: nat)
    requires i < |Exec(tr)|
    ensures Count(Started, tr + Steps(c), i) ==
            Count(Started, tr, i) + (if StartedBy(Exec(tr), i, c) then 1 else 0)
  {
    var refresh := if c.request.Enqueue? then [] else RefreshSteps(ScopeOf(c.request), c.at);
    var action := Action(c.request, c.at);
    assert Exec(tr + refresh) == Readied(Exec(tr), c.request, c.at)
           && Count(Started, tr + refresh, i) == Count(Started, tr, i) by {
      if c.request.Enqueue? {
        assert tr + refresh == tr;
      } else {
        ExecRefresh(tr, ScopeOf(c.request), c.at);
        RefreshStartsNothing(tr, ScopeOf(c.request), c.at, i);
      }
    }
    if action.Some? {
      OneMore(Started, tr + refresh, Step(action.value, c.at), i);
      assert tr + Steps(c) == tr + refresh + [Step(action.value, c.at)];
    } else {
      assert tr + Steps(c) == tr + refresh;
    }
  }

  /** One more call. */
  lemma CallStarts(run: Run, c: Call, i: nat)
    requires ValidRun(run) && i < |Serve(run)|
    ensures Serve(run + [c]) == After(Serve(run), c.request, c.at)
    ensures Starts(run + [c], i) == Starts(run, i) + (if StartedBy(Serve(run), i, c) then 1 else 0)
  {
    assert (run + [c])[..|run|] == run;
    ServeIsExec(run);
    StepsCount(Flatten(run), c, i);
  }

  // ----- No start without its lease -----

  /** What the starts of a command have cost since `from`, when it could first be started: each a
      lease, all but the last one over by now, and the last one begun before the deadline. */
  predicate Rationed(c: Command, now: int, from: int, spent: int) {
    && 0 <= spent
    && (spent > 0 ==> c.expires.Some? && from + spent - c.leaseMs < c.expires.value)
    && (c.status == Queued ==> from + spent <= now)
    && (c.status == InProgress ==>
          && from + spent - c.leaseMs <= now && c.lease.Some?
          && (from + spent <= now || from + spent <= c.lease.value))
  }

  lemma RefreshRations(c: Command, before: int, now: int, from: int, spent: int)
    requires before <= now && Rationed(c, before, from, spent)
    ensures Rationed(RefreshRow(c, now), now, from, spent)
  {
  }

  lemma StatementRations(t: Table, i: nat, s: Statement, now: int, from: int, spent: int)
    requires i < |t| && Rationed(t[i], now, from, spent) && t[i].leaseMs > 0 && !s.Update?
    requires Marks(Started, t, i, s, now) ==> t[i].expires.Some? && now < t[i].expires.value
    ensures Rationed(RowAfter(t, i, s, now), now, from,
                     spent + (if Marks(Started, t, i, s, now) then t[i].leaseMs else 0))
  {
    if s.Claim? && i in Chosen(t, s.workspace, s.node, s.limit, s.locked) {
      assert Ready(t[i], s.workspace, s.node);
    }
  }

  /** A call starts only a command its refresh covered. */
  lemma StartIsCovered(t: Table, i: nat, c: Call)
    requires i < |t| && StartedBy(t, i, c)
    ensures Readied(t, c.request, c.at)[i] == RefreshRow(t[i], c.at)
  {
    var b, s := Readied(t, c.request, c.at), Action(c.request, c.at).value;
    if s.Claim? && i in Chosen(b, s.workspace, s.node, s.limit, s.locked) {
      assert Ready(b[i], s.workspace, s.node);
    }
  }

  lemma CallRations(t: Table, i: nat, c: Call, before: int, from: int, spent: int)
    requires i < |t| && before <= c.at && Rationed(t[i], before, from, spent) && Limited(t[i])
    ensures i < |After(t, c.request, c.at)|
    ensures Rationed(After(t, c.request, c.at)[i], c.at, from,
                     spent + (if StartedBy(t, i, c) then t[i].leaseMs else 0))
  {
    RefreshRations(t[i], before, c.at, from, spent);
    if StartedBy(t, i, c) {
      StartIsCovered(t, i, c);
    }
    var action := Action(c.request, c.at);
    if action.Some? {
      StatementRations(Readied(t, c.request, c.at), i, action.value, c.at, from, spent);
    }
  }

  lemma ServeKeepsFixed(run: Run, more: Run, i: nat)
    requires ValidRun(run + more) && i < |Serve(run)|
    ensures i < |Serve(run + more)| && Evolves(Serve(run)[i], Serve(run + more)[i])
  {
    var tr := Flatten(run);
    var rest := FlattenAppend(run, more);
    assert (run + more)[..|run|] == run;
    assert ValidRun(run) by {
      assert forall k :: 0 <= k < |run| ==> run[k] == (run + more)[k];
    }
    ServeIsExec(run);
    ServeIsExec(run + more);
    NeverChanges(tr, rest, i);
  }

  lemma {:induction false} FlattenAppend(run: Run, more: Run) returns (rest: Trace)
    ensures Flatten(run + more) == Flatten(run) + rest
    decreases |more|
  {
    hide Steps;
    if more == [] {
      assert run + more == run;
      rest := [];
    } else {
      rest := FlattenAppend(run, more[..|more| - 1]);
      assert (run + more)[..|run + more| - 1] == run + more[..|more| - 1];
      rest := rest + Steps(more[|more| - 1]);
    }
  }

  lemma ValidPrefix(run: Run, c: Call)
    requires ValidRun(run + [c])
    ensures ValidRun(run) && Clock(run + [c]) == c.at && (run != [] ==> Clock(run) <= c.at)
  {
    assert forall k :: 0 <= k < |run| ==> run[k] == (run + [c])[k];
    assert (run + [c])[|run|] == c;
  }

  lemma LimitsHold(run: Run, i: nat)
    requires ValidRun(run) && i < |Serve(run)|
    ensures Clock(run) > 0 && Limited(Serve(run)[i]) && Serve(run)[i].attempts <= Serve(run)[i].maxAttempts
    ensures
      var c := Serve(run)[i];
      && (c.status == Queued ==> c.attempts < c.maxAttempts)
      && (c.status == InProgress ==> c.lease.Some? && c.lease.value <= Clock(run) + c.leaseMs)
  {
    var claims, spent := ReachableRow(run, i);
  }

  /** When an open command can next be started: at once if it is queued, and else when its lease ends. */
  function NextStart(c: Command, now: int): int {
    if c.status == InProgress && c.lease.Some? && c.lease.value > now then c.lease.value else now
  }

  /** Command i's starts beyond the first `base` ones, and what they cost since `from`. */
  ghost predicate RationedRun(run: Run, i: nat, from: int, base: nat) {
    && i < |Serve(run)| && base <= Starts(run, i)
    && Rationed(Serve(run)[i], Clock(run), from, (Starts(run, i) - base) * Serve(run)[i].leaseMs)
  }

  lemma {:induction false} CallKeepsRations(run: Run, c: Call, i: nat, from: int, base: nat)
    requires ValidRun(run + [c]) && RationedRun(run, i, from, base)
    ensures RationedRun(run + [c], i, from, base)
  {
    hide Starts, Serve, Rationed, StartedBy, Sound, After;
    var t := Serve(run);
    var lease, n := t[i].leaseMs, Starts(run, i) - base;
    ValidPrefix(run, c);
    CallStarts(run, c, i);
    LimitsHold(run, i);
    assert Serve(run + [c])[i].leaseMs == lease by { ServeKeepsFixed(run, [c], i); }
    OneLeaseMore(n, lease);
    CallRations(t, i, c, Clock(run), from, n * lease);
  }

  lemma NothingSpent(run: Run, i: nat)
    requires ValidRun(run) && i < |Serve(run)| && Open(Serve(run)[i])
    ensures RationedRun(run, i, NextStart(Serve(run)[i], Clock(run)), Starts(run, i))
  {
    hide Starts, Clock, Serve;
    LimitsHold(run, i);
    assert 0 * Serve(run)[i].leaseMs == 0;
  }

  /** The starts of an open command from now on, and what they cost. */
  lemma {:induction false} StartsAreRationed(run: Run, more: Run, i: nat)
    requires ValidRun(run) && ValidRun(run + more) && i < |Serve(run)| && Open(Serve(run)[i])
    ensures RationedRun(run + more, i, NextStart(Serve(run)[i], Clock(run)), Starts(run, i))
    decreases |more|
  {
    hide RationedRun, Starts, NextStart;
    if more == [] {
      assert run + more == run;
      NothingSpent(run, i);
    } else {
      var front, last := more[..|more| - 1], more[|more| - 1];
      assert run + more == run + front + [last];
      ValidPrefix(run + front, last);
      StartsAreRationed(run, front, i);
      CallKeepsRations(run + front, last, i, NextStart(Serve(run)[i], Clock(run)), Starts(run, i));
    }
  }

  /** A command that is running on its last attempt, or has ended. */
  predicate Worn(c: Command) {
    c.status != Queued && c.attempts >= c.maxAttempts
  }

  lemma CallKeepsWorn(t: Table, i: nat, c: Call)
    requires i < |t| && Worn(t[i])
    ensures !StartedBy(t, i, c) && i < |After(t, c.request, c.at)| && Worn(After(t, c.request, c.at)[i])
  {
    var b, action := Readied(t, c.request, c.at), Action(c.request, c.at);
    assert Worn(b[i]);
    if action.Some? {
      var s := action.value;
      assert s.Claim? ==> !Ready(b[i], s.workspace, s.node);
    }
  }

  /** Such a command is never started again. */
  lemma {:induction false} WornStaysWorn(run: Run, more: Run, i: nat)
    requires ValidRun(run + more) && i < |Serve(run)| && Worn(Serve(run)[i])
    ensures Starts(run + more, i) == Starts(run, i)
    ensures i < |Serve(run + more)| && Worn(Serve(run + more)[i])
    decreases |more|
  {
    hide Starts, Serve, Worn, StartedBy, After;
    if more == [] {
      assert run + more == run;
    } else {
      var front, last := more[..|more| - 1], more[|more| - 1];
      assert run + more == run + front + [last];
      ValidPrefix(run + front, last);
      WornStaysWorn(run, front, i);
      CallStarts(run + front, last, i);
      CallKeepsWorn(Serve(run + front), i, last);
    }
  }

  // ----- Starts one lease apart -----

  /** Progress reports on a command, one lease apart. */
  function Beats(c: Command, i: nat, from: int, n: nat): Run {
    if n == 0 then []
    else Beats(c, i, from, n - 1) + [Call(SendProgress(c.workspace, c.node, i), from + (n - 1) * c.leaseMs)]
  }

  /** Command c as it stands after n such reports from `from` on. */
  predicate Beaten(c: Command, d: Command, from: int, n: nat) {
    && Evolves(c, d) && d.attempts == c.attempts
    && (n == 0 ==> d == c)
    && (n > 0 ==> d.status == InProgress && d.lease == Some(from + n * c.leaseMs))
  }

  /** An open command with an attempt left, whose deadline is ahead at `at`. */
  predicate Startable(c: Command, at: int) {
    && Open(c) && (c.status == InProgress ==> c.lease.Some?)
    && c.attempts < c.maxAttempts && c.leaseMs > 0
    && c.expires.Some? && at < c.expires.value
  }

  /** A report when the last lease has run out requeues the command and starts it again. */
  lemma BeatStarts(t: Table, c: Command, i: nat, from: int, n: nat)
    requires i < |t| && Beaten(c, t[i], from, n)
    requires Startable(c, from + n * c.leaseMs) && (c.status == InProgress ==> c.lease.value <= from)
    ensures
      var beat := Call(SendProgress(c.workspace, c.node, i), from + n * c.leaseMs);
      && StartedBy(t, i, beat) && i < |After(t, beat.request, beat.at)|
      && Beaten(c, After(t, beat.request, beat.at)[i], from, n + 1)
  {
    assert (n + 1) * c.leaseMs == n * c.leaseMs + c.leaseMs;
  }

  /** The run goes on with n such reports, each a start. */
  ghost predicate Beat(run: Run, i: nat, n: nat)
    requires i < |Serve(run)|
  {
    var c, from := Serve(run)[i], NextStart(Serve(run)[i], Clock(run));
    var all := run + Beats(c, i, from, n);
    && ValidRun(all) && i < |Serve(all)| && Starts(all, i) == Starts(run, i) + n
    && Beaten(c, Serve(all)[i], from, n)
    && Clock(all) <= from + n * c.leaseMs
  }

  lemma {:induction false} OneBeatMore(run: Run, i: nat, n: nat)
    requires i < |Serve(run)| && Clock(run) > 0 && Beat(run, i, n)
    requires Startable(Serve(run)[i], NextStart(Serve(run)[i], Clock(run)) + n * Serve(run)[i].leaseMs)
    ensures Beat(run, i, n + 1)
  {
    hide Starts, Serve, Beaten, StartedBy, After;
    var c, from := Serve(run)[i], NextStart(Serve(run)[i], Clock(run));
    var before := run + Beats(c, i, from, n);
    var beat := Call(SendProgress(c.workspace, c.node, i), from + n * c.leaseMs);
    OneLeaseMore(n, c.leaseMs);
    MoreLeases(0, n, c.leaseMs);
    BeatStarts(Serve(before), c, i, from, n);
    CallStarts(before, beat, i);
    OneCallMore(before, beat);
    assert run + Beats(c, i, from, n + 1) == before + [beat];
  }

  lemma NoBeats(run: Run, i: nat)
    requires ValidRun(run) && i < |Serve(run)|
    ensures Beat(run, i, 0)
  {
    var c := Serve(run)[i];
    assert run + Beats(c, i, NextStart(c, Clock(run)), 0) == run;
    assert 0 * c.leaseMs == 0;
  }

  lemma StartableEarlier(c: Command, from: int, m: nat, n: nat)
    requires m <= n && Startable(c, from + n * c.leaseMs)
    ensures Startable(c, from + m * c.leaseMs)
  {
    MoreLeases(m, n, c.leaseMs);
  }

  lemma {:induction false} BeatsStart(run: Run, i: nat, n: nat, last: nat)
    requires ValidRun(run) && i < |Serve(run)| && Clock(run) > 0 && n <= last + 1
    requires Startable(Serve(run)[i], NextStart(Serve(run)[i], Clock(run)) + last * Serve(run)[i].leaseMs)
    ensures Beat(run, i, n)
    decreases n
  {
    hide Beat, Startable;
    if n == 0 {
      NoBeats(run, i);
    } else {
      BeatsStart(run, i, n - 1, last);
      StartableEarlier(Serve(run)[i], NextStart(Serve(run)[i], Clock(run)), n - 1, last);
      OneBeatMore(run, i, n - 1);
    }
  }

  lemma OneCallMore(run: Run, c: Call)
    requires ValidRun(run) && Clock(run) <= c.at && c.at > 0 && !c.request.Enqueue?
    ensures ValidRun(run + [c]) && Clock(run + [c]) == c.at
  {
    forall j, k | 0 <= j < k < |run + [c]| ensures (run + [c])[j].at <= (run + [c])[k].at {
      assert run[j].at <= Clock(run);
    }
  }

  // ----- The budget -----

  /** In some continuation the command is started more often than its budget says. */
  ghost predicate Overspends(run: Run, more: Run, i: nat)
    requires i < |Serve(run)|
  {
    ValidRun(run + more) && Starts(run + more, i) > Serve(run)[i].maxAttempts
  }

  /** One lease for each start the command has left, from when it can next be started, would end
      before its deadline; and it has an attempt left, so that its lease can run out. */
  predicate LeasesFit(c: Command, now: int, starts: nat) {
    && c.attempts < c.maxAttempts && c.expires.Some?
    && NextStart(c, now) + (c.maxAttempts - starts) * c.leaseMs < c.expires.value
  }

  lemma {:induction false} OverspendingTakesLeases(run: Run, more: Run, i: nat)
    requires ValidRun(run) && i < |Serve(run)| && Open(Serve(run)[i])
    requires Starts(run, i) <= Serve(run)[i].maxAttempts && Overspends(run, more, i)
    ensures LeasesFit(Serve(run)[i], Clock(run), Starts(run, i))
  {
    hide Starts, Serve, Clock, NextStart;
    var c := Serve(run)[i];
    LimitsHold(run, i);
    if c.attempts >= c.maxAttempts {
      WornStaysWorn(run, more, i);
    }
    StartsAreRationed(run, more, i);
    ServeKeepsFixed(run, more, i);
    var n := Starts(run + more, i) - Starts(run, i);
    MoreLeases(c.maxAttempts - Starts(run, i), n - 1, c.leaseMs);
    MoreLeases(1, n, c.leaseMs);
    OneLeaseMore(n - 1, c.leaseMs);
  }

  /** An open command that has not yet been started more often than its budget says still can be if
      and only if it has an attempt left and one lease for each start it has left, counted from when
      it can next be started, would end before its deadline. */
  lemma {:induction false} BudgetCanBreakIff(run: Run, i: nat)
    requires ValidRun(run) && i < |Serve(run)| && Open(Serve(run)[i])
    requires Starts(run, i) <= Serve(run)[i].maxAttempts
    ensures (exists more :: Overspends(run, more, i)) <==> LeasesFit(Serve(run)[i], Clock(run), Starts(run, i))
  {
    hide Starts, Serve, Clock, Beaten, Beats, NextStart;
    var c := Serve(run)[i];
    var left := c.maxAttempts - Starts(run, i);
    if more :| Overspends(run, more, i) {
      OverspendingTakesLeases(run, more, i);
    }
    if LeasesFit(c, Clock(run), Starts(run, i)) {
      LimitsHold(run, i);
      BeatsStart(run, i, left + 1, left);
      assert Overspends(run, Beats(c, i, NextStart(c, Clock(run)), left + 1), i);
    }
  }

  lemma MoreLeases(a: nat, b: nat, lease: nat)
    requires a <= b
    ensures a * lease <= b * lease
  {
  }

  lemma LoneCommandIsChosen(t: Table, workspace: string, node: string)
    requires |t| == 1 && Ready(t[0], workspace, node)
    ensures 0 in Chosen(t, workspace, node, 1, {})
  {
    assert Waiting(t, 1, workspace, node, {}) == Waiting(t, 0, workspace, node, {}) + [0];
    assert Chosen(t, workspace, node, 1, {})[0] == 0;
  }

  /** A report on a lone queued command with one attempt starts it, at the cost of no attempt. */
  lemma LoneBeat(t: Table, c: Call)
    requires |t| == 1 && Ready(t[0], "w", "n") && t[0].expires == Some(1001) && c.at < 1001
    requires c.request == SendProgress("w", "n", 0)
    ensures
      var after := After(t, c.request, c.at);
      && StartedBy(t, 0, c) && |after| == 1
      && after[0] == t[0].(status := InProgress, lease := Some(c.at + t[0].leaseMs),
                           started := Some(t[0].started.GetOr(c.at)))
  {
  }

  /** A poll that finds its lease run out queues it again, claims it and so starts it once more. */
  lemma LonePoll(t: Table, c: Call)
    requires |t| == 1 && t[0].workspace == "w" && t[0].node == "n" && t[0].status == InProgress
    requires t[0].lease.Some? && t[0].lease.value <= c.at < 1001 && t[0].expires == Some(1001)
    requires t[0].attempts < t[0].maxAttempts && c.request == Poll("w", "n", 1, true)
    ensures StartedBy(t, 0, c) && |After(t, c.request, c.at)| == 1
    ensures After(t, c.request, c.at)[0].attempts == t[0].attempts + 1
    ensures After(t, c.request, c.at)[0].maxAttempts == t[0].maxAttempts
  {
    var b := Readied(t, c.request, c.at);
    assert b[0] == Requeue(t[0]);
    LoneCommandIsChosen(b, "w", "n");
  }

  /** A command with one attempt that progress starts while it is queued; a later poll finds that
      lease run out, requeues the command, claims it, and so starts it a second time. */
  lemma {:induction false} StartedTwiceOnOneAttempt() returns (run: Run)
    ensures ValidRun(run) && |Serve(run)| == 1 && Starts(run, 0) == 2
    ensures Serve(run)[0].maxAttempts == Serve(run)[0].attempts == 1
  {
    hide StartedBy, After, Starts, Serve;
    var enqueue := Call(Enqueue("w", "n", Timing(1000, 100, 1)), 1);
    var beat := Call(SendProgress("w", "n", 0), 2);
    var poll := Call(Poll("w", "n", 1, true), 200);
    var queued := LoneRun(enqueue);
    LoneBeat(Serve(queued), beat);
    CallStarts(queued, beat, 0);
    LonePoll(Serve(queued + [beat]), poll);
    CallStarts(queued + [beat], poll, 0);
    run := queued + [beat] + [poll];
  }

  lemma LoneRun(c: Call) returns (run: Run)
    requires c.request.Enqueue? && c.at > 0 && InRange(c.request.timing)
    ensures run == [c] && ValidRun(run)
    ensures Serve(run) == [NewCommand(Insert(c.request.workspace, c.request.node, c.request.timing, c.at), c.at)]
    ensures Starts(run, 0) == 0
  {
    run := [c];
    assert run[..0] == [];
    assert Serve([]) == [] && Serve(run) == After([], c.request, c.at);
    ServeIsExec(run);
    StartsAndRequeues(Flatten(run), 0);
  }
}
