/** The handlers as they run: a table updated in place, statement by statement. */
module NexusTable {
  import opened Wrappers
  import opened NexusTiming
  import opened NexusCommands
  import opened NexusRuns
  import opened NexusRequests

  const POLL_INTERVAL_MS := 300
  const WAIT_MS := 15000

  /** The command belongs to the node, has not ended, and a refresh at `now` does not end it. */
  predicate Live(t: Table, workspace: string, node: string, id: nat, now: int) {
    && id < |t| && t[id].workspace == workspace && t[id].node == node
    && t[id].status in {Queued, InProgress} && !Doomed(t[id], now)
  }

  class CommandTable {
    var rows: Table

    constructor ()
      ensures rows == []
    {
      rows := [];
    }

    method RefreshCommandState(scope: Scope, now: int)
      modifies this
      ensures rows == Refreshed(old(rows), scope, now)
    {
      rows := Apply(rows, Update(OverdueSweep, scope), now);
      rows := Apply(rows, Update(ExhaustedSweep, scope), now);
      rows := Apply(rows, Update(RequeueSweep, scope), now);
      RefreshIsOnePass(old(rows), scope, now);
    }

    method EnqueueNodeCommand(workspace: string, node: string, options: Options, defaults: Timing, now: int)
      returns (id: nat)
      modifies this
      ensures id == |old(rows)|
      ensures rows == After(old(rows), Enqueue(workspace, node, ResolveTiming(options, defaults)), now)
      ensures rows[..id] == old(rows) && |rows| == id + 1
      ensures
        var t := ResolveTiming(options, defaults);
        rows[id] == Command(workspace, node, Queued, 0, t.maxAttempts, t.leaseMs, t.timeoutMs, now,
                            Some(now + t.timeoutMs), None, None, None, None)
      ensures InRange(defaults) ==> rows[id].expires.Some? && now < rows[id].expires.value <= now + MAX_TIMEOUT_MS
    {
      hide ResolveTiming;
      if InRange(defaults) {
        ResolveInRange(options, defaults);
      }
      id := |rows|;
      rows := rows + [NewCommand(Insert(workspace, node, ResolveTiming(options, defaults), now), now)];
    }

    /** GET /:nodeId/commands. */
    method PollCommands(nodeKnown: bool, workspace: string, node: string,
                        limitText: Option<string>, claimText: Option<string>, now: int)
      returns (reply: Reply)
      modifies this
      ensures !nodeKnown ==> reply == Refused && rows == old(rows)
      ensures nodeKnown ==>
        var poll := Poll(workspace, node, ClaimLimit(limitText), claimText != Some("0"));
        rows == After(old(rows), poll, now) && reply == Answer(old(rows), poll, now) && reply.Batch?
      ensures |rows| == |old(rows)| && forall j :: 0 <= j < |rows| ==>
        (old(rows)[j].workspace == workspace && old(rows)[j].node == node) || rows[j] == old(rows)[j]
    {
      hide Chosen, Refreshed, Apply, RowAfter;
      if !nodeKnown {
        return Refused;
      }
      forall j | 0 <= j < |rows| && (rows[j].workspace != workspace || rows[j].node != node)
        ensures After(rows, Poll(workspace, node, ClaimLimit(limitText), claimText != Some("0")), now)[j] == rows[j]
      {
        UncoveredUnchanged(rows, Poll(workspace, node, ClaimLimit(limitText), claimText != Some("0")), now, j);
      }
      RefreshCommandState(Scope(workspace, Some(node), None), now);
      var limit := ClaimLimit(limitText);
      var ids := Chosen(rows, workspace, node, limit, {});
      if claimText != Some("0") {
        rows := Apply(rows, Claim(workspace, node, limit, {}), now);
      }
      reply := Batch(Items(rows, ids));
    }

    /** POST /:nodeId/commands/:commandId/progress. */
    method ReportProgress(workspace: string, node: string, id: nat, now: int) returns (reply: Reply)
      modifies this
      ensures rows == After(old(rows), SendProgress(workspace, node, id), now)
      ensures reply == Answer(old(rows), SendProgress(workspace, node, id), now)
      ensures |rows| == |old(rows)| && forall j :: 0 <= j < |rows| && j != id ==> rows[j] == old(rows)[j]
      ensures reply.Found? <==> Live(old(rows), workspace, node, id, now)
      ensures reply.Found? ==>
        && reply.row == rows[id]
        && rows[id] == old(rows)[id].(status := InProgress, lease := Some(now + old(rows)[id].leaseMs),
                                      started := Some(old(rows)[id].started.GetOr(now)))
      ensures reply.Found? || reply.Refused?
      ensures reply.Refused? ==> forall j :: 0 <= j < |rows| ==>
        rows[j] == if j == id && old(rows)[j].workspace == workspace && old(rows)[j].node == node
                   then RefreshRow(old(rows)[j], now) else old(rows)[j]
    {
      RefreshCommandState(Scope(workspace, Some(node), Some(id)), now);
      var updated := id < |rows| && Addressed(rows[id], id, workspace, node, id);
      rows := Apply(rows, Progress(workspace, node, id), now);
      reply := if updated then Found(rows[id]) else Refused;
    }

    /** POST /:nodeId/commands/:commandId/result. Any status but 'completed' counts as failed. */
    method ReportResult(workspace: string, node: string, id: nat, status: string, body: string, now: int)
      returns (reply: Reply)
      modifies this
      ensures rows == After(old(rows), SendResult(workspace, node, id, status == "completed", body), now)
      ensures reply == Answer(old(rows), SendResult(workspace, node, id, status == "completed", body), now)
      ensures |rows| == |old(rows)| && forall j :: 0 <= j < |rows| && j != id ==> rows[j] == old(rows)[j]
      ensures reply == if Live(old(rows), workspace, node, id, now) then Accepted else Refused
      ensures reply.Accepted? ==>
        rows[id] == old(rows)[id].(status := if status == "completed" then Completed else Failed,
                                   result := Some(body), completed := Some(now), lease := None)
      ensures reply.Refused? ==> forall j :: 0 <= j < |rows| ==>
        rows[j] == if j == id && old(rows)[j].workspace == workspace && old(rows)[j].node == node
                   then RefreshRow(old(rows)[j], now) else old(rows)[j]
    {
      RefreshCommandState(Scope(workspace, Some(node), Some(id)), now);
      var updated := id < |rows| && Addressed(rows[id], id, workspace, node, id);
      rows := Apply(rows, Report(workspace, node, id, status == "completed", body), now);
      reply := if updated then Accepted else Refused;
    }

    /** GET /nodes/:nodeId/commands/:commandId. */
    method ReadCommand(workspace: string, node: string, id: nat, now: int) returns (reply: Reply)
      modifies this
      ensures rows == After(old(rows), NexusRequests.Request.ReadCommand(workspace, node, id), now)
      ensures reply == Answer(old(rows), NexusRequests.Request.ReadCommand(workspace, node, id), now)
      ensures |rows| == |old(rows)| && forall j :: 0 <= j < |rows| ==>
        rows[j] == if j == id && old(rows)[j].workspace == workspace && old(rows)[j].node == node
                   then RefreshRow(old(rows)[j], now) else old(rows)[j]
      ensures reply == if id < |rows| && rows[id].workspace == workspace && rows[id].node == node
                       then Found(rows[id]) else Refused
    {
      RefreshCommandState(Scope(workspace, Some(node), Some(id)), now);
      reply := Refused;
      if id < |rows| && rows[id].workspace == workspace && rows[id].node == node {
        reply := Found(rows[id]);
      }
    }

    /** What other requests do to the table while this one sleeps. */
    method Sleep(others: Trace, ghost past: Trace)
      requires rows == Exec(past)
      modifies this
      ensures rows == Exec(past + others)
    {
      assert past + others[..0] == past;
      for k := 0 to |others|
        invariant rows == Exec(past + others[..k])
      {
        ExecOneMore(past + others[..k], others[k]);
        assert past + others[..k] + [others[k]] == past + others[..k + 1];
        rows := Apply(rows, others[k].stmt, others[k].at);
      }
      assert others[..|others|] == others;
    }

    /** One poll: refresh the command, then SELECT it. */
    method Look(workspace: string, id: nat, now: int, ghost past: Trace)
      returns (row: Option<Command>, ghost seen: Trace)
      requires rows == Exec(past) && UpTo(past, now) && now > 0
      modifies this
      ensures rows == Exec(seen) && UpTo(seen, now) && past <= seen
      ensures row == if id < |rows| && rows[id].workspace == workspace then Some(rows[id]) else None
      ensures row.Some? && Open(row.value) ==> StillDue(rows, id, now) && SeenOpen(seen, workspace, id, now)
      ensures row.Some? && !Open(row.value) ==> Settled(seen, id, row.value)
    {
      var scope := Scope(workspace, None, Some(id));
      RefreshCommandState(scope, now);
      PollExtends(past, scope, now);
      seen := past + RefreshSteps(scope, now);
      row := None;
      if id < |rows| && rows[id].workspace == workspace {
        row := Some(rows[id]);
        PolledIsLive(past, scope, now, id);
        assert Open(rows[id]) ==> OpenAfterPoll(seen, |past|, workspace, id, now) by {
          assert seen[..|seen|] == seen && seen[|past|..] == RefreshSteps(scope, now);
        }
        if !Open(rows[id]) {
          StaysTerminal(seen, id);
        }
      }
    }

    /** One poll and, if the command is still open, the sleep after it. */
    method LookAndSleep(workspace: string, id: nat, world: World, n: nat, ghost past: Trace)
      returns (row: Option<Command>, over: bool, ghost seen: Trace)
      requires rows == Exec(past) && UpTo(past, world.tick(n)) && world.tick(n) > 0 && PlausibleSleep(world, n)
      modifies this
      ensures rows == Exec(seen) && past <= seen
      ensures over ==> UpTo(seen, world.tick(n))
      ensures over && row.Some? ==> row.value.workspace == workspace && Settled(seen, id, row.value)
      ensures over && row.None? ==> id >= |rows| || rows[id].workspace != workspace
      ensures !over ==> UpTo(seen, world.tick(n + 1)) && StillDue(rows, id, world.tick(n))
      ensures !over ==> SeenOpen(seen, workspace, id, world.tick(n))
    {
      row, seen := Look(workspace, id, world.tick(n), past);
      over := row.None? || !Open(row.value);
      if !over {
        Sleep(world.others(n), seen);
        SleepExtends(seen, world, n, id);
        SeenOpenLater(seen, world.others(n), workspace, id, world.tick(n));
        seen := seen + world.others(n);
      }
    }

    /** Polls until the command is terminal, the row is gone, or the time is up. Every poll but the
        last saw it open; so did the last one if the time ran out. */
    method WaitForNodeCommand(workspace: string, id: nat, timeoutMs: int, startedAt: int,
                              world: World, ghost past: Trace)
      returns (row: Option<Command>, ghost polls: nat, ghost seen: Trace)
      requires rows == Exec(past) && UpTo(past, startedAt)
      requires 0 < startedAt <= world.tick(0) && Plausible(world)
      modifies this
      ensures Valid(seen) && past <= seen && rows == Exec(seen)
      ensures row.Some? ==> row.value.workspace == workspace && Settled(seen, id, row.value)
      ensures row.None? ==>
        || id >= |rows| || rows[id].workspace != workspace
        || startedAt + timeoutMs <= world.tick(polls)
      ensures row.Some? ==> world.tick(polls) < startedAt + timeoutMs
      ensures polls > 0 ==> world.tick(polls - 1) < startedAt + timeoutMs
      ensures world.tick(0) + 300 * polls <= world.tick(polls)
      ensures polls > 0 ==>
        StillDue(rows, id, world.tick(polls - 1)) && SeenOpen(seen, workspace, id, world.tick(polls - 1))
    {
      hide Exec, Settled, Valid, StillDue, SeenOpen;
      polls, seen := 0, past;
      var n: nat := 0;
      while world.tick(n) - startedAt < timeoutMs
        invariant polls == n && startedAt <= world.tick(0) && world.tick(0) + 300 * n <= world.tick(n)
        invariant UpTo(seen, world.tick(n)) && past <= seen && rows == Exec(seen)
        invariant n > 0 ==> world.tick(n - 1) < startedAt + timeoutMs
        invariant n > 0 ==> StillDue(rows, id, world.tick(n - 1)) && SeenOpen(seen, workspace, id, world.tick(n - 1))
        decreases timeoutMs - (world.tick(n) - startedAt)
      {
        assert PlausibleSleep(world, n);
        var over: bool;
        ghost var before := seen;
        row, over, seen := LookAndSleep(workspace, id, world, n, seen);
        if n > 0 {
          DueLater(before, seen, workspace, id, world.tick(n - 1));
        }
        if over {
          return;
        }
        n, polls := n + 1, polls + 1;
      }
      row := None;
    }

    /** Enqueueing as one more step of the run so far. */
    method EnqueueOn(workspace: string, node: string, options: Options, defaults: Timing, now: int,
                     ghost past: Trace)
      returns (id: nat, ghost seen: Trace)
      requires InRange(defaults) && rows == Exec(past) && UpTo(past, now) && now > 0
      modifies this
      ensures id == |old(rows)| && |rows| == id + 1 && rows[..id] == old(rows)
      ensures rows[id].status == Queued && rows[id].workspace == workspace && rows[id].node == node
      ensures rows == Exec(seen) && UpTo(seen, now) && Valid(seen) && past <= seen
    {
      hide *;
      id := EnqueueNodeCommand(workspace, node, options, defaults, now);
      ghost var call := Call(Enqueue(workspace, node, ResolveTiming(options, defaults)), now);
      ResolveInRange(options, defaults);
      EnqueueExtends(past, call);
      seen := past + Steps(call);
    }

    /** Waiting for a command of the node. */
    method WaitForOwn(workspace: string, node: string, id: nat, startedAt: int, world: World, ghost past: Trace)
      returns (row: Option<Command>, ghost polls: nat, ghost seen: Trace)
      requires rows == Exec(past) && UpTo(past, startedAt) && 0 < startedAt <= world.tick(0) && Plausible(world)
      requires id < |rows| && rows[id].workspace == workspace && rows[id].node == node
      modifies this
      ensures Valid(seen) && past <= seen && rows == Exec(seen)
      ensures id < |rows| && rows[id].workspace == workspace && rows[id].node == node
      ensures row.Some? ==> Settled(seen, id, row.value)
      ensures row.None? ==> startedAt + 15_000 <= world.tick(polls)
      ensures row.Some? ==> world.tick(polls) < startedAt + 15_000
      ensures polls > 0 ==>
        StillDue(rows, id, world.tick(polls - 1)) && SeenOpen(seen, workspace, id, world.tick(polls - 1))
    {
      assert WAIT_MS == 15_000;
      hide *;
      row, polls, seen := WaitForNodeCommand(workspace, id, WAIT_MS, startedAt, world, past);
      KeepsOwner(past, seen, id);
    }

    /** Enqueues an action and, if asked to, waits for it. If the wait is in vain, the command was
        still open when it was last looked at. */
    method DispatchNodeAction(workspace: string, node: string, options: Options, defaults: Timing,
                              wait: bool, now: int, startedAt: int, world: World, ghost past: Trace)
      returns (queued: bool, id: nat, done: Option<Command>, ghost polls: nat, ghost seen: Trace)
      requires InRange(defaults) && rows == Exec(past) && UpTo(past, now)
      requires 0 < now <= startedAt <= world.tick(0) && Plausible(world)
      modifies this
      ensures id == |old(rows)| < |rows| && rows == Exec(seen) && Valid(seen) && past <= seen
      ensures rows[id].workspace == workspace && rows[id].node == node
      ensures queued <==> done.None?
      ensures !wait ==> queued && rows[..id] == old(rows) && rows[id].status == Queued
      ensures done.Some? ==> Settled(seen, id, done.value)
      ensures wait && queued ==> startedAt + 15_000 <= world.tick(polls)
      ensures wait && done.Some? ==> world.tick(polls) < startedAt + 15_000
      ensures wait && polls > 0 ==>
        StillDue(rows, id, world.tick(polls - 1)) && SeenOpen(seen, workspace, id, world.tick(polls - 1))
    {
      hide *;
      id, seen := EnqueueOn(workspace, node, options, defaults, now, past);
      UpToLater(seen, now, startedAt);
      done, polls := None, 0;
      if wait {
        done, polls, seen := WaitForOwn(workspace, node, id, startedAt, world, seen);
      }
      queued := done.None?;
    }
  }

  /** What a waiter does not control: the clock at its k-th poll, and the statements of other
      requests during the sleep after it. */
  datatype World = World(tick: nat -> int, others: nat -> Trace)

  /** Each sleep takes at least the interval, and what happens in it happens during it. */
  ghost predicate Plausible(w: World) {
    forall k: nat :: PlausibleSleep(w, k)
  }

  ghost predicate PlausibleSleep(w: World, k: nat) {
    && w.tick(k) + POLL_INTERVAL_MS <= w.tick(k + 1)
    && UpTo(w.others(k), w.tick(k + 1))
    && forall s :: s in w.others(k) ==> w.tick(k) <= s.at
  }

  lemma PollExtends(seen: Trace, scope: Scope, now: int)
    requires UpTo(seen, now) && now > 0
    ensures UpTo(seen + RefreshSteps(scope, now), now)
    ensures Exec(seen + RefreshSteps(scope, now)) == Refreshed(Exec(seen), scope, now)
  {
    hide UpTo, Exec, RefreshSteps;
    ExecRefresh(seen, scope, now);
    RefreshLegal(scope, now);
    UpToAppend(seen, RefreshSteps(scope, now), now, now);
  }

  lemma EnqueueExtends(past: Trace, call: Call)
    requires UpTo(past, call.at) && 0 < call.at
    requires call.request.Enqueue? && InRange(call.request.timing)
    ensures UpTo(past + Steps(call), call.at) && Valid(past + Steps(call))
    ensures Exec(past + Steps(call)) == After(Exec(past), call.request, call.at)
  {
    hide Exec, After, Steps;
    StepsLegal(call);
    ExecSteps(past, call);
    UpToAppend(past, Steps(call), call.at, call.at);
  }

  lemma UpToLater(tr: Trace, now: int, later: int)
    requires UpTo(tr, now) && now <= later
    ensures UpTo(tr, later)
  {
  }

  lemma PolledIsLive(seen: Trace, scope: Scope, now: int, i: nat)
    requires Valid(seen) && i < |Exec(seen)| && Covers(scope, i, Exec(seen)[i])
    ensures
      Open(Refreshed(Exec(seen), scope, now)[i]) ==> StillDue(Refreshed(Exec(seen), scope, now), i, now)
  {
    hide Exec, Paced, Shaped, Accounted;
    ReachableSound(seen, i);
  }

  lemma SleepExtends(seen: Trace, w: World, n: nat, i: nat)
    requires PlausibleSleep(w, n) && UpTo(seen, w.tick(n)) && i < |Exec(seen)|
    ensures UpTo(seen + w.others(n), w.tick(n + 1))
    ensures i < |Exec(seen + w.others(n))| && Exec(seen + w.others(n))[i].expires == Exec(seen)[i].expires
  {
    UpToAppend(seen, w.others(n), w.tick(n), w.tick(n + 1));
    NeverChanges(seen, w.others(n), i);
  }

  lemma KeepsOwner(tr: Trace, seen: Trace, i: nat)
    requires tr <= seen && i < |Exec(tr)|
    ensures i < |Exec(seen)|
    ensures Exec(seen)[i].workspace == Exec(tr)[i].workspace && Exec(seen)[i].node == Exec(tr)[i].node
  {
    assert seen == tr + seen[|tr|..];
    NeverChanges(tr, seen[|tr|..], i);
  }

  /** The deadline of command i is after the given time. */
  predicate StillDue(t: Table, i: nat, at: int) {
    i < |t| && t[i].expires.Some? && at < t[i].expires.value
  }

  /** The waiter's poll that begins at step k, at the given time, leaves command i open. */
  predicate OpenAfterPoll(tr: Trace, k: nat, workspace: string, i: nat, at: int) {
    && k + 3 <= |tr| && tr[k..k + 3] == RefreshSteps(Scope(workspace, None, Some(i)), at)
    && i < |Exec(tr[..k + 3])| && Open(Exec(tr[..k + 3])[i])
  }

  /** A poll at the given time saw command i open. */
  ghost predicate SeenOpen(tr: Trace, workspace: string, i: nat, at: int) {
    exists k: nat :: OpenAfterPoll(tr, k, workspace, i, at)
  }

  lemma SeenOpenLater(tr: Trace, more: Trace, workspace: string, i: nat, at: int)
    requires SeenOpen(tr, workspace, i, at)
    ensures SeenOpen(tr + more, workspace, i, at)
  {
    var k: nat :| OpenAfterPoll(tr, k, workspace, i, at);
    assert (tr + more)[..k + 3] == tr[..k + 3] && (tr + more)[k..k + 3] == tr[k..k + 3];
    assert OpenAfterPoll(tr + more, k, workspace, i, at);
  }

  lemma DueLater(tr: Trace, later: Trace, workspace: string, i: nat, at: int)
    requires tr <= later && SeenOpen(tr, workspace, i, at) && StillDue(Exec(tr), i, at)
    ensures SeenOpen(later, workspace, i, at) && StillDue(Exec(later), i, at)
  {
    var more := later[|tr|..];
    assert tr + more == later;
    SeenOpenLater(tr, more, workspace, i, at);
    NeverChanges(tr, more, i);
  }

  /** Row i has ended as c, and every later read will agree. */
  ghost predicate Settled(tr: Trace, i: nat, c: Command) {
    && !Open(c) && i < |Exec(tr)| && Exec(tr)[i] == c
    && forall later :: ReadsAs(tr + later, i, c)
  }

  predicate ReadsAs(tr: Trace, i: nat, c: Command) {
    i < |Exec(tr)| && Exec(tr)[i] == c
  }

  lemma StaysTerminal(tr: Trace, i: nat)
    requires i < |Exec(tr)| && !Open(Exec(tr)[i])
    ensures Settled(tr, i, Exec(tr)[i])
  {
    forall later
      ensures ReadsAs(tr + later, i, Exec(tr)[i])
    {
      NeverChanges(tr, later, i);
    }
  }

  // ----- What a caller is shown -----

  datatype NodeCommand = NodeCommand(
    status: Status, result: Option<string>, attempts: int, maxAttempts: int, timeoutMs: int, leaseMs: int,
    durationMs: Option<int>, createdAt: int, startedAt: Option<int>, completedAt: Option<int>,
    leaseExpiresAt: Option<int>, expiresAt: Option<int>)

  /** mapNodeCommand; `elapsed` is progress.elapsedMs, and a time of 0 counts as no time. */
  function MapNodeCommand(c: Command, elapsed: Option<int>): NodeCommand {
    var known := c.started.Some? && c.started.value != 0 && c.completed.Some? && c.completed.value != 0;
    NodeCommand(
      c.status,
      if c.status in {Completed, Failed} then c.result else None,
      c.attempts, c.maxAttempts, c.timeoutMs, c.leaseMs,
      if known then
        var took := c.completed.value - c.started.value;
        Some(if took < 0 then 0 else took)
      else elapsed,
      c.created, c.started, c.completed, c.lease, c.expires)
  }

  function AtOf(s: Option<Step>): Option<int> {
    if s.Some? then Some(s.value.at) else None
  }

  /** What is shown of a command, as its past has it: its limits, creation and deadline as it was
      enqueued, its attempts as it was claimed, its start as it was first started; the outcome and text
      of the result accepted, and its time; a lease while it runs; and as duration, once it was started
      and has ended, exactly the time between the two, else what its progress says. */
  predicate ShownRight(shown: NodeCommand, birth: Step, start: Option<Step>, grant: Option<Step>,
                       report: Option<Step>, claims: nat, elapsed: Option<int>)
    requires birth.stmt.Insert?
  {
    && Timing(shown.timeoutMs, shown.leaseMs, shown.maxAttempts) == birth.stmt.timing
    && shown.createdAt == birth.at && shown.expiresAt == Some(birth.stmt.asked + shown.timeoutMs)
    && shown.attempts == claims && shown.startedAt == AtOf(start)
    && (if report.Some? then
          && report.value.stmt.Report? && shown.result == Some(report.value.stmt.body)
          && shown.status == (if report.value.stmt.ok then Completed else Failed)
          && shown.completedAt == Some(report.value.at)
        else shown.status !in {Completed, Failed} && shown.result == None)
    && (shown.completedAt.Some? <==> shown.status !in {Queued, InProgress})
    && (if shown.status == InProgress
        then grant.Some? && shown.leaseExpiresAt == Some(grant.value.at + shown.leaseMs)
        else shown.leaseExpiresAt == None)
    && (if shown.startedAt.Some? && shown.completedAt.Some?
        then shown.durationMs == Some(shown.completedAt.value - shown.startedAt.value)
        else shown.durationMs == elapsed)
  }

  /** In every reachable state every command is shown right. */
  lemma {:induction false} ReportedExactly(tr: Trace, i: nat, elapsed: Option<int>)
    requires Valid(tr) && i < |Exec(tr)|
    ensures ShownRight(MapNodeCommand(Exec(tr)[i], elapsed), Birth(tr, i), First(Started, tr, i),
                       Last(Leased, tr, i), First(Reported, tr, i), Count(Claimed, tr, i), elapsed)
  {
    hide Exec, First, Last, Birth, Count;
    ReachableSound(tr, i);
    RowTellsPast(tr, i);
  }
}
