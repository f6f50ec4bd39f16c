/** Runs of the command table: any interleaving of statements, each with its own clock reading. */
module NexusRuns {
  import opened Wrappers
  import opened NexusTiming
  import opened NexusCommands

  datatype Step = Step(stmt: Statement, at: int)

  type Trace = seq<Step>

  /** An enqueue takes its deadline from the clock before the INSERT, and its limits from the clamp. */
  predicate Legal(s: Step) {
    s.at > 0 && (s.stmt.Insert? ==> s.stmt.asked <= s.at && InRange(s.stmt.timing))
  }

  /** The clock never runs backwards. */
  ghost predicate Valid(tr: Trace) {
    && (forall k :: 0 <= k < |tr| ==> Legal(tr[k]))
    && (forall j, k :: 0 <= j < k < |tr| ==> tr[j].at <= tr[k].at)
  }

  function Now(tr: Trace): int {
    if tr == [] then 0 else tr[|tr| - 1].at
  }

  function Exec(tr: Trace): Table {
    if tr == [] then []
    else
      var last := tr[|tr| - 1];
      Apply(Exec(tr[..|tr| - 1]), last.stmt, last.at)
  }

  lemma ExecOneMore(tr: Trace, s: Step)
    ensures Exec(tr + [s]) == Apply(Exec(tr), s.stmt, s.at)
  {
    assert (tr + [s])[..|tr|] == tr;
  }

  // ----- What a step did to a command -----

  datatype Mark = Claimed | Pushed | Started | Leased | Requeued | Reported

  /** Whether statement s at `now` marks command i of table t. */
  predicate Marks(m: Mark, t: Table, i: nat, s: Statement, now: int)
    requires i < |t|
  {
    var after := RowAfter(t, i, s, now);
    match m
    case Claimed => s.Claim? && i in Chosen(t, s.workspace, s.node, s.limit, s.locked)
    case Pushed => s.Progress? && Addressed(t[i], i, s.workspace, s.node, s.id) && t[i].status == Queued
    case Started => t[i].status == Queued && after.status == InProgress
    case Leased =>
      || (s.Claim? && i in Chosen(t, s.workspace, s.node, s.limit, s.locked))
      || (s.Progress? && Addressed(t[i], i, s.workspace, s.node, s.id))
    case Requeued => t[i].status == InProgress && after.status == Queued
    case Reported => s.Report? && Addressed(t[i], i, s.workspace, s.node, s.id)
  }

  /** How many steps of the run marked command i. */
  function Count(m: Mark, tr: Trace, i: nat): nat {
    if tr == [] then 0
    else
      var front, last := tr[..|tr| - 1], tr[|tr| - 1];
      Count(m, front, i) +
      (if i < |Exec(front)| && Marks(m, Exec(front), i, last.stmt, last.at) then 1 else 0)
  }

  // ----- The invariant of every run -----

  /** Which fields of a row are set, and in what order its times come. */
  predicate Shaped(c: Command, now: int) {
    && (c.lease.Some? <==> c.status == InProgress)
    && (c.completed.Some? <==> !Open(c))
    && (c.result.Some? <==> c.status in {Completed, Failed})
    && (c.status == InProgress ==> c.started.Some?)
    && 0 < c.created <= now
    && (c.started.Some? ==> c.created <= c.started.value <= now)
    && (c.completed.Some? ==> c.created <= c.completed.value <= now)
    && (c.completed.Some? && c.started.Some? ==> c.started.value <= c.completed.value)
  }

  /** The limits fixed when the command was enqueued. */
  predicate Limited(c: Command) {
    && InRange(Timing(c.timeoutMs, c.leaseMs, c.maxAttempts))
    && c.expires.Some? && c.expires.value <= c.created + c.timeoutMs
  }

  /** Attempts are the claims, within budget, with one to spare for a queued command. */
  predicate Accounted(c: Command, claims: nat) {
    && c.attempts == claims <= c.maxAttempts
    && (c.status == Queued ==> c.attempts < c.maxAttempts)
  }

  /** Every requeue used up a full lease before the deadline; `spent` is the leases used up. */
  predicate Paced(c: Command, now: int, spent: int) {
    && 0 <= spent
    && (spent > 0 ==> c.expires.Some? && c.created + spent < c.expires.value)
    && (Open(c) ==> c.created + spent <= now)
    && (c.status == InProgress ==>
          c.lease.Some? && c.created + spent + c.leaseMs <= c.lease.value <= now + c.leaseMs)
  }

  predicate Sound(c: Command, now: int, claims: nat, spent: int) {
    Shaped(c, now) && Limited(c) && Accounted(c, claims) && Paced(c, now, spent)
  }

  lemma SoundLater(c: Command, now: int, before: int, claims: nat, spent: int)
    requires before <= now && Sound(c, before, claims, spent)
    ensures Sound(c, now, claims, spent)
  {
  }

  lemma SweepKeepsSound(k: Sweep, c: Command, now: int, before: int, claims: nat, spent: int)
    requires before <= now && Sound(c, before, claims, spent)
    ensures
      var d := SweepRow(k, c, now);
      Sound(d, now, claims, if c.status == InProgress && d.status == Queued then spent + c.leaseMs else spent)
  {
  }

  lemma ClaimKeepsSound(c: Command, now: int, before: int, claims: nat, spent: int)
    requires before <= now && c.status == Queued && Sound(c, before, claims, spent)
    ensures Sound(ClaimRow(c, now), now, claims + 1, spent)
  {
  }

  lemma ProgressKeepsSound(c: Command, now: int, before: int, claims: nat, spent: int)
    requires before <= now && Open(c) && Sound(c, before, claims, spent)
    ensures Sound(ProgressRow(c, now), now, claims, spent)
  {
  }

  lemma ReportKeepsSound(c: Command, ok: bool, body: string, now: int, before: int, claims: nat, spent: int)
    requires before <= now && Open(c) && Sound(c, before, claims, spent)
    ensures Sound(ReportRow(c, ok, body, now), now, claims, spent)
  {
  }

  lemma StepKeepsSound(t: Table, i: nat, s: Statement, now: int, before: int, claims: nat, spent: int)
    requires i < |t| && before <= now && Sound(t[i], before, claims, spent)
    ensures Sound(RowAfter(t, i, s, now), now,
                  claims + (if Marks(Claimed, t, i, s, now) then 1 else 0),
                  spent + (if Marks(Requeued, t, i, s, now) then t[i].leaseMs else 0))
  {
    hide Sound;
    var c := t[i];
    SoundLater(c, now, before, claims, spent);
    match s
    case Insert(_, _, _, _) =>
    case Update(k, scope) => SweepKeepsSound(k, c, now, before, claims, spent);
    case Claim(w, n, limit, locked) =>
      if i in Chosen(t, w, n, limit, locked) {
        assert Ready(c, w, n);
        ClaimKeepsSound(c, now, before, claims, spent);
      }
    case Progress(w, n, id) =>
      if Addressed(c, i, w, n, id) { ProgressKeepsSound(c, now, before, claims, spent); }
    case Report(w, n, id, ok, body) =>
      if Addressed(c, i, w, n, id) { ReportKeepsSound(c, ok, body, now, before, claims, spent); }
  }

  /** The leases that command i's requeues used up in run tr. */
  function Spent(tr: Trace, i: nat): int
    requires i < |Exec(tr)|
  {
    Count(Requeued, tr, i) * Exec(tr)[i].leaseMs
  }

  /** In every reachable state every row is well-shaped, within its limits, and its attempt count
      is the number of times it was claimed. */
  lemma {:induction false} ReachableSound(tr: Trace, i: nat)
    requires Valid(tr) && i < |Exec(tr)|
    ensures Sound(Exec(tr)[i], Now(tr), Count(Claimed, tr, i), Spent(tr, i))
  {
    hide Sound, RowAfter, Marks, InRange;
    var front, last := tr[..|tr| - 1], tr[|tr| - 1];
    var t := Exec(front);
    if i < |t| {
      ReachableSound(front, i);
      StepKeepsSound(t, i, last.stmt, last.at, Now(front), Count(Claimed, front, i), Spent(front, i));
      StepKeepsFixed(t, i, last.stmt, last.at);
      OneLeaseMore(Count(Requeued, front, i), t[i].leaseMs);
    } else {
      NotYetMarked(front, i);
      FreshIsSound(last);
    }
  }

  lemma OneLeaseMore(n: nat, lease: int)
    ensures (n + 1) * lease == n * lease + lease && 0 * lease == 0
  {
  }

  lemma FreshIsSound(s: Step)
    requires Legal(s) && s.stmt.Insert?
    ensures Sound(NewCommand(s.stmt, s.at), s.at, 0, 0)
  {
  }

  lemma {:induction false} NotYetMarked(tr: Trace, i: nat)
    requires i >= |Exec(tr)|
    ensures forall m :: Count(m, tr, i) == 0
    decreases |tr|
  {
    if tr != [] {
      NotYetMarked(tr[..|tr| - 1], i);
    }
  }

  // ----- Requeues and starts -----

  /** However claims and heartbeats interleave, the requeues of a command times its lease stay
      below its timeout. */
  lemma RequeueBound(tr: Trace, i: nat)
    requires Valid(tr) && i < |Exec(tr)|
    ensures Count(Requeued, tr, i) * Exec(tr)[i].leaseMs < Exec(tr)[i].timeoutMs
  {
    ReachableSound(tr, i);
  }

  /** Conservation: a command is started by a claim or by progress on it while queued, and every
      start but the one still running or ended by a result or by expiry was undone by a requeue. */
  lemma {:induction false} StartsAndRequeues(tr: Trace, i: nat)
    requires Valid(tr) && i < |Exec(tr)|
    ensures Count(Started, tr, i) == Count(Claimed, tr, i) + Count(Pushed, tr, i)
    ensures
      var running := Count(Started, tr, i) - Count(Requeued, tr, i);
      && 0 <= running <= 1
      && (Exec(tr)[i].status == Queued ==> running == 0)
      && (Exec(tr)[i].status == InProgress ==> running == 1)
  {
    var front, last := tr[..|tr| - 1], tr[|tr| - 1];
    if i < |Exec(front)| {
      StartsAndRequeues(front, i);
      StepMarks(Exec(front), i, last.stmt, last.at);
    } else {
      NotYetMarked(front, i);
    }
  }

  lemma StepMarks(t: Table, i: nat, s: Statement, now: int)
    requires i < |t|
    ensures Marks(Started, t, i, s, now) <==> Marks(Claimed, t, i, s, now) || Marks(Pushed, t, i, s, now)
    ensures !(Marks(Claimed, t, i, s, now) && Marks(Pushed, t, i, s, now))
    ensures
      var c, d := t[i], RowAfter(t, i, s, now);
      && (Open(d) ==> Open(c))
      && (d.status == Queued && c.status == InProgress <==> Marks(Requeued, t, i, s, now))
      && (d.status == InProgress && c.status == Queued <==> Marks(Started, t, i, s, now))
  {
    if s.Claim? && i in Chosen(t, s.workspace, s.node, s.limit, s.locked) {
      assert Ready(t[i], s.workspace, s.node);
    }
  }

  lemma OneMore(m: Mark, tr: Trace, s: Step, i: nat)
    requires i < |Exec(tr)|
    ensures i < |Exec(tr + [s])| && Exec(tr + [s])[i] == RowAfter(Exec(tr), i, s.stmt, s.at)
    ensures Count(m, tr + [s], i) ==
            Count(m, tr, i) + (if Marks(m, Exec(tr), i, s.stmt, s.at) then 1 else 0)
  {
    assert (tr + [s])[..|tr|] == tr;
  }

  // ----- Terminal states -----

  /** What never changes from one state of a row to a later one: everything once it is terminal, the
      start once it is set, and always the owner, the limits and the times fixed at creation. */
  predicate Evolves(c: Command, d: Command) {
    && (!Open(c) ==> d == c)
    && (c.started.Some? ==> d.started == c.started)
    && d.workspace == c.workspace && d.node == c.node
    && d.created == c.created && d.expires == c.expires
    && d.leaseMs == c.leaseMs && d.timeoutMs == c.timeoutMs && d.maxAttempts == c.maxAttempts
    && c.attempts <= d.attempts
  }

  lemma StepKeepsFixed(t: Table, i: nat, s: Statement, now: int)
    requires i < |t|
    ensures Evolves(t[i], RowAfter(t, i, s, now))
  {
    if s.Claim? && i in Chosen(t, s.workspace, s.node, s.limit, s.locked) {
      assert Ready(t[i], s.workspace, s.node);
    }
  }

  lemma EvolvesOn(c: Command, d: Command, e: Command)
    requires Evolves(c, d) && Evolves(d, e)
    ensures Evolves(c, e)
  {
  }

  /** Once terminal a row never changes again, a start time never changes once set, and the limits
      and owner of a command never change at all. */
  lemma {:induction false} NeverChanges(tr: Trace, more: Trace, i: nat)
    requires i < |Exec(tr)|
    ensures |Exec(tr)| <= |Exec(tr + more)| && Evolves(Exec(tr)[i], Exec(tr + more)[i])
    decreases |more|
  {
    if more == [] {
      assert tr + more == tr;
    } else {
      var front, last := more[..|more| - 1], more[|more| - 1];
      NeverChanges(tr, front, i);
      ExecOneMore(tr + front, last);
      assert tr + more == tr + front + [last];
      StepKeepsFixed(Exec(tr + front), i, last.stmt, last.at);
      EvolvesOn(Exec(tr)[i], Exec(tr + front)[i], Exec(tr + more)[i]);
    }
  }

  /** At most one result report per command is ever accepted: one exactly when the command is
      completed or failed, and no report's body is kept otherwise. */
  lemma {:induction false} OneResultAccepted(tr: Trace, i: nat)
    requires Valid(tr) && i < |Exec(tr)|
    ensures
      var c := Exec(tr)[i];
      && Count(Reported, tr, i) == (if c.status in {Completed, Failed} then 1 else 0)
      && (c.result.Some? <==> Count(Reported, tr, i) == 1)
  {
    hide Chosen, Accounted, Limited, Paced;
    var front, last := tr[..|tr| - 1], tr[|tr| - 1];
    ReachableSound(tr, i);
    if i < |Exec(front)| {
      OneResultAccepted(front, i);
    } else {
      NotYetMarked(front, i);
    }
  }

  // ----- The hard deadline -----

  /** No heartbeat keeps a command alive past its deadline: after any refresh that covers it half an
      hour or more after it was enqueued, it is terminal for the rest of the run. */
  lemma HardDeadline(tr: Trace, k: nat, i: nat)
    requires Valid(tr) && k < |tr| && i < |Exec(tr[..k])|
    requires tr[k].stmt.Update? && tr[k].stmt.sweep == OverdueSweep
    requires Covers(tr[k].stmt.scope, i, Exec(tr[..k])[i])
    requires tr[k].at >= Exec(tr[..k])[i].created + MAX_TIMEOUT_MS
    ensures i < |Exec(tr)| && !Open(Exec(tr)[i])
  {
    hide Exec;
    var before, upto := tr[..k], tr[..k + 1];
    ReachableSound(before, i);
    assert upto == before + [tr[k]];
    ExecOneMore(before, tr[k]);
    assert !Open(Exec(upto)[i]);
    assert upto + tr[k + 1..] == tr;
    NeverChanges(upto, tr[k + 1..], i);
  }

  // ----- What a row tells of its past -----

  /** The first step of the run that marked command i, and the last one. */
  function First(m: Mark, tr: Trace, i: nat): Option<Step> {
    if tr == [] then None
    else
      var front, last := tr[..|tr| - 1], tr[|tr| - 1];
      var first := First(m, front, i);
      if first.None? && i < |Exec(front)| && Marks(m, Exec(front), i, last.stmt, last.at) then Some(last) else first
  }

  function Last(m: Mark, tr: Trace, i: nat): Option<Step> {
    if tr == [] then None
    else
      var front, last := tr[..|tr| - 1], tr[|tr| - 1];
      if i < |Exec(front)| && Marks(m, Exec(front), i, last.stmt, last.at) then Some(last) else Last(m, front, i)
  }

  /** The step that inserted command i. */
  function Birth(tr: Trace, i: nat): (s: Step)
    requires i < |Exec(tr)|
    ensures s.stmt.Insert?
  {
    var front, last := tr[..|tr| - 1], tr[|tr| - 1];
    if i < |Exec(front)| then Birth(front, i) else last
  }

  lemma {:induction false} NeverMarked(m: Mark, tr: Trace, i: nat)
    requires i >= |Exec(tr)|
    ensures First(m, tr, i) == None && Last(m, tr, i) == None
    decreases |tr|
  {
    if tr != [] {
      NeverMarked(m, tr[..|tr| - 1], i);
    }
  }

  /** The row's owner, limits, creation time and deadline are those its command was enqueued with. */
  predicate BornOf(c: Command, s: Step)
    requires s.stmt.Insert?
  {
    && c.workspace == s.stmt.workspace && c.node == s.stmt.node
    && Timing(c.timeoutMs, c.leaseMs, c.maxAttempts) == s.stmt.timing
    && c.created == s.at && c.expires == Some(s.stmt.asked + s.stmt.timing.timeoutMs)
  }

  /** It started when it was first started. */
  predicate StartTold(c: Command, start: Option<Step>) {
    c.started == if start.Some? then Some(start.value.at) else None
  }

  /** While it runs, its lease is a full one from the last claim or progress report. */
  predicate LeaseTold(c: Command, grant: Option<Step>) {
    if c.status == InProgress then grant.Some? && c.lease == Some(grant.value.at + c.leaseMs) else c.lease == None
  }

  /** It holds the outcome, the text and the time of the result that was accepted, if one was. */
  predicate ResultTold(c: Command, report: Option<Step>) {
    if report.Some? then
      && report.value.stmt.Report?
      && c.status == (if report.value.stmt.ok then Completed else Failed)
      && c.result == Some(report.value.stmt.body) && c.completed == Some(report.value.at)
    else c.status !in {Completed, Failed} && c.result == None
  }

  lemma StepTells(t: Table, i: nat, s: Statement, now: int, start: Option<Step>, grant: Option<Step>,
                  report: Option<Step>)
    requires i < |t| && StartTold(t[i], start) && LeaseTold(t[i], grant) && ResultTold(t[i], report)
    requires t[i].status == InProgress ==> t[i].started.Some?
    ensures
      var c, step := RowAfter(t, i, s, now), Some(Step(s, now));
      && StartTold(c, if start.None? && Marks(Started, t, i, s, now) then step else start)
      && LeaseTold(c, if Marks(Leased, t, i, s, now) then step else grant)
      && ResultTold(c, if report.None? && Marks(Reported, t, i, s, now) then step else report)
  {
    if s.Claim? && i in Chosen(t, s.workspace, s.node, s.limit, s.locked) {
      assert Ready(t[i], s.workspace, s.node);
    }
  }

  /** In every reachable state every row tells its past: as what it was enqueued, when it was first
      started, to when its last claim or report extended its lease, and what result was accepted when. */
  lemma {:induction false} RowTellsPast(tr: Trace, i: nat)
    requires Valid(tr) && i < |Exec(tr)|
    ensures
      var c := Exec(tr)[i];
      && BornOf(c, Birth(tr, i))
      && StartTold(c, First(Started, tr, i))
      && LeaseTold(c, Last(Leased, tr, i))
      && ResultTold(c, First(Reported, tr, i))
  {
    hide RowAfter, Marks, StartTold, LeaseTold, ResultTold, NewCommand, Sound;
    var front, last := tr[..|tr| - 1], tr[|tr| - 1];
    var t := Exec(front);
    if i < |t| {
      RowTellsPast(front, i);
      StartedIfRunning(front, i);
      StepKeepsFixed(t, i, last.stmt, last.at);
      StepTells(t, i, last.stmt, last.at, First(Started, front, i), Last(Leased, front, i), First(Reported, front, i));
    } else {
      NeverMarked(Started, front, i);
      NeverMarked(Leased, front, i);
      NeverMarked(Reported, front, i);
      NewRowTells(last);
    }
  }

  lemma StartedIfRunning(tr: Trace, i: nat)
    requires Valid(tr) && i < |Exec(tr)|
    ensures Exec(tr)[i].status == InProgress ==> Exec(tr)[i].started.Some?
  {
    ReachableSound(tr, i);
  }

  lemma NewRowTells(s: Step)
    requires s.stmt.Insert?
    ensures
      var c := NewCommand(s.stmt, s.at);
      BornOf(c, s) && StartTold(c, None) && LeaseTold(c, None) && ResultTold(c, None)
  {
  }
}
