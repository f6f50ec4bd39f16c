/** Results that come in after the deadline. A handler's refresh and its own UPDATE read the clock
    separately, and statements of other requests may run between any two of its statements. */
module NexusLateness {
  import opened Wrappers
  import opened NexusTiming
  import opened NexusCommands
  import opened NexusRuns
  import opened NexusRequests

  /** Step j is the first UPDATE of a refresh that covers command i. */
  predicate SweepsOverdue(tr: Trace, j: nat, i: nat) {
    && j < |tr| && i < |Exec(tr[..j])|
    && tr[j].stmt.Update? && tr[j].stmt.sweep == OverdueSweep
    && Covers(tr[j].stmt.scope, i, Exec(tr[..j])[i])
  }

  /** Step k is a result for command i, and it is accepted. */
  predicate AcceptsResult(tr: Trace, k: nat, i: nat) {
    && k < |tr| && i < |Exec(tr[..k])|
    && Marks(Reported, Exec(tr[..k]), i, tr[k].stmt, tr[k].at)
  }

  /** The deadline of command i has passed at step k. */
  predicate Late(tr: Trace, k: nat, i: nat) {
    && k < |tr| && i < |Exec(tr[..k])|
    && Exec(tr[..k])[i].expires.Some? && Exec(tr[..k])[i].expires.value <= tr[k].at
  }

  /** Whatever runs in between, a result is accepted only if the deadline was still ahead when its
      handler's first UPDATE ran; so it is late exactly when the deadline fell between the two. */
  lemma {:induction false} LateOnlyInBetween(tr: Trace, j: nat, k: nat, i: nat)
    requires Valid(tr) && j < k && SweepsOverdue(tr, j, i) && AcceptsResult(tr, k, i)
    ensures
      var due := Exec(tr[..k])[i].expires;
      due.Some? && tr[j].at < due.value && (Late(tr, k, i) <==> tr[j].at < due.value <= tr[k].at)
  {
    var swept, between := tr[..j + 1], tr[j + 1..k];
    assert swept[..j] == tr[..j];
    assert swept + between == tr[..k];
    ReachableSound(tr[..j], i);
    StepKeepsFixed(Exec(tr[..j]), i, tr[j].stmt, tr[j].at);
    NeverChanges(swept, between, i);
    assert Open(Exec(swept)[i]);
  }

  /** A run in which the first UPDATE of a result's handler runs at a, the result is accepted at b,
      and that is late. */
  ghost predicate LateResult(tr: Trace, j: nat, k: nat, i: nat, a: int, b: int) {
    && Valid(tr) && j < k && SweepsOverdue(tr, j, i) && AcceptsResult(tr, k, i) && Late(tr, k, i)
    && tr[j].at == a && tr[k].at == b
  }

  lemma LoneInsert(insert: Step) returns (tr: Trace)
    requires insert.stmt.Insert? && Legal(insert)
    ensures tr == [insert] && Exec(tr) == [NewCommand(insert.stmt, insert.at)]
  {
    ExecOneMore([], insert);
    tr := [insert];
    assert [] + [insert] == tr;
  }

  lemma LoneNotDue(t: Table, scope: Scope, now: int)
    requires |t| == 1 && t[0].status == Queued && t[0].expires.Some? && now < t[0].expires.value
    ensures Refreshed(t, scope, now) == t
  {
  }

  lemma LoneReport(t: Table, s: Statement, now: int)
    requires |t| == 1 && Open(t[0]) && s == Report(t[0].workspace, t[0].node, 0, true, "")
    ensures Marks(Reported, t, 0, s, now) && Apply(t, s, now) == [ReportRow(t[0], true, "", now)]
  {
  }

  /** A command with 100 ms to live, enqueued so that it is due a millisecond after its result's
      handler began. */
  lemma {:induction false} LateResultAccepted(a: int, b: int) returns (tr: Trace)
    requires MIN_SPAN_MS <= a < b
    ensures LateResult(tr, 1, 4, 0, a, b)
    ensures |Exec(tr)| == 1 && Exec(tr)[0].status == Completed && Exec(tr)[0].completed == Some(b)
    ensures Exec(tr)[0].expires == Some(a + 1)
  {
    hide Exec, Refreshed, Marks;
    var asked := a + 1 - MIN_SPAN_MS;
    var enqueue := Step(Insert("w", "n", Timing(MIN_SPAN_MS, MIN_SPAN_MS, 1), asked), asked);
    var scope := Scope("w", Some("n"), Some(0));
    var report := Step(Report("w", "n", 0, true, ""), b);
    var queued := LoneInsert(enqueue);
    ExecRefresh(queued, scope, a);
    var refreshed := queued + RefreshSteps(scope, a);
    LoneNotDue(Exec(queued), scope, a);
    LoneReport(Exec(refreshed), report.stmt, b);
    ExecOneMore(refreshed, report);
    tr := refreshed + [report];
    assert tr[..1] == queued && tr[..4] == refreshed;
  }

  /** So a late result can be accepted if and only if the clock moves between the handler's first
      UPDATE and its own, however little. */
  lemma {:induction false} LateIffClockMoves(a: int, b: int)
    requires MIN_SPAN_MS <= a <= b
    ensures (exists tr, j, k, i :: LateResult(tr, j, k, i, a, b)) <==> a < b
  {
    if tr, j, k, i :| LateResult(tr, j, k, i, a, b) {
      LateOnlyInBetween(tr, j, k, i);
    }
    if a < b {
      var tr := LateResultAccepted(a, b);
    }
  }

  /** A handler that nothing interrupts accepts its result exactly when the command is the node's and
      open, was not overdue at the first UPDATE, and not out of both lease and attempts at the second;
      what the clock says at the third, or at the result's own UPDATE, does not matter. */
  lemma {:induction false} ResultAcceptedIff(tr: Trace, w: string, n: string, id: nat, t1: int, t2: int, t3: int,
                                             report: Step)
    requires id < |Exec(tr)| && t1 <= t2 <= t3
    requires report.stmt.Report? && report.stmt.workspace == w && report.stmt.node == n && report.stmt.id == id
    ensures
      var c, scope := Exec(tr)[id], Scope(w, Some(n), Some(id));
      var run := tr + [Step(Update(OverdueSweep, scope), t1)] + [Step(Update(ExhaustedSweep, scope), t2)]
                 + [Step(Update(RequeueSweep, scope), t3)] + [report];
      AcceptsResult(run, |tr| + 3, id) <==>
        && c.workspace == w && c.node == n && c.status in {Queued, InProgress}
        && (c.expires.None? || t1 < c.expires.value)
        && !(c.status == InProgress && c.lease.Some? && c.lease.value <= t2 && c.attempts >= c.maxAttempts
             && (c.expires.None? || t2 < c.expires.value))
  {
    var scope := Scope(w, Some(n), Some(id));
    var s1, s2 := Step(Update(OverdueSweep, scope), t1), Step(Update(ExhaustedSweep, scope), t2);
    var s3 := Step(Update(RequeueSweep, scope), t3);
    ExecOneMore(tr, s1);
    ExecOneMore(tr + [s1], s2);
    ExecOneMore(tr + [s1] + [s2], s3);
    var before := tr + [s1] + [s2] + [s3];
    assert (before + [report])[..|tr| + 3] == before;
  }
}
