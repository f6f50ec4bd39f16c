/** Expiry is applied lazily, when a request happens to touch a row. In the fields modelled a caller
    can tell only by the time of completion that an expired command is shown with; the error text,
    progress and update time of a row, which are not modelled, can differ too. */
module NexusLazy {
  import opened Wrappers
  import opened NexusTiming
  import opened NexusCommands
  import opened NexusRequests

  // ----- Rows -----

  /** A row but for when its expiry was noticed, which depends on who refreshed it first. */
  function Control(c: Command): Command {
    if c.status == Expired then c.(completed := None) else c
  }

  /** Two rows that a refresh at `now` makes the same, up to the time an expiry was noticed. */
  predicate Alike(c: Command, d: Command, now: int) {
    Control(RefreshRow(c, now)) == Control(RefreshRow(d, now))
  }

  /** Refreshing early changes nothing that refreshing later does not settle anyway. */
  lemma RefreshComposes(c: Command, t1: int, t2: int)
    requires t1 <= t2
    ensures Control(RefreshRow(RefreshRow(c, t1), t2)) == Control(RefreshRow(c, t2))
    ensures t1 == t2 ==> RefreshRow(RefreshRow(c, t1), t2) == RefreshRow(c, t2)
  {
  }

  lemma RefreshRespectsControl(c: Command, d: Command, now: int)
    requires Control(c) == Control(d)
    ensures Alike(c, d, now)
  {
  }

  lemma AlikeLater(c: Command, d: Command, t1: int, t2: int)
    requires Alike(c, d, t1) && t1 <= t2
    ensures Alike(c, d, t2)
  {
    RefreshComposes(c, t1, t2);
    RefreshComposes(d, t1, t2);
    RefreshRespectsControl(RefreshRow(c, t1), RefreshRow(d, t1), t2);
  }

  /** Refreshes over two scopes at one instant are one refresh over their union, in either order. */
  lemma RefreshesUnite(t: Table, s1: Scope, s2: Scope, now: int, i: nat)
    requires i < |t|
    ensures Refreshed(Refreshed(t, s1, now), s2, now)[i] ==
            (if Covers(s1, i, t[i]) || Covers(s2, i, t[i]) then RefreshRow(t[i], now) else t[i])
    ensures Refreshed(Refreshed(t, s1, now), s2, now) == Refreshed(Refreshed(t, s2, now), s1, now)
  {
    forall k | 0 <= k < |t|
      ensures Refreshed(Refreshed(t, s1, now), s2, now)[k] ==
              (if Covers(s1, k, t[k]) || Covers(s2, k, t[k]) then RefreshRow(t[k], now) else t[k])
      ensures Refreshed(Refreshed(t, s2, now), s1, now)[k] ==
              (if Covers(s1, k, t[k]) || Covers(s2, k, t[k]) then RefreshRow(t[k], now) else t[k])
    {
      RefreshComposes(t[k], now, now);
    }
  }

  // ----- Tables -----

  ghost predicate AllAlike(a: Table, b: Table, now: int) {
    |a| == |b| && forall i :: 0 <= i < |a| ==> Alike(a[i], b[i], now)
  }

  lemma AllAlikeLater(a: Table, b: Table, t1: int, t2: int)
    requires AllAlike(a, b, t1) && t1 <= t2
    ensures AllAlike(a, b, t2)
  {
    forall i | 0 <= i < |a| ensures Alike(a[i], b[i], t2) {
      AlikeLater(a[i], b[i], t1, t2);
    }
  }

  lemma RefreshKeepsAlike(a: Table, b: Table, scope: Scope, now: int)
    requires AllAlike(a, b, now)
    ensures AllAlike(Refreshed(a, scope, now), b, now)
  {
    forall i | 0 <= i < |a| ensures Alike(Refreshed(a, scope, now)[i], b[i], now) {
      RefreshComposes(a[i], now, now);
    }
  }

  lemma SameOwner(c: Command, d: Command, now: int)
    requires Alike(c, d, now)
    ensures c.workspace == d.workspace && c.node == d.node
  {
  }

  /** After a handler's refresh the rows it is about agree outright. */
  lemma ReadiedAgrees(a: Table, b: Table, r: Request, now: int)
    requires AllAlike(a, b, now)
    ensures AllAlike(Readied(a, r, now), Readied(b, r, now), now)
    ensures !r.Enqueue? ==> forall i :: 0 <= i < |a| && Covers(ScopeOf(r), i, a[i]) ==>
              Control(Readied(a, r, now)[i]) == Control(Readied(b, r, now)[i])
  {
    hide RefreshRow, Control;
    forall i | 0 <= i < |a|
      ensures Alike(Readied(a, r, now)[i], Readied(b, r, now)[i], now)
      ensures !r.Enqueue? && Covers(ScopeOf(r), i, a[i]) ==>
              Control(Readied(a, r, now)[i]) == Control(Readied(b, r, now)[i])
    {
      SameOwner(a[i], b[i], now);
      RefreshComposes(a[i], now, now);
      RefreshComposes(b[i], now, now);
    }
  }

  /** The rows a poll looks at, or one given id: `Readied` covers them. */
  predicate SameReady(a: Table, b: Table, workspace: string, node: string) {
    && |a| == |b|
    && forall i :: 0 <= i < |a| ==> (Ready(a[i], workspace, node) <==> Ready(b[i], workspace, node))
  }

  lemma {:induction false} WaitingAgrees(a: Table, b: Table, n: nat, workspace: string, node: string, locked: set<nat>)
    requires SameReady(a, b, workspace, node) && n <= |a|
    ensures Waiting(a, n, workspace, node, locked) == Waiting(b, n, workspace, node, locked)
  {
    if n > 0 {
      hide Ready;
      WaitingAgrees(a, b, n - 1, workspace, node, locked);
    }
  }

  lemma PollAgrees(a: Table, b: Table, r: Request, now: int)
    requires r.Poll? && AllAlike(a, b, now)
    ensures Chosen(Readied(a, r, now), r.workspace, r.node, r.limit, {}) ==
            Chosen(Readied(b, r, now), r.workspace, r.node, r.limit, {})
  {
    ReadiedAgrees(a, b, r, now);
    var x, y := Readied(a, r, now), Readied(b, r, now);
    forall i | 0 <= i < |x|
      ensures Ready(x[i], r.workspace, r.node) <==> Ready(y[i], r.workspace, r.node)
    {
      if Covers(ScopeOf(r), i, a[i]) {
        assert Control(x[i]) == Control(y[i]);
      }
    }
    WaitingAgrees(x, y, |x|, r.workspace, r.node, {});
  }

  /** Rows that agree in control and are not expired agree outright. */
  lemma SameUnlessExpired(c: Command, d: Command)
    requires Control(c) == Control(d)
    ensures c.status != Expired ==> c == d
    ensures c.status == d.status && c.workspace == d.workspace && c.node == d.node
  {
  }

  lemma {:induction false} CoveredAgrees(a: Table, b: Table, r: Request, now: int, i: nat)
    requires AllAlike(a, b, now) && i < |a|
    requires !r.Enqueue? && Covers(ScopeOf(r), i, a[i])
    ensures Control(After(a, r, now)[i]) == Control(After(b, r, now)[i])
  {
    var x, y := Readied(a, r, now), Readied(b, r, now);
    assert Control(x[i]) == Control(y[i]) by { ReadiedAgrees(a, b, r, now); }
    if r.Poll? { PollAgrees(a, b, r, now); }
    var action := Action(r, now);
    if action.Some? {
      StatementRespectsControl(x, y, i, action.value, now);
    }
  }

  lemma StatementRespectsControl(x: Table, y: Table, i: nat, s: Statement, now: int)
    requires i < |x| == |y| && Control(x[i]) == Control(y[i]) && !s.Insert? && !s.Update?
    requires s.Claim? ==>
               Chosen(x, s.workspace, s.node, s.limit, s.locked) == Chosen(y, s.workspace, s.node, s.limit, s.locked)
    ensures Control(RowAfter(x, i, s, now)) == Control(RowAfter(y, i, s, now))
  {
    SameUnlessExpired(x[i], y[i]);
    if s.Claim? && i in Chosen(x, s.workspace, s.node, s.limit, s.locked) {
      assert Ready(x[i], s.workspace, s.node);
    }
  }

  lemma {:induction false} RowAfterAgrees(a: Table, b: Table, r: Request, now: int, i: nat)
    requires AllAlike(a, b, now) && i < |a|
    ensures Alike(After(a, r, now)[i], After(b, r, now)[i], now)
    ensures !r.Enqueue? && Covers(ScopeOf(r), i, a[i]) ==>
              Control(After(a, r, now)[i]) == Control(After(b, r, now)[i])
  {
    if !r.Enqueue? && Covers(ScopeOf(r), i, a[i]) {
      CoveredAgrees(a, b, r, now, i);
      RefreshRespectsControl(After(a, r, now)[i], After(b, r, now)[i], now);
    } else {
      SameOwner(a[i], b[i], now);
      UncoveredUnchanged(a, r, now, i);
      UncoveredUnchanged(b, r, now, i);
    }
  }

  /** Two answers that are the same, unless they show one expired command, whose time of completion
      may differ. */
  predicate SameReply(a: Reply, b: Reply) {
    a == b || (a.Found? && b.Found? && a.row.status == Expired && Control(a.row) == Control(b.row))
  }

  /** Alike tables give the same answer and stay alike. */
  lemma {:induction false} CallAgrees(a: Table, b: Table, r: Request, now: int)
    requires AllAlike(a, b, now)
    ensures AllAlike(After(a, r, now), After(b, r, now), now)
    ensures SameReply(Answer(a, r, now), Answer(b, r, now))
  {
    forall i | 0 <= i < |a|
      ensures Alike(After(a, r, now)[i], After(b, r, now)[i], now)
    {
      RowAfterAgrees(a, b, r, now, i);
    }
    AnswerAgrees(a, b, r, now);
  }

  /** A poll shows only commands that are queued or running. */
  lemma PolledIsOpen(t: Table, r: Request, now: int, k: nat)
    requires r.Poll? && k < |Chosen(Readied(t, r, now), r.workspace, r.node, r.limit, {})|
    ensures Open(After(t, r, now)[Chosen(Readied(t, r, now), r.workspace, r.node, r.limit, {})[k]])
  {
    var x := Readied(t, r, now);
    var i := Chosen(x, r.workspace, r.node, r.limit, {})[k];
    assert Ready(x[i], r.workspace, r.node);
  }

  lemma BatchAgrees(a: Table, b: Table, r: Request, now: int)
    requires r.Poll? && AllAlike(a, b, now)
    ensures Answer(a, r, now) == Answer(b, r, now)
  {
    PollAgrees(a, b, r, now);
    var ids := Chosen(Readied(a, r, now), r.workspace, r.node, r.limit, {});
    forall k | 0 <= k < |ids|
      ensures After(a, r, now)[ids[k]] == After(b, r, now)[ids[k]]
    {
      ChosenAreCovered(a, r, now, k);
      CoveredAgrees(a, b, r, now, ids[k]);
      PolledIsOpen(a, r, now, k);
      SameUnlessExpired(After(a, r, now)[ids[k]], After(b, r, now)[ids[k]]);
    }
    assert Items(After(a, r, now), ids) == Items(After(b, r, now), ids);
  }

  lemma {:induction false} AnswerAgrees(a: Table, b: Table, r: Request, now: int)
    requires AllAlike(a, b, now)
    ensures SameReply(Answer(a, r, now), Answer(b, r, now))
  {
    if r.Poll? {
      BatchAgrees(a, b, r, now);
    } else if !r.Enqueue? && !r.RefreshOnly? && r.id < |a| {
      AddressedAgrees(a, b, r, now);
    }
  }

  lemma AddressedAgrees(a: Table, b: Table, r: Request, now: int)
    requires r.SendProgress? || r.SendResult? || r.ReadCommand?
    requires AllAlike(a, b, now) && r.id < |a|
    ensures SameReply(Answer(a, r, now), Answer(b, r, now))
  {
    var x, y := Readied(a, r, now)[r.id], Readied(b, r, now)[r.id];
    SameOwner(a[r.id], b[r.id], now);
    if Covers(ScopeOf(r), r.id, a[r.id]) {
      ReadiedAgrees(a, b, r, now);
      assert Control(x) == Control(y);
      SameUnlessExpired(x, y);
    }
  }

  // ----- Runs -----

  /** The run without its bare refreshes: expiry happens only when a request needs it. */
  function Lazy(run: Run): Run {
    if run == [] then []
    else
      var front, last := Lazy(run[..|run| - 1]), run[|run| - 1];
      if last.request.RefreshOnly? then front else front + [last]
  }

  ghost predicate SameReplies(xs: seq<Reply>, ys: seq<Reply>) {
    |xs| == |ys| && forall k :: 0 <= k < |xs| ==> SameReply(xs[k], ys[k])
  }

  lemma ServeOneMore(run: Run, c: Call)
    ensures Serve(run + [c]) == After(Serve(run), c.request, c.at)
    ensures !c.request.RefreshOnly? ==> Replies(run + [c]) == Replies(run) + [Answer(Serve(run), c.request, c.at)]
    ensures c.request.RefreshOnly? ==> Replies(run + [c]) == Replies(run)
  {
    assert (run + [c])[..|run|] == run;
  }

  lemma ValidFront(run: Run)
    requires ValidRun(run) && run != []
    ensures ValidRun(run[..|run| - 1]) && (|run| > 1 ==> Clock(run[..|run| - 1]) <= run[|run| - 1].at)
  {
  }

  /** The tables of a run and of its lazy form, when its next call comes. */
  ghost predicate InStep(run: Run, now: int) {
    SameReplies(Replies(run), Replies(Lazy(run))) && AllAlike(Serve(run), Serve(Lazy(run)), now)
  }

  lemma CallInStep(front: Run, last: Call)
    requires InStep(front, last.at)
    ensures InStep(front + [last], last.at)
  {
    assert (front + [last])[..|front|] == front;
    ServeOneMore(front, last);
    if last.request.RefreshOnly? {
      RefreshKeepsAlike(Serve(front), Serve(Lazy(front)), last.request.scope, last.at);
    } else {
      CallAgrees(Serve(front), Serve(Lazy(front)), last.request, last.at);
      ServeOneMore(Lazy(front), last);
    }
  }

  lemma NothingInStep(run: Run, now: int)
    requires run == []
    ensures InStep(run, now)
  {
    assert Lazy(run) == run;
  }

  lemma InStepLater(run: Run, t1: int, t2: int)
    requires InStep(run, t1) && t1 <= t2
    ensures InStep(run, t2)
  {
    hide Serve, Replies, Lazy, SameReplies, AllAlike;
    AllAlikeLater(Serve(run), Serve(Lazy(run)), t1, t2);
  }

  lemma FrontInTime(run: Run, now: int)
    requires ValidRun(run) && run != [] && Clock(run) <= now
    ensures
      var front, last := run[..|run| - 1], run[|run| - 1];
      ValidRun(front) && Clock(front) <= last.at <= now && run == front + [last]
  {
    ValidFront(run);
  }

  lemma {:induction false} StaysInStep(run: Run, now: int)
    requires ValidRun(run) && Clock(run) <= now
    ensures InStep(run, now)
    decreases |run|
  {
    hide *;
    if run == [] {
      NothingInStep(run, now);
    } else {
      var front, last := run[..|run| - 1], run[|run| - 1];
      FrontInTime(run, now);
      StaysInStep(front, last.at);
      CallInStep(front, last);
      InStepLater(run, last.at, now);
    }
  }

  /** Refreshes of any scope at any earlier time, anywhere in a run, change no reply but for when an
      expired command is said to have ended, and leave the tables alike. */
  lemma {:induction false} ExtraRefreshesInvisible(run: Run, now: int)
    requires ValidRun(run) && Clock(run) <= now
    ensures SameReplies(Replies(run), Replies(Lazy(run)))
    ensures AllAlike(Serve(run), Serve(Lazy(run)), now)
  {
    hide Serve, Replies, Lazy, SameReplies, AllAlike;
    StaysInStep(run, now);
  }

  /** Lazy expiry is eager expiry, in the fields modelled, which leave out a row's error text, progress
      and update time: two runs that differ only in bare refreshes give every caller the same replies,
      but for the time of completion of a command shown as expired; and a refresh of any row at any
      later time makes it the same in both, with the same exception. */
  lemma {:induction false} LazyEqualsEager(lazy: Run, eager: Run, now: int)
    requires ValidRun(lazy) && ValidRun(eager) && Lazy(lazy) == Lazy(eager)
    requires Clock(lazy) <= now && Clock(eager) <= now
    ensures SameReplies(Replies(lazy), Replies(eager))
    ensures |Serve(lazy)| == |Serve(eager)|
    ensures forall i :: 0 <= i < |Serve(lazy)| ==>
              Control(RefreshRow(Serve(lazy)[i], now)) == Control(RefreshRow(Serve(eager)[i], now))
  {
    ExtraRefreshesInvisible(lazy, now);
    ExtraRefreshesInvisible(eager, now);
    var base := Lazy(lazy);
    forall k | 0 <= k < |Replies(lazy)|
      ensures SameReply(Replies(lazy)[k], Replies(eager)[k])
    {
      assert SameReply(Replies(lazy)[k], Replies(base)[k]);
      assert SameReply(Replies(eager)[k], Replies(base)[k]);
    }
    forall i | 0 <= i < |Serve(lazy)|
      ensures Alike(Serve(lazy)[i], Serve(eager)[i], now)
    {
      assert Alike(Serve(lazy)[i], Serve(base)[i], now);
      assert Alike(Serve(eager)[i], Serve(base)[i], now);
    }
  }

  // ----- When an expiry is noticed -----

  lemma DoomedExpires(c: Command, now: int)
    ensures Doomed(c, now) ==> RefreshRow(c, now) == Expire(c, now)
    ensures !Doomed(c, now) && Open(c) ==> Open(RefreshRow(c, now))
    ensures !Open(c) ==> !Doomed(c, now) && RefreshRow(c, now) == c
  {
  }

  /** Call k of the run refreshes command i and finds it doomed. */
  predicate Notices(run: Run, k: nat, i: nat) {
    && k < |run| && !run[k].request.Enqueue? && i < |Serve(run[..k])|
    && Covers(ScopeOf(run[k].request), i, Serve(run[..k])[i]) && Doomed(Serve(run[..k])[i], run[k].at)
  }

  /** When command i was first found doomed by a refresh. */
  function NoticedAt(run: Run, i: nat): Option<int> {
    if run == [] then None
    else
      var before := NoticedAt(run[..|run| - 1], i);
      if before.None? && Notices(run, |run| - 1, i) then Some(run[|run| - 1].at) else before
  }

  lemma RowKept(t: Table, r: Request, now: int, i: nat)
    requires i < |t|
    ensures i < |After(t, r, now)|
    ensures !Open(Readied(t, r, now)[i]) ==> After(t, r, now)[i] == Readied(t, r, now)[i]
    ensures After(t, r, now)[i].status == Expired ==> !Open(Readied(t, r, now)[i])
  {
    var b, action := Readied(t, r, now), Action(r, now);
    if action.Some? {
      var s := action.value;
      assert s.Claim? && !Open(b[i]) ==> !Ready(b[i], s.workspace, s.node);
    }
  }

  /** Call c ends command i if it finds it doomed, and else leaves an expired command as it is and no
      other one expired. */
  lemma {:induction false} CallNotices(run: Run, c: Call, i: nat)
    requires ValidRun(run) && i < |Serve(run)|
    ensures i < |Serve(run + [c])|
    ensures
      var before, after := Serve(run)[i], Serve(run + [c])[i];
      if Notices(run + [c], |run|, i)
      then Open(before) && after.status == Expired && after.completed == Some(c.at)
      else (after.status == Expired <==> before.status == Expired) && (after.status == Expired ==> after == before)
  {
    var t := Serve(run);
    assert (run + [c])[..|run|] == run;
    ServeOneMore(run, c);
    assert Open(t[i]) ==> t[i].completed.None? by {
      var claims, spent := ReachableRow(run, i);
    }
    hide Serve;
    RowKept(t, c.request, c.at, i);
    DoomedExpires(t[i], c.at);
  }

  lemma NoticedOneMore(run: Run, c: Call, i: nat)
    ensures NoticedAt(run + [c], i) ==
            if NoticedAt(run, i).None? && Notices(run + [c], |run|, i) then Some(c.at) else NoticedAt(run, i)
  {
    hide Notices;
    assert (run + [c])[..|run|] == run;
  }

  lemma {:induction false} NothingToNotice(run: Run, i: nat)
    requires i >= |Serve(run)|
    ensures NoticedAt(run, i) == None
    decreases |run|
  {
    if run != [] {
      var front, last := run[..|run| - 1], run[|run| - 1];
      assert |Serve(front)| <= |Serve(run)|;
      NothingToNotice(front, i);
    }
  }

  lemma NewRowIsQueued(run: Run, c: Call, i: nat)
    requires |Serve(run)| <= i < |Serve(run + [c])|
    ensures Serve(run + [c])[i].status == Queued && !Notices(run + [c], |run|, i)
  {
    assert (run + [c])[..|run|] == run;
  }

  /** A command is expired exactly when a refresh has found it overdue, or out of both lease and
      attempts; and its time of completion is the clock of the first such refresh. */
  lemma {:induction false} ExpiredIffNoticed(run: Run, i: nat)
    requires ValidRun(run) && i < |Serve(run)|
    ensures
      var c := Serve(run)[i];
      && (c.status == Expired <==> NoticedAt(run, i).Some?)
      && (c.status == Expired ==> c.completed == NoticedAt(run, i))
    decreases |run|
  {
    hide Notices, NoticedAt;
    var front, last := run[..|run| - 1], run[|run| - 1];
    assert run == front + [last];
    ValidFront(run);
    NoticedOneMore(front, last, i);
    if i < |Serve(front)| {
      ExpiredIffNoticed(front, i);
      CallNotices(front, last, i);
    } else {
      NothingToNotice(front, i);
      NewRowIsQueued(front, last, i);
    }
  }

  /** So two runs that differ only in bare refreshes show an expired command alike exactly when it was
      first noticed at one time in both. */
  lemma {:induction false} ExpiredAlikeIff(lazy: Run, eager: Run, i: nat, now: int)
    requires ValidRun(lazy) && ValidRun(eager) && Lazy(lazy) == Lazy(eager)
    requires Clock(lazy) <= now && Clock(eager) <= now
    requires i < |Serve(lazy)| && i < |Serve(eager)|
    requires Serve(lazy)[i].status == Serve(eager)[i].status == Expired
    ensures Serve(lazy)[i] == Serve(eager)[i] <==> NoticedAt(lazy, i) == NoticedAt(eager, i)
  {
    hide Serve, NoticedAt;
    LazyEqualsEager(lazy, eager, now);
    ExpiredIffNoticed(lazy, i);
    ExpiredIffNoticed(eager, i);
    DoomedExpires(Serve(lazy)[i], now);
    DoomedExpires(Serve(eager)[i], now);
    assert Control(Serve(lazy)[i]) == Control(Serve(eager)[i]);
  }

  /** What becomes of a lone queued command, due at 101, that is refreshed at 150 or read later. */
  lemma LoneExpires(t: Table, c: Call)
    requires |t| == 1 && t[0].status == Queued && t[0].expires == Some(101) && t[0].completed.None? && c.at > 101
    requires c.request in {RefreshOnly(Scope("w", Some("n"), None)), ReadCommand("w", "n", 0)}
    requires t[0].workspace == "w" && t[0].node == "n"
    ensures After(t, c.request, c.at) == [Expire(t[0], c.at)]
    ensures c.request.ReadCommand? ==> Answer(t, c.request, c.at) == Found(Expire(t[0], c.at))
  {
  }

  lemma LoneExpiredRead(t: Table, c: Call)
    requires |t| == 1 && t[0].status == Expired && t[0].workspace == "w" && t[0].node == "n"
    requires c.request == ReadCommand("w", "n", 0)
    ensures Answer(t, c.request, c.at) == Found(t[0])
  {
  }

  lemma LoneEnqueue(c: Call) returns (run: Run)
    requires c.request.Enqueue?
    ensures run == [c] && |Replies(run)| == 1 && Lazy(run) == run
    ensures Serve(run) == [NewCommand(Insert(c.request.workspace, c.request.node, c.request.timing, c.at), c.at)]
  {
    run := [c];
    assert run[..0] == [];
    assert Serve([]) == [] && Serve(run) == After([], c.request, c.at);
  }

  lemma LazyOneMore(run: Run, c: Call)
    ensures Lazy(run + [c]) == if c.request.RefreshOnly? then Lazy(run) else Lazy(run) + [c]
  {
    assert (run + [c])[..|run|] == run;
  }

  /** The exception is real: a command enqueued at 1 with 100 ms to live is shown, when read at 200,
      as ended at 200; but at 150 if anything refreshed its node's commands then. */
  lemma {:induction false} ExpiryTimeTells() returns (lazy: Run, eager: Run)
    ensures ValidRun(lazy) && ValidRun(eager) && Lazy(lazy) == Lazy(eager)
    ensures |Replies(lazy)| == |Replies(eager)| == 2
    ensures Replies(lazy)[1].Found? && Replies(lazy)[1].row.completed == Some(200)
    ensures Replies(eager)[1].Found? && Replies(eager)[1].row.completed == Some(150)
  {
    hide Serve, Replies, Lazy, After, Answer;
    var enqueue := Call(Enqueue("w", "n", Timing(100, 100, 1)), 1);
    var refresh := Call(RefreshOnly(Scope("w", Some("n"), None)), 150);
    var read := Call(ReadCommand("w", "n", 0), 200);
    var queued := LoneEnqueue(enqueue);
    LoneExpires(Serve(queued), read);
    LoneExpires(Serve(queued), refresh);
    ServeOneMore(queued, read);
    ServeOneMore(queued, refresh);
    LoneExpiredRead(Serve(queued + [refresh]), read);
    ServeOneMore(queued + [refresh], read);
    LazyOneMore(queued, read);
    LazyOneMore(queued, refresh);
    LazyOneMore(queued + [refresh], read);
    lazy, eager := queued + [read], queued + [refresh] + [read];
  }
}
