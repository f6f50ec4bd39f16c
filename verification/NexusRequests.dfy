/** The request handlers: each refreshes the rows it is about and then acts, at one clock reading. */
module NexusRequests {
  import opened Wrappers
  import opened NexusTiming
  import opened NexusCommands
  import opened NexusRuns

  datatype Request =
    | Enqueue(workspace: string, node: string, timing: Timing)
    | Poll(workspace: string, node: string, limit: nat, claim: bool)
    | SendProgress(workspace: string, node: string, id: nat)
    | SendResult(workspace: string, node: string, id: nat, ok: bool, body: string)
    | ReadCommand(workspace: string, node: string, id: nat)
    | RefreshOnly(scope: Scope)

  datatype Item = Item(id: nat, row: Command)

  datatype Reply =
    | Created(item: Item)
    | Batch(items: seq<Item>)
    | Found(row: Command)
    | Accepted
    | Refused

  function ScopeOf(r: Request): Scope
    requires !r.Enqueue?
  {
    match r
    case Poll(w, n, _, _) => Scope(w, Some(n), None)
    case RefreshOnly(s) => s
    case SendProgress(w, n, id) => Scope(w, Some(n), Some(id))
    case SendResult(w, n, id, _, _) => Scope(w, Some(n), Some(id))
    case ReadCommand(w, n, id) => Scope(w, Some(n), Some(id))
  }

  /** The table the handler's own statement sees. */
  function Readied(t: Table, r: Request, now: int): (b: Table)
    ensures |b| == |t|
  {
    if r.Enqueue? then t else Refreshed(t, ScopeOf(r), now)
  }

  function Action(r: Request, now: int): Option<Statement> {
    match r
    case Enqueue(w, n, timing) => Some(Insert(w, n, timing, now))
    case Poll(w, n, limit, claim) => if claim then Some(Claim(w, n, limit, {})) else None
    case SendProgress(w, n, id) => Some(Progress(w, n, id))
    case SendResult(w, n, id, ok, body) => Some(Report(w, n, id, ok, body))
    case _ => None
  }

  function After(t: Table, r: Request, now: int): Table {
    var b := Readied(t, r, now);
    var action := Action(r, now);
    if action.Some? then Apply(b, action.value, now) else b
  }

  function Items(t: Table, ids: seq<nat>): seq<Item>
    requires forall k :: 0 <= k < |ids| ==> ids[k] < |t|
  {
    seq(|ids|, k requires 0 <= k < |ids| => Item(ids[k], t[ids[k]]))
  }

  predicate Reaches(t: Table, workspace: string, node: string, id: nat) {
    id < |t| && Addressed(t[id], id, workspace, node, id)
  }

  function Answer(t: Table, r: Request, now: int): Reply {
    var b := Readied(t, r, now);
    match r
    case Enqueue(w, n, timing) =>
      Created(Item(|t|, NewCommand(Insert(w, n, timing, now), now)))
    case Poll(w, n, limit, _) =>
      Batch(Items(After(t, r, now), Chosen(b, w, n, limit, {})))
    case SendProgress(w, n, id) =>
      if Reaches(b, w, n, id) then Found(ProgressRow(b[id], now)) else Refused
    case SendResult(w, n, id, _, _) =>
      if Reaches(b, w, n, id) then Accepted else Refused
    case ReadCommand(w, n, id) =>
      if id < |b| && b[id].workspace == w && b[id].node == n then Found(b[id]) else Refused
    case RefreshOnly(_) => Accepted
  }

  /** What a request is about: the row of its node, or of its id, or of a scope. */
  predicate Concerns(r: Request, i: nat, c: Command) {
    match r
    case Enqueue(_, _, _) => false
    case Poll(w, n, _, _) => c.workspace == w && c.node == n
    case SendProgress(w, n, id) => c.workspace == w && c.node == n && i == id
    case SendResult(w, n, id, _, _) => c.workspace == w && c.node == n && i == id
    case ReadCommand(w, n, id) => c.workspace == w && c.node == n && i == id
    case RefreshOnly(s) =>
      && c.workspace == s.workspace
      && (s.node == None || s.node == Some(c.node)) && (s.command == None || s.command == Some(i))
  }

  /** A handler's own statement finds exactly the rows the request is about refreshed. */
  lemma RefreshReaches(t: Table, r: Request, now: int, i: nat)
    requires i < |t|
    ensures Readied(t, r, now)[i] == if Concerns(r, i, t[i]) then RefreshRow(t[i], now) else t[i]
  {
  }

  /** A poll shows the commands a claim chooses from the refreshed rows, as they then are. If it claims
      them, each has one more attempt, a full lease and a start, by now if it had none; and nothing else
      of it changes. No other row is more than refreshed, and none at all if the poll does not claim. */
  lemma PollHandsOut(t: Table, r: Request, now: int)
    requires r.Poll?
    ensures
      var b, after, items := Readied(t, r, now), After(t, r, now), Answer(t, r, now).items;
      var ids := Chosen(b, r.workspace, r.node, r.limit, {});
      && |after| == |t| && |items| == |ids|
      && (forall k :: 0 <= k < |items| ==>
            items[k].id == ids[k] < |t| && items[k].row == after[ids[k]]
            && after[ids[k]] == if r.claim then HandedOut(b[ids[k]], now) else b[ids[k]])
      && (forall i :: 0 <= i < |t| && i !in ids ==> after[i] == b[i])
  {
    var ids := Chosen(Readied(t, r, now), r.workspace, r.node, r.limit, {});
    assert forall k :: 0 <= k < |ids| ==> ids[k] in ids;
  }

  /** The row as it is handed out: running, leased from now, started if it was not, one attempt up. */
  function HandedOut(c: Command, now: int): Command {
    c.(status := InProgress, lease := Some(now + c.leaseMs), attempts := c.attempts + 1,
       started := if c.started.Some? then c.started else Some(now))
  }

  /** A poll takes only commands its refresh covered. */
  lemma ChosenAreCovered(a: Table, r: Request, now: int, k: nat)
    requires r.Poll? && k < |Chosen(Readied(a, r, now), r.workspace, r.node, r.limit, {})|
    ensures
      var i := Chosen(Readied(a, r, now), r.workspace, r.node, r.limit, {})[k];
      i < |a| && Covers(ScopeOf(r), i, a[i])
  {
    var i := Chosen(Readied(a, r, now), r.workspace, r.node, r.limit, {})[k];
    assert Readied(a, r, now)[i].workspace == a[i].workspace && Readied(a, r, now)[i].node == a[i].node;
  }

  /** A handler touches only rows that its refresh covers. */
  lemma UncoveredUnchanged(a: Table, r: Request, now: int, i: nat)
    requires i < |a| && (r.Enqueue? || !Covers(ScopeOf(r), i, a[i]))
    ensures After(a, r, now)[i] == a[i]
  {
    if r.Poll? {
      var ids := Chosen(Readied(a, r, now), r.workspace, r.node, r.limit, {});
      forall k | 0 <= k < |ids| ensures ids[k] != i {
        ChosenAreCovered(a, r, now, k);
      }
    }
  }

  // ----- Runs of requests -----

  datatype Call = Call(request: Request, at: int)

  type Run = seq<Call>

  ghost predicate ValidRun(run: Run) {
    && (forall k :: 0 <= k < |run| ==>
          run[k].at > 0 && (run[k].request.Enqueue? ==> InRange(run[k].request.timing)))
    && (forall j, k :: 0 <= j < k < |run| ==> run[j].at <= run[k].at)
  }

  function Clock(run: Run): int {
    if run == [] then 0 else run[|run| - 1].at
  }

  function Serve(run: Run): Table {
    if run == [] then []
    else
      var last := run[|run| - 1];
      After(Serve(run[..|run| - 1]), last.request, last.at)
  }

  /** What the callers were told; a bare refresh tells nobody anything. */
  function Replies(run: Run): seq<Reply> {
    if run == [] then []
    else
      var front, last := run[..|run| - 1], run[|run| - 1];
      if last.request.RefreshOnly? then Replies(front)
      else Replies(front) + [Answer(Serve(front), last.request, last.at)]
  }

  // ----- A handler is its statements -----

  function RefreshSteps(scope: Scope, now: int): Trace {
    [Step(Update(OverdueSweep, scope), now), Step(Update(ExhaustedSweep, scope), now),
     Step(Update(RequeueSweep, scope), now)]
  }

  function Steps(c: Call): Trace {
    (if c.request.Enqueue? then [] else RefreshSteps(ScopeOf(c.request), c.at)) +
    (var action := Action(c.request, c.at); if action.Some? then [Step(action.value, c.at)] else [])
  }

  function Flatten(run: Run): Trace {
    if run == [] then [] else Flatten(run[..|run| - 1]) + Steps(run[|run| - 1])
  }

  lemma ExecRefresh(tr: Trace, scope: Scope, now: int)
    ensures Exec(tr + RefreshSteps(scope, now)) == Refreshed(Exec(tr), scope, now)
  {
    var s1, s2, s3 := RefreshSteps(scope, now)[0], RefreshSteps(scope, now)[1], RefreshSteps(scope, now)[2];
    ExecOneMore(tr, s1);
    ExecOneMore(tr + [s1], s2);
    ExecOneMore(tr + [s1] + [s2], s3);
    assert tr + [s1] + [s2] + [s3] == tr + RefreshSteps(scope, now);
    RefreshIsOnePass(Exec(tr), scope, now);
  }

  lemma ExecSteps(tr: Trace, c: Call)
    ensures Exec(tr + Steps(c)) == After(Exec(tr), c.request, c.at)
  {
    var refresh := if c.request.Enqueue? then [] else RefreshSteps(ScopeOf(c.request), c.at);
    var action := Action(c.request, c.at);
    if c.request.Enqueue? {
      assert tr + refresh == tr;
    } else {
      ExecRefresh(tr, ScopeOf(c.request), c.at);
    }
    assert Exec(tr + refresh) == Readied(Exec(tr), c.request, c.at);
    if action.Some? {
      ExecOneMore(tr + refresh, Step(action.value, c.at));
      assert tr + Steps(c) == tr + refresh + [Step(action.value, c.at)];
    } else {
      assert tr + Steps(c) == tr + refresh;
    }
  }

  lemma StepsLegal(c: Call)
    requires c.at > 0 && (c.request.Enqueue? ==> InRange(c.request.timing))
    ensures UpTo(Steps(c), c.at) && forall s :: s in Steps(c) ==> s.at == c.at
  {
  }

  lemma RefreshLegal(scope: Scope, now: int)
    requires now > 0
    ensures UpTo(RefreshSteps(scope, now), now) && forall s :: s in RefreshSteps(scope, now) ==> s.at == now
  {
  }

  /** A valid trace that has not run past `now`. */
  ghost predicate UpTo(tr: Trace, now: int) {
    Valid(tr) && forall s :: s in tr ==> s.at <= now
  }

  /** Two such traces, the second no earlier than the first, make one. */
  lemma UpToAppend(tr: Trace, more: Trace, t1: int, t2: int)
    requires UpTo(tr, t1) && UpTo(more, t2) && t1 <= t2
    requires forall s :: s in more ==> t1 <= s.at
    ensures UpTo(tr + more, t2)
  {
    var all := tr + more;
    forall j, k | 0 <= j < k < |all| ensures all[j].at <= all[k].at {
      assert j < |tr| ==> all[j] in tr;
      assert k >= |tr| ==> all[k] in more;
    }
    assert forall s :: s in all ==> s in tr || s in more;
  }

  /** Serving requests is running their statements one after the other, so whatever holds of every
      run of statements holds of every run of requests. */
  lemma {:induction false} ServeIsExec(run: Run)
    requires ValidRun(run)
    ensures Exec(Flatten(run)) == Serve(run)
    ensures UpTo(Flatten(run), Clock(run))
    decreases |run|
  {
    if run != [] {
      var front, last := run[..|run| - 1], run[|run| - 1];
      ServeIsExec(front);
      ExecSteps(Flatten(front), last);
      StepsLegal(last);
      UpToAppend(Flatten(front), Steps(last), Clock(front), last.at);
    }
  }

  lemma ReachableRow(run: Run, i: nat) returns (claims: nat, spent: int)
    requires ValidRun(run) && i < |Serve(run)|
    ensures Sound(Serve(run)[i], Clock(run), claims, spent)
  {
    ServeIsExec(run);
    var tr := Flatten(run);
    ReachableSound(tr, i);
    claims, spent := Count(Claimed, tr, i), Spent(tr, i);
  }

  /** In every reachable state a refreshed row that is still open has its deadline ahead of it, and
      its lease too if it is running. */
  lemma {:induction false} RefreshLeavesLive(run: Run, i: nat, now: int)
    requires ValidRun(run) && i < |Serve(run)| && Clock(run) <= now
    ensures
      var c := RefreshRow(Serve(run)[i], now);
      && (Open(c) ==> c.expires.Some? && c.expires.value > now)
      && (c.status == InProgress ==> c.lease.Some? && c.lease.value > now)
  {
    var claims, spent := ReachableRow(run, i);
  }

  /** Half an hour after a command was enqueued nothing more can happen to it: progress and results
      are refused, no poll hands it out, and reading it shows a terminal state. */
  lemma {:induction false} NoLateWork(run: Run, i: nat, r: Request, now: int)
    requires ValidRun(run) && i < |Serve(run)| && Clock(run) <= now
    requires now >= Serve(run)[i].created + MAX_TIMEOUT_MS
    ensures (r.SendProgress? || r.SendResult?) && r.id == i ==> Answer(Serve(run), r, now) == Refused
    ensures r.Poll? ==> forall item :: item in Answer(Serve(run), r, now).items ==> item.id != i
    ensures r.ReadCommand? && r.id == i && Answer(Serve(run), r, now).Found? ==>
              !Open(Answer(Serve(run), r, now).row)
  {
    var t := Serve(run);
    var claims, spent := ReachableRow(run, i);
    assert !Open(RefreshRow(t[i], now));
    if r.Poll? {
      assert i !in Chosen(Readied(t, r, now), r.workspace, r.node, r.limit, {});
    }
  }
}
