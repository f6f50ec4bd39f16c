/** The nexus_commands table and the SQL statements that change it.
    Rows are never deleted, so a command's id is its position in creation order. */
module NexusCommands {
  import opened Wrappers
  import opened NexusTiming

  datatype Status = Queued | InProgress | Completed | Failed | Expired

  datatype Command = Command(
    workspace: string, node: string, status: Status,
    attempts: int, maxAttempts: int, leaseMs: int, timeoutMs: int,
    created: int, expires: Option<int>, lease: Option<int>,
    started: Option<int>, completed: Option<int>, result: Option<string>)

  type Table = seq<Command>

  predicate Open(c: Command) {
    c.status == Queued || c.status == InProgress
  }

  // ----- Refreshing one row -----

  predicate Overdue(c: Command, now: int) {
    Open(c) && c.expires.Some? && c.expires.value <= now
  }

  predicate Lapsed(c: Command, now: int) {
    && c.status == InProgress
    && c.lease.Some? && c.lease.value <= now
    && (c.expires.None? || c.expires.value > now)
  }

  function Expire(c: Command, now: int): Command {
    c.(status := Expired, completed := Some(c.completed.GetOr(now)), lease := None)
  }

  function Requeue(c: Command): Command {
    c.(status := Queued, lease := None)
  }

  /** The three UPDATEs of a refresh. */
  datatype Sweep = OverdueSweep | ExhaustedSweep | RequeueSweep

  function SweepRow(k: Sweep, c: Command, now: int): Command {
    match k
    case OverdueSweep => if Overdue(c, now) then Expire(c, now) else c
    case ExhaustedSweep => if Lapsed(c, now) && c.attempts >= c.maxAttempts then Expire(c, now) else c
    case RequeueSweep => if Lapsed(c, now) && c.attempts < c.maxAttempts then Requeue(c) else c
  }

  /** What a refresh does to a row, as one decision: past its deadline it expires; else with its
      lease run out it expires if its attempts are spent and is queued again if not. */
  function RefreshRow(c: Command, now: int): Command {
    if !Open(c) then c
    else if c.expires.Some? && c.expires.value <= now then Expire(c, now)
    else if c.status == InProgress && c.lease.Some? && c.lease.value <= now then
      if c.attempts >= c.maxAttempts then Expire(c, now) else Requeue(c)
    else c
  }

  /** A refresh at `now` ends the row: its deadline has passed, or its lease has run out and it has no
      attempt left. */
  predicate Doomed(c: Command, now: int) {
    c.status in {Queued, InProgress} &&
    ((c.expires.Some? && c.expires.value <= now)
     || (c.status == InProgress && c.lease.Some? && c.lease.value <= now && c.attempts >= c.maxAttempts))
  }

  /** A row with its deadline ahead, and its lease too if it is running. */
  predicate InTime(c: Command, now: int) {
    && (c.expires.None? || now < c.expires.value)
    && (c.status == InProgress ==> c.lease.None? || now < c.lease.value)
  }

  /** A refresh leaves alone a row that is in time or has ended. It ends one that is doomed, at that
      moment unless a time is set already; and any other, whose lease has run out with an attempt left,
      it queues again. Apart from status, completion time and lease it changes nothing. */
  lemma RefreshMeans(c: Command, now: int)
    ensures c.status !in {Queued, InProgress} || InTime(c, now) ==> RefreshRow(c, now) == c
    ensures Doomed(c, now) ==>
              RefreshRow(c, now) == c.(status := Expired, lease := None,
                                       completed := if c.completed.Some? then c.completed else Some(now))
    ensures c.status in {Queued, InProgress} && !InTime(c, now) && !Doomed(c, now) ==>
              && c.status == InProgress && c.attempts < c.maxAttempts
              && RefreshRow(c, now) == c.(status := Queued, lease := None)
  {
  }

  /** Which rows each of the three UPDATEs changes. */
  lemma SweepMeans(c: Command, now: int)
    ensures SweepRow(OverdueSweep, c, now) != c <==>
              c.status in {Queued, InProgress} && c.expires.Some? && c.expires.value <= now
    ensures SweepRow(ExhaustedSweep, c, now) != c <==>
              && c.status == InProgress && c.lease.Some? && c.lease.value <= now
              && c.attempts >= c.maxAttempts && (c.expires.None? || now < c.expires.value)
    ensures SweepRow(RequeueSweep, c, now) != c <==>
              && c.status == InProgress && c.lease.Some? && c.lease.value <= now
              && c.attempts < c.maxAttempts && (c.expires.None? || now < c.expires.value)
  {
  }

  /** At one instant the three UPDATEs amount to the single decision, in whatever order they run. */
  lemma SweepsInAnyOrder(c: Command, now: int, a: Sweep, b: Sweep, d: Sweep)
    requires a != b && b != d && a != d
    ensures SweepRow(d, SweepRow(b, SweepRow(a, c, now), now), now) == RefreshRow(c, now)
  {
  }

  // ----- Statements -----

  /** `workspace_id = $1 [AND node_id = $2] [AND id = $3]`. */
  datatype Scope = Scope(workspace: string, node: Option<string>, command: Option<nat>)

  predicate Covers(s: Scope, id: nat, c: Command) {
    && c.workspace == s.workspace
    && (s.node.Some? ==> c.node == s.node.value)
    && (s.command.Some? ==> id == s.command.value)
  }

  datatype Statement =
    | Insert(workspace: string, node: string, timing: Timing, asked: int)
    | Update(sweep: Sweep, scope: Scope)
    | Claim(workspace: string, node: string, limit: nat, locked: set<nat>)
    | Progress(workspace: string, node: string, id: nat)
    | Report(workspace: string, node: string, id: nat, ok: bool, body: string)

  predicate Addressed(c: Command, i: nat, workspace: string, node: string, id: nat) {
    i == id && c.workspace == workspace && c.node == node && Open(c)
  }

  function NewCommand(s: Statement, now: int): Command
    requires s.Insert?
  {
    Command(s.workspace, s.node, Queued, 0, s.timing.maxAttempts, s.timing.leaseMs,
            s.timing.timeoutMs, now, Some(s.asked + s.timing.timeoutMs), None, None, None, None)
  }

  function ClaimRow(c: Command, now: int): Command {
    c.(status := InProgress, started := Some(c.started.GetOr(now)),
       lease := Some(now + c.leaseMs), attempts := c.attempts + 1)
  }

  function ProgressRow(c: Command, now: int): Command {
    c.(status := if c.status == Queued then InProgress else c.status,
       started := Some(c.started.GetOr(now)), lease := Some(now + c.leaseMs))
  }

  function ReportRow(c: Command, ok: bool, body: string, now: int): Command {
    c.(status := if ok then Completed else Failed, result := Some(body),
       completed := Some(now), lease := None)
  }

  predicate Ready(c: Command, workspace: string, node: string) {
    c.workspace == workspace && c.node == node && c.status == Queued
  }

  /** The unlocked queued commands of a node among the first n, oldest first. */
  function Waiting(t: Table, n: nat, workspace: string, node: string, locked: set<nat>): (w: seq<nat>)
    requires n <= |t|
    ensures forall i: nat :: i in w <==> i < n && Ready(t[i], workspace, node) && i !in locked
    ensures forall j, k :: 0 <= j < k < |w| ==> w[j] < w[k]
  {
    if n == 0 then []
    else
      var w := Waiting(t, n - 1, workspace, node, locked);
      assert forall j :: 0 <= j < |w| ==> w[j] in w;
      if Ready(t[n - 1], workspace, node) && n - 1 !in locked then w + [n - 1] else w
  }

  function Take(w: seq<nat>, limit: nat): seq<nat> {
    if limit < |w| then w[..limit] else w
  }

  /** `WHERE status = 'queued' ORDER BY created_at LIMIT n FOR UPDATE SKIP LOCKED`. */
  function Chosen(t: Table, workspace: string, node: string, limit: nat, locked: set<nat>): (ids: seq<nat>)
    ensures forall k :: 0 <= k < |ids| ==> ids[k] < |t| && Ready(t[ids[k]], workspace, node) && ids[k] !in locked
  {
    var w := Waiting(t, |t|, workspace, node, locked);
    assert forall k :: 0 <= k < |w| ==> w[k] in w;
    Take(w, limit)
  }

  /** The commands a claim may take. */
  function Claimable(t: Table, workspace: string, node: string, locked: set<nat>): set<nat> {
    set i: nat | i < |t| && t[i].workspace == workspace && t[i].node == node && t[i].status == Queued && i !in locked
  }

  /** A claim takes min(limit, claimable) distinct commands of the node, oldest first, all of them
      queued and unlocked, and passes over one only for older ones that use up the limit. */
  lemma ClaimTakesOldest(t: Table, workspace: string, node: string, limit: nat, locked: set<nat>)
    ensures
      var claimable := Claimable(t, workspace, node, locked);
      var chosen := Chosen(t, workspace, node, limit, locked);
      && (forall i :: i in chosen ==> i in claimable)
      && (forall j, k :: 0 <= j < k < |chosen| ==> chosen[j] < chosen[k])
      && |chosen| == (if limit < |claimable| then limit else |claimable|)
      && (forall i, j :: i in chosen && j in claimable && j !in chosen ==> i < j)
  {
    var w := Waiting(t, |t|, workspace, node, locked);
    var claimable := Claimable(t, workspace, node, locked);
    var chosen := Take(w, limit);
    assert forall i: nat :: i in w <==> i in claimable;
    SortedSize(w, claimable);
    forall i, j | i in chosen && j in claimable && j !in chosen
      ensures i < j
    {
      var k :| 0 <= k < |w| && w[k] == j;
      assert k >= limit;
    }
  }

  lemma {:induction false} SortedSize(w: seq<nat>, s: set<nat>)
    requires forall j, k :: 0 <= j < k < |w| ==> w[j] < w[k]
    requires forall i: nat :: i in w <==> i in s
    ensures |w| == |s|
  {
    if w == [] {
      assert s == {};
    } else {
      var last := w[|w| - 1];
      var front := w[..|w| - 1];
      assert w == front + [last];
      SortedSize(front, s - {last});
    }
  }

  /** Row i after a statement at time `now`. */
  function RowAfter(t: Table, i: nat, s: Statement, now: int): Command
    requires i < |t|
  {
    var c := t[i];
    match s
    case Insert(_, _, _, _) => c
    case Update(k, scope) => if Covers(scope, i, c) then SweepRow(k, c, now) else c
    case Claim(w, n, limit, locked) => if i in Chosen(t, w, n, limit, locked) then ClaimRow(c, now) else c
    case Progress(w, n, id) => if Addressed(c, i, w, n, id) then ProgressRow(c, now) else c
    case Report(w, n, id, ok, body) => if Addressed(c, i, w, n, id) then ReportRow(c, ok, body, now) else c
  }

  function Apply(t: Table, s: Statement, now: int): (r: Table)
    ensures |r| == |t| + (if s.Insert? then 1 else 0)
    ensures forall i :: 0 <= i < |t| ==> r[i] == RowAfter(t, i, s, now)
    ensures s.Insert? ==> r == t + [NewCommand(s, now)]
  {
    var r := seq(|t|, i requires 0 <= i < |t| => RowAfter(t, i, s, now));
    if s.Insert? then
      assert r == t;
      r + [NewCommand(s, now)]
    else r
  }

  // ----- Refreshing a table -----

  function Refreshed(t: Table, scope: Scope, now: int): (r: Table)
    ensures |r| == |t|
    ensures forall i :: 0 <= i < |t| ==> r[i] == (if Covers(scope, i, t[i]) then RefreshRow(t[i], now) else t[i])
  {
    seq(|t|, i requires 0 <= i < |t| => if Covers(scope, i, t[i]) then RefreshRow(t[i], now) else t[i])
  }

  /** The three UPDATEs of refreshCommandState at one clock reading are one pass over the rows. */
  lemma RefreshIsOnePass(t: Table, scope: Scope, now: int)
    ensures
      Apply(Apply(Apply(t, Update(OverdueSweep, scope), now), Update(ExhaustedSweep, scope), now),
            Update(RequeueSweep, scope), now) == Refreshed(t, scope, now)
  {
    var t1 := Apply(t, Update(OverdueSweep, scope), now);
    var t2 := Apply(t1, Update(ExhaustedSweep, scope), now);
    var t3 := Apply(t2, Update(RequeueSweep, scope), now);
    forall i | 0 <= i < |t|
      ensures t3[i] == Refreshed(t, scope, now)[i]
    {
      SweepsInAnyOrder(t[i], now, OverdueSweep, ExhaustedSweep, RequeueSweep);
      assert t1[i] == RowAfter(t, i, Update(OverdueSweep, scope), now);
      assert t2[i] == RowAfter(t1, i, Update(ExhaustedSweep, scope), now);
    }
  }
}
