/** Any number of pollers claiming at once. A claim first selects and locks rows, skipping those
    another poller holds, and only later updates them and answers. */
module NexusPollers {
  import opened Wrappers
  import opened NexusCommands
  import opened NexusRuns

  /** Which poller holds a row's lock, and the clock reading of its claim. */
  datatype Hold = Hold(poller: nat, at: int)

  /** A command handed to a poller, with the attempt_count it was told. */
  datatype Delivery = Delivery(poller: nat, id: nat, attempt: int)

  datatype Pool = Pool(rows: Table, held: map<nat, Hold>, log: seq<Delivery>)

  datatype Move =
    | Select(poller: nat, workspace: string, node: string, limit: nat, at: int)
    | Commit(poller: nat)
    | Write(stmt: Statement, id: nat, at: int)
    | Add(stmt: Statement, at: int)

  /** A statement on one row. An UPDATE of several is one such write for each. */
  predicate WritesOnly(s: Statement, id: nat) {
    match s
    case Update(_, scope) => scope.command == Some(id)
    case Progress(_, _, row) => row == id
    case Report(_, _, row, _, _) => row == id
    case _ => false
  }

  /** A poller runs one claim at a time, and any other writer needs the lock of the row it writes. */
  ghost predicate Enabled(p: Pool, m: Move) {
    match m
    case Select(q, _, _, _, _) => forall i :: i in p.held ==> p.held[i].poller != q
    case Commit(_) => true
    case Write(s, id, _) => id < |p.rows| && id !in p.held && WritesOnly(s, id)
    case Add(s, _) => s.Insert?
  }

  predicate HeldBy(p: Pool, i: nat, q: nat) {
    i in p.held && p.held[i].poller == q
  }

  /** The rows poller q gets back from its UPDATE ... RETURNING. */
  function Deliveries(p: Pool, n: nat, q: nat): seq<Delivery>
    requires n <= |p.rows|
  {
    if n == 0 then []
    else
      var d := Deliveries(p, n - 1, q);
      if HeldBy(p, n - 1, q) then d + [Delivery(q, n - 1, p.rows[n - 1].attempts + 1)] else d
  }

  function Next(p: Pool, m: Move): Pool
    requires Enabled(p, m)
  {
    match m
    case Select(q, w, n, limit, at) =>
      var chosen := Chosen(p.rows, w, n, limit, p.held.Keys);
      p.(held := p.held + map i | i in chosen :: Hold(q, at))
    case Commit(q) =>
      Pool(seq(|p.rows|, i requires 0 <= i < |p.rows| =>
             if HeldBy(p, i, q) then ClaimRow(p.rows[i], p.held[i].at) else p.rows[i]),
           map i | i in p.held && p.held[i].poller != q :: p.held[i],
           p.log + Deliveries(p, |p.rows|, q))
    case Write(s, id, at) => p.(rows := p.rows[id := RowAfter(p.rows, id, s, at)])
    case Add(s, at) => p.(rows := Apply(p.rows, s, at))
  }

  ghost predicate Playable(ms: seq<Move>)
    decreases |ms|, 0
  {
    ms == [] || (Playable(ms[..|ms| - 1]) && Enabled(Play(ms[..|ms| - 1]), ms[|ms| - 1]))
  }

  ghost function Play(ms: seq<Move>): Pool
    requires Playable(ms)
    decreases |ms|, 1
  {
    if ms == [] then Pool([], map[], []) else Next(Play(ms[..|ms| - 1]), ms[|ms| - 1])
  }

  // ----- Linearization -----

  /** The table as if every claim had updated its rows the moment it selected them. */
  function View(p: Pool): (t: Table)
    ensures |t| == |p.rows|
    ensures forall i :: 0 <= i < |t| ==>
              t[i] == (if i in p.held then ClaimRow(p.rows[i], p.held[i].at) else p.rows[i])
  {
    seq(|p.rows|, i requires 0 <= i < |p.rows| =>
      if i in p.held then ClaimRow(p.rows[i], p.held[i].at) else p.rows[i])
  }

  /** The statement a move amounts to, each claim in one piece and skipping nothing. */
  function Taken(m: Move): (steps: Trace)
    ensures |steps| == if m.Commit? then 0 else 1
  {
    match m
    case Select(_, w, n, limit, at) => [Step(Claim(w, n, limit, {}), at)]
    case Commit(_) => []
    case Write(s, _, at) => [Step(s, at)]
    case Add(s, at) => [Step(s, at)]
  }

  /** The moves as a run of statements, each claim at its selection. */
  function Linear(ms: seq<Move>): Trace {
    if ms == [] then [] else Linear(ms[..|ms| - 1]) + Taken(ms[|ms| - 1])
  }

  function Atomic(t: Table, m: Move): Table {
    if m.Commit? then t else Apply(t, Taken(m)[0].stmt, m.at)
  }

  lemma ExecTaken(tr: Trace, m: Move)
    ensures Exec(tr + Taken(m)) == Atomic(Exec(tr), m)
  {
    if m.Commit? {
      assert tr + Taken(m) == tr;
    } else {
      ExecOneMore(tr, Taken(m)[0]);
      assert tr + Taken(m) == tr + [Taken(m)[0]];
    }
  }

  /** A locked row stays queued until its claim commits. */
  ghost predicate Steady(p: Pool) {
    forall i :: i in p.held ==> i < |p.rows| && p.rows[i].status == Queued
  }

  lemma NextSteady(p: Pool, m: Move)
    requires Steady(p) && Enabled(p, m)
    ensures Steady(Next(p, m))
  {
    if m.Select? {
      var chosen := Chosen(p.rows, m.workspace, m.node, m.limit, p.held.Keys);
      forall i | i in Next(p, m).held ensures i < |p.rows| && p.rows[i].status == Queued {
        if i in chosen {
          assert exists k :: 0 <= k < |chosen| && chosen[k] == i;
        }
      }
    }
  }

  lemma ReadyThroughLocks(p: Pool, i: nat, workspace: string, node: string)
    requires Steady(p) && i < |p.rows|
    ensures Ready(View(p)[i], workspace, node) <==> Ready(p.rows[i], workspace, node) && i !in p.held
  {
  }

  lemma {:induction false} WaitingThroughLocks(p: Pool, n: nat, workspace: string, node: string)
    requires Steady(p) && n <= |p.rows|
    ensures Waiting(View(p), n, workspace, node, {}) == Waiting(p.rows, n, workspace, node, p.held.Keys)
  {
    hide View, Ready, Steady;
    if n > 0 {
      ReadyThroughLocks(p, n - 1, workspace, node);
      WaitingThroughLocks(p, n - 1, workspace, node);
    }
  }

  lemma SelectIsAtomicClaim(p: Pool, m: Move)
    requires Steady(p) && Enabled(p, m) && m.Select?
    ensures View(Next(p, m)) == Atomic(View(p), m)
  {
    hide View, Ready, Steady, Next, ClaimRow;
    var chosen := Chosen(p.rows, m.workspace, m.node, m.limit, p.held.Keys);
    var claim := Claim(m.workspace, m.node, m.limit, {});
    assert Chosen(View(p), m.workspace, m.node, m.limit, {}) == chosen by {
      WaitingThroughLocks(p, |p.rows|, m.workspace, m.node);
    }
    hide Chosen;
    SelectKeepsRows(p, m);
    forall i: nat | i < |p.rows|
      ensures View(Next(p, m))[i] == RowAfter(View(p), i, claim, m.at)
    {
      SelectRow(p, m, chosen, i);
    }
  }

  lemma SelectKeepsRows(p: Pool, m: Move)
    requires Enabled(p, m) && m.Select?
    ensures Next(p, m).rows == p.rows
  {
  }

  lemma SelectRow(p: Pool, m: Move, chosen: seq<nat>, i: nat)
    requires Steady(p) && Enabled(p, m) && m.Select? && i < |p.rows|
    requires chosen == Chosen(p.rows, m.workspace, m.node, m.limit, p.held.Keys)
    ensures View(Next(p, m))[i] == if i in chosen then ClaimRow(View(p)[i], m.at) else View(p)[i]
  {
    if i in chosen {
      var k :| 0 <= k < |chosen| && chosen[k] == i;
      assert i !in p.held;
      assert Next(p, m).held[i] == Hold(m.poller, m.at);
    } else {
      assert i in Next(p, m).held <==> i in p.held;
    }
  }

  lemma NextIsAtomic(p: Pool, m: Move)
    requires Steady(p) && Enabled(p, m)
    ensures View(Next(p, m)) == Atomic(View(p), m)
  {
    hide View, Next, Apply, Steady;
    match m
    case Select(_, _, _, _, _) => SelectIsAtomicClaim(p, m);
    case Commit(q) => CommitIsNothing(p, q);
    case Write(s, id, at) => WriteIsApply(p, s, id, at);
    case Add(s, at) => AddIsApply(p, s, at);
  }

  lemma CommitIsNothing(p: Pool, q: nat)
    requires Steady(p)
    ensures View(Next(p, Commit(q))) == View(p)
  {
    hide ClaimRow;
    var after := Next(p, Commit(q));
    forall i: nat | i < |p.rows| ensures View(after)[i] == View(p)[i] {
      assert i in after.held <==> i in p.held && !HeldBy(p, i, q);
    }
  }

  lemma AddIsApply(p: Pool, s: Statement, at: int)
    requires Steady(p) && s.Insert?
    ensures View(Next(p, Add(s, at))) == Apply(View(p), s, at)
  {
    hide ClaimRow, NewCommand;
    assert |p.rows| !in p.held;
  }

  lemma WriteIsApply(p: Pool, s: Statement, id: nat, at: int)
    requires id < |p.rows| && id !in p.held && WritesOnly(s, id)
    ensures View(Next(p, Write(s, id, at))) == Apply(View(p), s, at)
  {
    forall i: nat | i < |p.rows|
      ensures View(Next(p, Write(s, id, at)))[i] == RowAfter(View(p), i, s, at)
    {
    }
  }

  /** Claims that skip locked rows are linearizable: whatever the interleaving of selections and
      updates, the table is that of a run of statements in which each claim at once takes the oldest
      queued commands, skipping nothing, at the moment it selected. */
  lemma {:induction false} ClaimsLinearize(ms: seq<Move>)
    requires Playable(ms)
    ensures Steady(Play(ms)) && View(Play(ms)) == Exec(Linear(ms))
    decreases |ms|
  {
    if ms != [] {
      hide Steady, View, Next, Enabled, Atomic, Taken, Exec;
      var front, last := ms[..|ms| - 1], ms[|ms| - 1];
      ClaimsLinearize(front);
      NextSteady(Play(front), last);
      NextIsAtomic(Play(front), last);
      ExecTaken(Linear(front), last);
    } else {
      assert Exec(Linear(ms)) == [];
    }
  }

  // ----- Deliveries -----

  /** The attempt numbers handed out with command i, in the order they were. */
  function AttemptsTold(log: seq<Delivery>, i: nat): seq<int> {
    if log == [] then []
    else
      var told, last := AttemptsTold(log[..|log| - 1], i), log[|log| - 1];
      if last.id == i then told + [last.attempt] else told
  }

  function OneTo(n: int): (s: seq<int>)
  {
    if n <= 0 then [] else OneTo(n - 1) + [n]
  }

  lemma {:induction false} ToldAppend(a: seq<Delivery>, b: seq<Delivery>, i: nat)
    ensures AttemptsTold(a + b, i) == AttemptsTold(a, i) + AttemptsTold(b, i)
    decreases |b|
  {
    if b == [] {
      assert a + b == a;
    } else {
      ToldAppend(a, b[..|b| - 1], i);
      assert (a + b)[..|a + b| - 1] == a + b[..|b| - 1];
    }
  }

  lemma {:induction false} ToldByCommit(p: Pool, n: nat, q: nat, i: nat)
    requires n <= |p.rows|
    ensures AttemptsTold(Deliveries(p, n, q), i) ==
            if i < n && HeldBy(p, i, q) then [p.rows[i].attempts + 1] else []
  {
    if n > 0 {
      hide AttemptsTold, HeldBy;
      ToldByCommit(p, n - 1, q, i);
      if HeldBy(p, n - 1, q) {
        ToldOneMore(Deliveries(p, n - 1, q), Delivery(q, n - 1, p.rows[n - 1].attempts + 1), i);
        assert i == n - 1 ==> AttemptsTold(Deliveries(p, n - 1, q), i) == [];
      }
    }
  }

  lemma ToldOneMore(log: seq<Delivery>, d: Delivery, i: nat)
    ensures AttemptsTold(log + [d], i) == AttemptsTold(log, i) + (if d.id == i then [d.attempt] else [])
  {
    assert (log + [d])[..|log|] == log;
  }

  lemma OnlyClaimsCount(t: Table, i: nat, s: Statement, now: int)
    requires i < |t| && !s.Claim?
    ensures RowAfter(t, i, s, now).attempts == t[i].attempts
  {
  }

  ghost predicate ToldExactly(p: Pool, i: nat) {
    if i < |p.rows| then p.rows[i].attempts >= 0 && AttemptsTold(p.log, i) == OneTo(p.rows[i].attempts)
    else AttemptsTold(p.log, i) == []
  }

  lemma NextTells(p: Pool, m: Move, i: nat)
    requires Steady(p) && Enabled(p, m) && ToldExactly(p, i)
    ensures ToldExactly(Next(p, m), i)
  {
    match m
    case Select(_, _, _, _, _) =>
    case Commit(q) =>
      var told := Deliveries(p, |p.rows|, q);
      ToldAppend(p.log, told, i);
      ToldByCommit(p, |p.rows|, q, i);
      assert AttemptsTold(p.log, i) + [] == AttemptsTold(p.log, i);
    case Write(s, id, at) =>
      OnlyClaimsCount(p.rows, id, s, at);
    case Add(s, at) =>
  }

  /** No command goes to two pollers for one attempt: over any run the attempt numbers handed out
      with a command are, in order, 1, 2, ... up to its attempt_count, each of them once. */
  lemma {:induction false} OneDeliveryPerAttempt(ms: seq<Move>, i: nat)
    requires Playable(ms)
    ensures
      var p := Play(ms);
      AttemptsTold(p.log, i) == if i < |p.rows| then OneTo(p.rows[i].attempts) else []
    ensures ToldExactly(Play(ms), i)
    decreases |ms|
  {
    if ms != [] {
      var front := ms[..|ms| - 1];
      OneDeliveryPerAttempt(front, i);
      ClaimsLinearize(front);
      NextTells(Play(front), ms[|ms| - 1], i);
    }
  }
}
