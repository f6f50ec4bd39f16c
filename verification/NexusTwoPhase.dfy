/** What a poller is told, and how often a command is handed out or passed over, when every claim
    selects first and updates later. */
module NexusTwoPhase {
  import opened NexusCommands
  import opened NexusRuns
  import opened NexusOvertaking
  import opened NexusPollers

  lemma {:induction false} PlayablePrefix(ms: seq<Move>, n: nat)
    requires Playable(ms) && n <= |ms|
    ensures Playable(ms[..n])
    decreases |ms|
  {
    if n == |ms| {
      assert ms[..n] == ms;
    } else {
      PlayablePrefix(ms[..|ms| - 1], n);
      assert ms[..|ms| - 1][..n] == ms[..n];
    }
  }

  lemma PlayOneMore(ms: seq<Move>, k: nat)
    requires Playable(ms) && k < |ms|
    ensures Playable(ms[..k]) && Playable(ms[..k + 1]) && Enabled(Play(ms[..k]), ms[k])
    ensures Play(ms[..k + 1]) == Next(Play(ms[..k]), ms[k])
    ensures Linear(ms[..k + 1]) == Linear(ms[..k]) + Taken(ms[k])
  {
    PlayablePrefix(ms, k + 1);
    PlayablePrefix(ms, k);
    assert ms[..k + 1][..k] == ms[..k];
  }

  // ----- What a poller is told -----

  /** The deliveries of a claim by poller q that took these commands from table t. */
  function Told(t: Table, ids: seq<nat>, q: nat): (log: seq<Delivery>)
    requires forall x :: 0 <= x < |ids| ==> ids[x] < |t|
    ensures |log| == |ids|
    ensures forall x :: 0 <= x < |log| ==> log[x] == Delivery(q, ids[x], t[ids[x]].attempts + 1)
  {
    seq(|ids|, x requires 0 <= x < |ids| => Delivery(q, ids[x], t[ids[x]].attempts + 1))
  }

  /** Poller q holds exactly these commands, with the attempts they had in table t. */
  ghost predicate Holding(p: Pool, q: nat, ids: seq<nat>, t: Table) {
    && (forall x, y :: 0 <= x < y < |ids| ==> ids[x] < ids[y])
    && (forall x :: 0 <= x < |ids| ==> ids[x] < |t| && ids[x] < |p.rows|)
    && (forall x :: 0 <= x < |ids| ==> p.rows[ids[x]].attempts == t[ids[x]].attempts)
    && (forall i: nat :: HeldBy(p, i, q) <==> i in ids)
  }

  lemma SelectLocks(p: Pool, m: Move, i: nat)
    requires Enabled(p, m) && m.Select?
    ensures Next(p, m).rows == p.rows
    ensures HeldBy(Next(p, m), i, m.poller) <==>
            i in Chosen(p.rows, m.workspace, m.node, m.limit, p.held.Keys)
  {
    hide Chosen, Ready;
    var ids := Chosen(p.rows, m.workspace, m.node, m.limit, p.held.Keys);
    assert i in ids ==> i !in p.held;
  }

  lemma SelectHolds(p: Pool, m: Move)
    requires Steady(p) && Enabled(p, m) && m.Select?
    ensures Holding(Next(p, m), m.poller, Chosen(View(p), m.workspace, m.node, m.limit, {}), View(p))
  {
    hide ClaimRow, Ready, Claimable, HeldBy, Next, Steady, Waiting;
    var ids := Chosen(p.rows, m.workspace, m.node, m.limit, p.held.Keys);
    assert Chosen(View(p), m.workspace, m.node, m.limit, {}) == ids by {
      WaitingThroughLocks(p, |p.rows|, m.workspace, m.node);
    }
    ClaimTakesOldest(p.rows, m.workspace, m.node, m.limit, p.held.Keys);
    hide Chosen;
    SelectLocks(p, m, 0);
    forall i: nat ensures HeldBy(Next(p, m), i, m.poller) <==> i in ids {
      SelectLocks(p, m, i);
    }
  }

  lemma NextHolds(p: Pool, m: Move, q: nat, ids: seq<nat>, t: Table)
    requires Steady(p) && Enabled(p, m) && Holding(p, q, ids, t)
    requires !((m.Select? || m.Commit?) && m.poller == q)
    ensures Holding(Next(p, m), q, ids, t)
  {
    forall x | 0 <= x < |ids| ensures HeldBy(p, ids[x], q) {
      assert ids[x] in ids;
    }
  }

  /** The first c commands are those among the first n rows. */
  predicate Among(ids: seq<nat>, n: nat, c: nat) {
    c <= |ids| && forall x :: 0 <= x < |ids| ==> (ids[x] < n <==> x < c)
  }

  lemma OneRowLess(p: Pool, n: nat, q: nat, ids: seq<nat>, t: Table, c: nat)
    requires Holding(p, q, ids, t) && 0 < n <= |p.rows| && Among(ids, n, c)
    ensures HeldBy(p, n - 1, q) ==> c > 0 && ids[c - 1] == n - 1 && Among(ids, n - 1, c - 1)
    ensures !HeldBy(p, n - 1, q) ==> Among(ids, n - 1, c)
  {
    if HeldBy(p, n - 1, q) {
      var x :| 0 <= x < |ids| && ids[x] == n - 1;
      assert x + 1 < |ids| ==> ids[x] < ids[x + 1];
    } else {
      assert forall x :: 0 <= x < |ids| ==> ids[x] in ids && ids[x] != n - 1;
    }
  }

  lemma ToldOneMore(t: Table, ids: seq<nat>, q: nat, c: nat)
    requires c < |ids| && forall x :: 0 <= x < |ids| ==> ids[x] < |t|
    ensures Told(t, ids[..c + 1], q) == Told(t, ids[..c], q) + [Delivery(q, ids[c], t[ids[c]].attempts + 1)]
  {
    assert ids[..c + 1] == ids[..c] + [ids[c]];
  }

  lemma HeldAttempts(p: Pool, q: nat, ids: seq<nat>, t: Table, x: nat)
    requires Holding(p, q, ids, t) && x < |ids|
    ensures ids[x] < |t| && ids[x] < |p.rows| && p.rows[ids[x]].attempts == t[ids[x]].attempts
  {
  }

  /** q's deliveries from the first n rows are those of the commands among them. */
  lemma {:induction false} DeliversHeld(p: Pool, n: nat, q: nat, ids: seq<nat>, t: Table, c: nat)
    requires Holding(p, q, ids, t) && n <= |p.rows| && Among(ids, n, c)
    requires forall x :: 0 <= x < |ids| ==> ids[x] < |t|
    ensures Deliveries(p, n, q) == Told(t, ids[..c], q)
  {
    if n == 0 {
      assert |ids| > 0 ==> ids[0] >= 0;
    } else {
      hide Holding, Among, HeldBy, Told;
      OneRowLess(p, n, q, ids, t, c);
      if HeldBy(p, n - 1, q) {
        DeliversHeld(p, n - 1, q, ids, t, c - 1);
        ToldOneMore(t, ids, q, c - 1);
        HeldAttempts(p, q, ids, t, c - 1);
      } else {
        DeliversHeld(p, n - 1, q, ids, t, c);
      }
    }
  }

  /** Between steps j and k poller q neither selects nor commits. */
  predicate Idle(ms: seq<Move>, j: nat, k: nat, q: nat) {
    forall x :: j < x < k <= |ms| ==> !((ms[x].Select? || ms[x].Commit?) && ms[x].poller == q)
  }

  lemma {:induction false} HoldsOn(ms: seq<Move>, j: nat, k: nat)
    requires Playable(ms) && j < k <= |ms| && ms[j].Select? && Idle(ms, j, k, ms[j].poller)
    ensures Playable(ms[..j]) && Playable(ms[..k])
    ensures
      var t := Exec(Linear(ms[..j]));
      Holding(Play(ms[..k]), ms[j].poller, Chosen(t, ms[j].workspace, ms[j].node, ms[j].limit, {}), t)
    decreases k
  {
    hide Holding, Steady, View, Next, Enabled, Chosen, Exec, Linear;
    PlayOneMore(ms, j);
    PlayOneMore(ms, k - 1);
    ClaimsLinearize(ms[..j]);
    if k == j + 1 {
      SelectHolds(Play(ms[..j]), ms[j]);
    } else {
      HoldsOn(ms, j, k - 1);
      ClaimsLinearize(ms[..k - 1]);
      var t := Exec(Linear(ms[..j]));
      NextHolds(Play(ms[..k - 1]), ms[k - 1], ms[j].poller,
                Chosen(t, ms[j].workspace, ms[j].node, ms[j].limit, {}), t);
    }
  }

  lemma CommitLogs(p: Pool, q: nat, ids: seq<nat>, t: Table)
    requires Holding(p, q, ids, t) && forall x :: 0 <= x < |ids| ==> ids[x] < |t|
    ensures Next(p, Commit(q)).log == p.log + Told(t, ids, q)
  {
    hide Told, Deliveries, HeldBy;
    DeliversHeld(p, |p.rows|, q, ids, t, |ids|);
    assert ids[..|ids|] == ids;
  }

  /** When a claim commits, its poller is told exactly the commands that the claim in one piece took
      when it selected, oldest first, each with its next attempt number. */
  lemma {:induction false} CommitTellsSelection(ms: seq<Move>, j: nat, k: nat)
    requires Playable(ms) && j < k < |ms| && ms[j].Select? && Idle(ms, j, k, ms[j].poller)
    requires ms[k] == Commit(ms[j].poller)
    ensures Playable(ms[..j]) && Playable(ms[..k]) && Playable(ms[..k + 1])
    ensures
      var t := Exec(Linear(ms[..j]));
      Play(ms[..k + 1]).log ==
        Play(ms[..k]).log + Told(t, Chosen(t, ms[j].workspace, ms[j].node, ms[j].limit, {}), ms[j].poller)
  {
    hide *;
    var t, q := Exec(Linear(ms[..j])), ms[j].poller;
    var ids := Chosen(t, ms[j].workspace, ms[j].node, ms[j].limit, {});
    PlayOneMore(ms, k);
    HoldsOn(ms, j, k);
    CommitLogs(Play(ms[..k]), q, ids, t);
  }

  // ----- The clock -----

  /** The clock never runs backwards, claims being timed at their selection. */
  ghost predicate Timed(ms: seq<Move>) {
    Playable(ms) && Valid(Linear(ms))
  }

  lemma {:induction false} OneToLength(n: nat)
    ensures |OneTo(n)| == n
  {
    if n > 0 {
      OneToLength(n - 1);
    }
  }

  /** However many pollers claim at once, a command is handed out at most max_attempts times. */
  lemma {:induction false} DeliveredWithinBudget(ms: seq<Move>, i: nat)
    requires Timed(ms) && i < |Play(ms).rows|
    ensures |AttemptsTold(Play(ms).log, i)| <= Play(ms).rows[i].maxAttempts
  {
    var p := Play(ms);
    OneDeliveryPerAttempt(ms, i);
    ClaimsLinearize(ms);
    BudgetKept(Linear(ms));
    assert p.rows[i].attempts <= View(p)[i].attempts <= View(p)[i].maxAttempts == p.rows[i].maxAttempts;
    OneToLength(p.rows[i].attempts);
  }

  // ----- Overtaking -----

  /** A selection on the node of queued, unlocked command i that takes others instead. */
  ghost predicate SelectsPast(p: Pool, i: nat, m: Move)
    requires i < |p.rows|
  {
    && m.Select? && Ready(p.rows[i], m.workspace, m.node) && i !in p.held
    && i !in Chosen(p.rows, m.workspace, m.node, m.limit, p.held.Keys)
  }

  /** How many selections passed i over, from move n on. */
  ghost function PollsPast(ms: seq<Move>, n: nat, i: nat): nat
    requires Playable(ms) && n <= |ms|
    decreases |ms|
  {
    if n == |ms| then 0
    else
      var front, last := ms[..|ms| - 1], ms[|ms| - 1];
      PollsPast(front, n, i) + (if i < |Play(front).rows| && SelectsPast(Play(front), i, last) then 1 else 0)
  }

  /** A selection passes a command over exactly when the claim in one piece does. */
  lemma PastIsPast(p: Pool, i: nat, m: Move)
    requires Steady(p) && Enabled(p, m) && i < |p.rows|
    ensures SelectsPast(p, i, m) <==> Taken(m) != [] && PassesOver(View(p), i, Taken(m)[0].stmt)
  {
    if m.Select? {
      WaitingThroughLocks(p, |p.rows|, m.workspace, m.node);
      assert Chosen(View(p), m.workspace, m.node, m.limit, {}) ==
             Chosen(p.rows, m.workspace, m.node, m.limit, p.held.Keys);
    }
  }

  lemma PassesMore(tr: Trace, n: nat, i: nat, more: Trace)
    requires n <= |tr| && i < |Exec(tr[..n])| && |more| <= 1
    ensures (tr + more)[..n] == tr[..n]
    ensures Passes(tr + more, n, i) == Passes(tr, n, i) +
            (if more != [] && i < |Exec(tr)| && PassesOver(Exec(tr), i, more[0].stmt) then 1 else 0)
  {
    if more == [] {
      assert tr + more == tr;
    } else {
      assert (tr + more)[..|tr|] == tr;
    }
  }

  /** The selections that passed i over from move n on are the claims that did. */
  ghost predicate SamePasses(ms: seq<Move>, n: nat, i: nat)
    requires Playable(ms) && n <= |ms|
  {
    var tr, upto := Linear(ms), Linear(ms[..n]);
    && |upto| <= |tr| && tr[..|upto|] == upto && i < |Exec(upto)|
    && PollsPast(ms, n, i) == Passes(tr, |upto|, i)
  }

  lemma PollsPastMore(front: seq<Move>, last: Move, n: nat, i: nat)
    requires Playable(front + [last]) && Playable(front) && n <= |front|
    ensures Linear(front + [last]) == Linear(front) + Taken(last)
    ensures Enabled(Play(front), last)
    ensures PollsPast(front + [last], n, i) == PollsPast(front, n, i) +
            (if i < |Play(front).rows| && SelectsPast(Play(front), i, last) then 1 else 0)
  {
    hide SelectsPast, Taken, Enabled, Next;
    assert (front + [last])[..|front|] == front;
  }

  lemma SamePassesNext(front: seq<Move>, last: Move, n: nat, i: nat)
    requires Playable(front + [last]) && Playable(front) && n <= |front| && SamePasses(front, n, i)
    ensures SamePasses(front + [last], n, i)
  {
    hide Exec, PassesOver, SelectsPast, Taken, Enabled, Passes, Play, Playable, PollsPast, Linear, Steady;
    var ms := front + [last];
    assert ms[..n] == front[..n];
    PollsPastMore(front, last, n, i);
    ClaimsLinearize(front);
    PassesMore(Linear(front), |Linear(ms[..n])|, i, Taken(last));
    if i < |Play(front).rows| {
      PastIsPast(Play(front), i, last);
    }
  }

  lemma NonePast(ms: seq<Move>, i: nat)
    requires Playable(ms) && i < |Exec(Linear(ms))|
    ensures SamePasses(ms, |ms|, i)
  {
    hide Exec, Linear, Playable;
    assert ms[..|ms|] == ms;
  }

  lemma {:induction false} PollsPastArePasses(ms: seq<Move>, n: nat, i: nat)
    requires Playable(ms) && n <= |ms| && i < |Exec(Linear(ms[..n]))|
    ensures SamePasses(ms, n, i)
    decreases |ms|
  {
    hide *;
    if n == |ms| {
      assert ms[..n] == ms;
      NonePast(ms, i);
    } else {
      var front, last := ms[..|ms| - 1], ms[|ms| - 1];
      assert front[..n] == ms[..n] && front + [last] == ms;
      PlayablePrefix(ms, |ms| - 1);
      assert ms[..|ms| - 1] == front;
      PollsPastArePasses(front, n, i);
      SamePassesNext(front, last, n, i);
    }
  }

  /** Bounded overtaking for claims in two phases: from any move on, no more selections pass a
      waiting, unlocked command over than its older siblings have attempts left at that moment. */
  lemma {:induction false} BoundedOvertakingInPhases(ms: seq<Move>, n: nat, i: nat)
    requires Timed(ms) && n <= |ms| && i < |Exec(Linear(ms[..n]))|
    requires forall s :: s in Linear(ms) && s.stmt.Claim? ==> s.stmt.limit >= 1
    ensures
      var t := Exec(Linear(ms[..n]));
      PollsPast(ms, n, i) <= Owed(t, i, t[i].workspace, t[i].node)
  {
    PollsPastArePasses(ms, n, i);
    BoundedPolls(Linear(ms), |Linear(ms[..n])|, i);
  }
}
