/** How often newer polls can pass a waiting command over. */
module NexusOvertaking {
  import opened NexusCommands
  import opened NexusRuns

  /** The attempts an open command of the node still has. */
  function Left(c: Command, workspace: string, node: string): int {
    if c.workspace == workspace && c.node == node && Open(c) then c.maxAttempts - c.attempts else 0
  }

  /** The attempts that the node's open commands older than n still have. */
  function Owed(t: Table, n: nat, workspace: string, node: string): int
    requires n <= |t|
  {
    if n == 0 then 0 else Owed(t, n - 1, workspace, node) + Left(t[n - 1], workspace, node)
  }

  /** What a statement takes from the commands older than n. */
  function Drawn(t: Table, n: nat, workspace: string, node: string, s: Statement): nat
    requires n <= |t|
  {
    if s.Claim? && s.workspace == workspace && s.node == node
    then |Take(Waiting(t, n, workspace, node, s.locked), s.limit)| else 0
  }

  ghost predicate WithinBudget(t: Table) {
    forall i :: 0 <= i < |t| ==> t[i].attempts <= t[i].maxAttempts
  }

  /** The waiting commands among the first n are the first of all that wait. */
  lemma {:induction false} WaitingIsPrefix(t: Table, n: nat, m: nat, workspace: string, node: string,
                                           locked: set<nat>)
    requires n <= m <= |t|
    ensures Waiting(t, n, workspace, node, locked) <= Waiting(t, m, workspace, node, locked)
    decreases m - n
  {
    if n < m {
      WaitingIsPrefix(t, n, m - 1, workspace, node, locked);
    }
  }

  /** A command waiting n-th in line is chosen exactly when the limit reaches it. */
  lemma ChosenIffReached(t: Table, i: nat, workspace: string, node: string, limit: nat, locked: set<nat>)
    requires i < |t| && Ready(t[i], workspace, node) && i !in locked
    ensures i in Chosen(t, workspace, node, limit, locked) <==> |Waiting(t, i, workspace, node, locked)| < limit
  {
    var all := Waiting(t, |t|, workspace, node, locked);
    var before := Waiting(t, i, workspace, node, locked);
    assert Waiting(t, i + 1, workspace, node, locked) == before + [i];
    WaitingIsPrefix(t, i + 1, |t|, workspace, node, locked);
    assert all[|before|] == i;
    if i in Chosen(t, workspace, node, limit, locked) {
      var chosen := Chosen(t, workspace, node, limit, locked);
      var k :| 0 <= k < |chosen| && chosen[k] == i;
      assert all[k] == i;
    }
  }

  /** A claim on the given node that takes command i. */
  predicate DrawnFrom(t: Table, i: nat, workspace: string, node: string, s: Statement) {
    s.Claim? && s.workspace == workspace && s.node == node && i in Chosen(t, workspace, node, s.limit, s.locked)
  }

  lemma DrawnOneMore(t: Table, i: nat, workspace: string, node: string, s: Statement)
    requires i < |t|
    ensures Drawn(t, i + 1, workspace, node, s) ==
            Drawn(t, i, workspace, node, s) + (if DrawnFrom(t, i, workspace, node, s) then 1 else 0)
  {
    if s.Claim? && s.workspace == workspace && s.node == node {
      if Ready(t[i], workspace, node) && i !in s.locked {
        ChosenIffReached(t, i, workspace, node, s.limit, s.locked);
      } else {
        ClaimTakesOldest(t, workspace, node, s.limit, s.locked);
      }
    }
  }

  lemma RowPays(t: Table, i: nat, workspace: string, node: string, s: Statement, now: int)
    requires i < |t| && t[i].attempts <= t[i].maxAttempts
    ensures Left(RowAfter(t, i, s, now), workspace, node) + (if DrawnFrom(t, i, workspace, node, s) then 1 else 0)
            <= Left(t[i], workspace, node)
  {
    if s.Claim? && i in Chosen(t, s.workspace, s.node, s.limit, s.locked) {
      assert Ready(t[i], s.workspace, s.node);
    }
  }

  lemma NothingDrawn(t: Table, workspace: string, node: string, s: Statement)
    ensures Drawn(t, 0, workspace, node, s) == 0
  {
  }

  /** Every statement lowers what is owed to the older commands by at least what it takes from them. */
  lemma {:induction false} OwedPays(t: Table, n: nat, workspace: string, node: string, s: Statement, now: int)
    requires n <= |t| && WithinBudget(t)
    ensures Owed(Apply(t, s, now), n, workspace, node) + Drawn(t, n, workspace, node, s)
            <= Owed(t, n, workspace, node)
  {
    hide Apply, RowAfter, Drawn, Left, DrawnFrom;
    if n == 0 {
      NothingDrawn(t, workspace, node, s);
    } else {
      assert Apply(t, s, now)[n - 1] == RowAfter(t, n - 1, s, now);
      assert t[n - 1].attempts <= t[n - 1].maxAttempts;
      hide WithinBudget;
      OwedPays(t, n - 1, workspace, node, s, now);
      RowPays(t, n - 1, workspace, node, s, now);
      DrawnOneMore(t, n - 1, workspace, node, s);
    }
  }

  /** A claim on the node of queued command i that i is free for, and that takes others instead. */
  predicate PassesOver(t: Table, i: nat, s: Statement)
    requires i < |t|
  {
    && s.Claim? && Ready(t[i], s.workspace, s.node) && i !in s.locked
    && i !in Chosen(t, s.workspace, s.node, s.limit, s.locked)
  }

  /** The commands taken by the claims that passed i over, from step n of the run on. */
  function PassedOver(tr: Trace, n: nat, i: nat): nat
    requires n <= |tr| && i < |Exec(tr[..n])|
    decreases |tr|
  {
    if n == |tr| then 0
    else
      var front, last := tr[..|tr| - 1], tr[|tr| - 1];
      assert front[..n] == tr[..n];
      PassedOver(front, n, i) +
      (if i < |Exec(front)| && PassesOver(Exec(front), i, last.stmt) then last.stmt.limit else 0)
  }

  lemma BudgetKept(tr: Trace)
    requires Valid(tr)
    ensures WithinBudget(Exec(tr))
  {
    forall i | 0 <= i < |Exec(tr)| ensures Exec(tr)[i].attempts <= Exec(tr)[i].maxAttempts {
      ReachableSound(tr, i);
    }
  }

  lemma {:induction false} PassingIsPaid(tr: Trace, n: nat, i: nat)
    requires Valid(tr) && n <= |tr| && i < |Exec(tr[..n])|
    ensures i < |Exec(tr)| && Exec(tr)[i].workspace == Exec(tr[..n])[i].workspace
    ensures Exec(tr)[i].node == Exec(tr[..n])[i].node
    ensures
      var c := Exec(tr[..n])[i];
      PassedOver(tr, n, i) + Owed(Exec(tr), i, c.workspace, c.node) <= Owed(Exec(tr[..n]), i, c.workspace, c.node)
    decreases |tr|
  {
    if n == |tr| {
      assert tr[..n] == tr;
    } else {
      var front, last := tr[..|tr| - 1], tr[|tr| - 1];
      var t := Exec(front);
      assert front[..n] == tr[..n];
      PassingIsPaid(front, n, i);
      BudgetKept(front);
      StepKeepsFixed(t, i, last.stmt, last.at);
      OwedPays(t, i, t[i].workspace, t[i].node, last.stmt, last.at);
      if PassesOver(t, i, last.stmt) {
        var s := last.stmt;
        ChosenIffReached(t, i, s.workspace, s.node, s.limit, s.locked);
      }
    }
  }

  /** Bounded overtaking: from any moment on, all the polls that pass a waiting command over take
      together no more commands than its older siblings have attempts left at that moment; however
      long the run, whatever is enqueued, requeued or reported meanwhile. */
  lemma {:induction false} BoundedOvertaking(tr: Trace, n: nat, i: nat)
    requires Valid(tr) && n <= |tr| && i < |Exec(tr[..n])|
    ensures
      var c := Exec(tr[..n])[i];
      PassedOver(tr, n, i) <= Owed(Exec(tr[..n]), i, c.workspace, c.node)
  {
    var c := Exec(tr[..n])[i];
    PassingIsPaid(tr, n, i);
    BudgetKept(tr);
    OwedNotNegative(Exec(tr), i, c.workspace, c.node);
  }

  /** How many claims passed i over, from step n of the run on. */
  function Passes(tr: Trace, n: nat, i: nat): nat
    requires n <= |tr| && i < |Exec(tr[..n])|
    decreases |tr|
  {
    if n == |tr| then 0
    else
      var front, last := tr[..|tr| - 1], tr[|tr| - 1];
      assert front[..n] == tr[..n];
      Passes(front, n, i) +
      (if i < |Exec(front)| && PassesOver(Exec(front), i, last.stmt) then 1 else 0)
  }

  /** A poll asks for at least one command, so no more polls than that can pass the command over:
      the next one it is free for must take it. */
  lemma {:induction false} BoundedPolls(tr: Trace, n: nat, i: nat)
    requires Valid(tr) && n <= |tr| && i < |Exec(tr[..n])|
    requires forall s :: s in tr && s.stmt.Claim? ==> s.stmt.limit >= 1
    ensures
      var c := Exec(tr[..n])[i];
      Passes(tr, n, i) <= PassedOver(tr, n, i) <= Owed(Exec(tr[..n]), i, c.workspace, c.node)
    decreases |tr|
  {
    BoundedOvertaking(tr, n, i);
    if n < |tr| {
      var front := tr[..|tr| - 1];
      assert front[..n] == tr[..n];
      BoundedPolls(front, n, i);
    }
  }

  lemma {:induction false} OwedNotNegative(t: Table, n: nat, workspace: string, node: string)
    requires n <= |t| && WithinBudget(t)
    ensures Owed(t, n, workspace, node) >= 0
  {
    if n > 0 {
      OwedNotNegative(t, n - 1, workspace, node);
    }
  }
}
