/** Work done in time counts: nothing others do takes a claimed command away before its lease ends. */
module NexusInTime {
  import opened Wrappers
  import opened NexusCommands
  import opened NexusRuns
  import opened NexusRequests

  /** Command i runs under a lease that holds until then. */
  predicate HeldUntil(t: Table, i: nat, until: int) {
    i < |t| && t[i].status == InProgress && t[i].lease.Some? && until <= t[i].lease.value
  }

  /** Any call but a result for it, while lease and deadline are ahead, leaves it so. */
  lemma {:induction false} CallKeepsHeld(t: Table, i: nat, c: Call, until: int)
    requires HeldUntil(t, i, until) && c.at < until <= c.at + t[i].leaseMs
    requires t[i].expires.Some? && c.at < t[i].expires.value
    requires !(c.request.SendResult? && c.request.id == i)
    ensures HeldUntil(After(t, c.request, c.at), i, until)
    ensures Evolves(t[i], After(t, c.request, c.at)[i])
  {
    RefreshMeans(t[i], c.at);
    RefreshReaches(t, c.request, c.at, i);
    var b, action := Readied(t, c.request, c.at), Action(c.request, c.at);
    assert b[i] == t[i];
    if action.Some? {
      StepKeepsFixed(b, i, action.value, c.at);
      var s := action.value;
      assert s.Claim? ==> !Ready(b[i], s.workspace, s.node);
    }
  }

  /** Calls that come after `from` and no later than `now`, none of them a result for command i. */
  ghost predicate Others(more: Run, i: nat, from: int, now: int) {
    forall k :: 0 <= k < |more| ==>
      && from <= more[k].at <= now && !(more[k].request.SendResult? && more[k].request.id == i)
  }

  lemma {:induction false} StaysHeld(t: Table, more: Run, i: nat, from: int, now: int, until: int)
    requires HeldUntil(t, i, until) && Others(more, i, from, now)
    requires now < until <= from + t[i].leaseMs && t[i].expires.Some? && now < t[i].expires.value
    ensures HeldUntil(ServeOn(t, more), i, until) && Evolves(t[i], ServeOn(t, more)[i])
    decreases |more|
  {
    if more != [] {
      hide After, HeldUntil;
      var front, last := more[..|more| - 1], more[|more| - 1];
      StaysHeld(t, front, i, from, now, until);
      IsHeld(ServeOn(t, front), i, until);
      IsHeld(t, i, until);
      CallKeepsHeld(ServeOn(t, front), i, last, until);
      IsHeld(ServeOn(t, more), i, until);
      EvolvesOn(t[i], ServeOn(t, front)[i], ServeOn(t, more)[i]);
    } else {
      assert ServeOn(t, more) == t;
    }
  }

  lemma IsHeld(t: Table, i: nat, until: int)
    requires HeldUntil(t, i, until)
    ensures i < |t|
  {
  }

  /** Serving more requests from a given table on. */
  function ServeOn(t: Table, more: Run): Table {
    if more == [] then t else After(ServeOn(t, more[..|more| - 1]), more[|more| - 1].request, more[|more| - 1].at)
  }

  lemma {:induction false} ServeAppend(run: Run, more: Run)
    ensures Serve(run + more) == ServeOn(Serve(run), more)
    decreases |more|
  {
    hide After;
    if more == [] {
      assert run + more == run;
    } else {
      assert (run + more)[..|run + more| - 1] == run + more[..|more| - 1];
      ServeAppend(run, more[..|more| - 1]);
    }
  }

  /** The commands a claiming poll hands out. */
  function Handed(t: Table, poll: Call): seq<nat>
    requires poll.request.Poll?
  {
    Chosen(Readied(t, poll.request, poll.at), poll.request.workspace, poll.request.node, poll.request.limit, {})
  }

  lemma HandedIsHeld(t: Table, poll: Call, i: nat)
    requires poll.request.Poll? && poll.request.claim && i in Handed(t, poll)
    ensures i < |t| && HeldUntil(After(t, poll.request, poll.at), i, poll.at + t[i].leaseMs)
    ensures
      var c := After(t, poll.request, poll.at)[i];
      c.leaseMs == t[i].leaseMs && c.expires == t[i].expires
      && c.workspace == poll.request.workspace && c.node == poll.request.node
  {
    hide After, Answer, Waiting, RefreshRow;
    PollHandsOut(t, poll.request, poll.at);
    RefreshReaches(t, poll.request, poll.at, i);
    if i < |t| { RefreshMeans(t[i], poll.at); }
    var b := Readied(t, poll.request, poll.at);
    var k :| 0 <= k < |Handed(t, poll)| && Handed(t, poll)[k] == i;
    assert Ready(b[i], poll.request.workspace, poll.request.node);
  }

  lemma {:induction false} HandedThenHeld(t: Table, poll: Call, more: Run, i: nat, now: int)
    requires poll.request.Poll? && poll.request.claim && i in Handed(t, poll) && i < |t|
    requires Others(more, i, poll.at, now) && poll.at <= now
    requires now < poll.at + t[i].leaseMs && t[i].expires.Some? && now < t[i].expires.value
    ensures
      var later := ServeOn(After(t, poll.request, poll.at), more);
      && HeldUntil(later, i, poll.at + t[i].leaseMs) && i < |later| && later[i].expires == t[i].expires
      && later[i].workspace == poll.request.workspace && later[i].node == poll.request.node
  {
    hide After, HeldUntil;
    var claimed := After(t, poll.request, poll.at);
    var later := ServeOn(claimed, more);
    var until := poll.at + t[i].leaseMs;
    HandedIsHeld(t, poll, i);
    IsHeld(claimed, i, until);
    StaysHeld(claimed, more, i, poll.at, now, until);
    IsHeld(later, i, until);
  }

  /** Whatever other requests come in between, the result of a claimed command is accepted if it is sent
      before the lease and the deadline end, and it is stored as sent. */
  lemma {:induction false} ResultInTimeAccepted(run: Run, poll: Call, more: Run, i: nat, ok: bool, body: string,
                                                now: int)
    requires poll.request.Poll? && poll.request.claim && i in Handed(Serve(run), poll) && i < |Serve(run)|
    requires Others(more, i, poll.at, now) && poll.at <= now
    requires now < poll.at + Serve(run)[i].leaseMs
    requires Serve(run)[i].expires.Some? && now < Serve(run)[i].expires.value
    ensures
      var later := Serve(run + [poll] + more);
      var result := SendResult(poll.request.workspace, poll.request.node, i, ok, body);
      && Answer(later, result, now) == Accepted
      && i < |later| && i < |After(later, result, now)|
      && After(later, result, now)[i] == later[i].(status := if ok then Completed else Failed,
                                                   result := Some(body), completed := Some(now), lease := None)
  {
    hide HeldUntil, After, Answer;
    assert (run + [poll])[..|run|] == run;
    ServeAppend(run + [poll], more);
    HandedThenHeld(Serve(run), poll, more, i, now);
    ResultOfHeld(Serve(run + [poll] + more), i, poll.at + Serve(run)[i].leaseMs, ok, body, now);
  }

  lemma ResultOfHeld(t: Table, i: nat, until: int, ok: bool, body: string, now: int)
    requires HeldUntil(t, i, until) && now < until && t[i].expires.Some? && now < t[i].expires.value
    ensures
      var result := SendResult(t[i].workspace, t[i].node, i, ok, body);
      && Answer(t, result, now) == Accepted
      && i < |After(t, result, now)|
      && After(t, result, now)[i] == t[i].(status := if ok then Completed else Failed, result := Some(body),
                                           completed := Some(now), lease := None)
  {
    RefreshMeans(t[i], now);
  }
}
