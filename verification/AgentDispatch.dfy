/** Choosing an agent for each chat message, in turn. */
module AgentDispatch {
  import opened Wrappers
  import opened JsText

  datatype Meta = Meta(name: string, systemPrompt: string, provider: Option<string>, model: Option<string>)

  /** An active row of the agents table; empty texts are missing ones. */
  datatype AgentRow = AgentRow(id: string, name: string, systemPrompt: string, provider: string, model: string)

  datatype Assignment = Assignment(agent: string, channel: string)

  datatype Message = Message(id: string, channel: string, content: Option<string>)

  datatype Outcome =
    | Selected(agent: string, slot: nat)
    | EmptyMessage
    | AlreadyProcessing
    | NoAgents

  /** The runtime's maps and sets. */
  datatype State = State(meta: map<string, Meta>, channels: map<string, seq<string>>,
                         index: map<string, nat>, processing: set<string>)

  // ----- One message -----

  function Agents(s: State, channel: string): seq<string> {
    if channel in s.channels then s.channels[channel] else []
  }

  function Pointer(s: State, channel: string): nat {
    if channel in s.index then s.index[channel] else 0
  }

  /** `!content?.trim()`. */
  predicate NoContent(content: Option<string>) {
    content.None? || Trim(content.value) == []
  }

  lemma NoContentIsBlank(content: Option<string>)
    ensures NoContent(content) <==> content.None? || forall c :: c in content.value ==> IsSpace(c)
  {
    if content.Some? {
      BlankIffTrimmedAway(content.value);
      assert forall i :: 0 <= i < |content.value| ==> content.value[i] in content.value;
    }
  }

  function Choice(s: State, m: Message): Outcome {
    if NoContent(m.content) then EmptyMessage
    else if m.id in s.processing then AlreadyProcessing
    else
      var agents := Agents(s, m.channel);
      if agents == [] then NoAgents
      else
        var slot := Pointer(s, m.channel) % |agents|;
        Selected(agents[slot], slot)
  }

  function After(s: State, m: Message): State {
    if !Choice(s, m).Selected? then s
    else s.(index := s.index[m.channel := (Pointer(s, m.channel) + 1) % |Agents(s, m.channel)|],
            processing := s.processing + {m.id})
  }

  /** Every channel has agents, all of them with loaded metadata. */
  ghost predicate Loaded(s: State) {
    forall c :: c in s.channels ==>
      s.channels[c] != [] && forall k :: 0 <= k < |s.channels[c]| ==> s.channels[c][k] in s.meta
  }

  // ----- Loading -----

  function MetaOf(a: AgentRow): Meta {
    Meta(a.name,
         if a.systemPrompt == "" then "You are " + a.name + ". Be concise and helpful." else a.systemPrompt,
         if a.provider == "" then None else Some(a.provider),
         if a.model == "" then None else Some(a.model))
  }

  /** What is kept of an agent's row: a missing prompt is made from the name, a missing provider or
      model is none. */
  predicate Describes(m: Meta, a: AgentRow) {
    && m.name == a.name
    && m.systemPrompt == (if a.systemPrompt != "" then a.systemPrompt
                          else "You are " + a.name + ". Be concise and helpful.")
    && (m.provider == None <==> a.provider == "") && (m.provider.Some? ==> m.provider.value == a.provider)
    && (m.model == None <==> a.model == "") && (m.model.Some? ==> m.model.value == a.model)
  }

  /** The row is the last one of its agent. */
  predicate IsLast(agents: seq<AgentRow>, k: int) {
    0 <= k < |agents| && forall j :: k < j < |agents| ==> agents[j].id != agents[k].id
  }

  function Metas(agents: seq<AgentRow>): (m: map<string, Meta>)
    ensures forall id :: id in m <==> exists k :: 0 <= k < |agents| && agents[k].id == id
  {
    if agents == [] then map[]
    else
      var front, last := agents[..|agents| - 1], agents[|agents| - 1];
      assert forall k :: 0 <= k < |front| ==> front[k] == agents[k];
      Metas(front)[last.id := MetaOf(last)]
  }

  lemma {:induction false} MetasDescribe(agents: seq<AgentRow>, k: int)
    requires IsLast(agents, k)
    ensures agents[k].id in Metas(agents) && Describes(Metas(agents)[agents[k].id], agents[k])
  {
    var n := |agents| - 1;
    if k < n {
      hide Describes;
      assert IsLast(agents[..n], k);
      MetasDescribe(agents[..n], k);
      assert agents[n].id != agents[k].id;
    }
  }

  /** These are the agents of the assignments at the given places. */
  predicate NamesOf(agents: seq<string>, rows: seq<Assignment>, w: seq<nat>) {
    |agents| == |w| && forall k :: 0 <= k < |w| ==> w[k] < |rows| && agents[k] == rows[w[k]].agent
  }

  /** The agents with metadata assigned to a channel, in order of assignment. */
  function AssignedTo(meta: map<string, Meta>, rows: seq<Assignment>, channel: string): (agents: seq<string>)
    ensures forall k :: 0 <= k < |agents| ==> agents[k] in meta
  {
    if rows == [] then []
    else
      var front, last := AssignedTo(meta, rows[..|rows| - 1], channel), rows[|rows| - 1];
      if last.channel == channel && last.agent in meta then front + [last.agent] else front
  }

  /** The assignments to a channel of agents with metadata, among the first n, in order. */
  function Assigned(meta: map<string, Meta>, rows: seq<Assignment>, n: nat, channel: string): (w: seq<nat>)
    requires n <= |rows|
    ensures forall i: nat :: i in w <==> i < n && rows[i].channel == channel && rows[i].agent in meta
    ensures forall j, k :: 0 <= j < k < |w| ==> w[j] < w[k]
  {
    if n == 0 then []
    else
      var w := Assigned(meta, rows, n - 1, channel);
      assert forall j :: 0 <= j < |w| ==> w[j] in w;
      if rows[n - 1].channel == channel && rows[n - 1].agent in meta then w + [n - 1] else w
  }

  /** A channel's list names their agents in that order, an agent assigned twice twice. */
  lemma {:induction false} AssignedInOrder(meta: map<string, Meta>, rows: seq<Assignment>, n: nat, channel: string)
    requires n <= |rows|
    ensures
      NamesOf(AssignedTo(meta, rows[..n], channel), rows, Assigned(meta, rows, n, channel))
  {
    if n > 0 {
      AssignedInOrder(meta, rows, n - 1, channel);
      assert rows[..n][..n - 1] == rows[..n - 1];
      var w := Assigned(meta, rows, n - 1, channel);
      assert forall k :: 0 <= k < |w| ==> w[k] in w;
    }
  }

  ghost predicate Lists(channels: map<string, seq<string>>, meta: map<string, Meta>, rows: seq<Assignment>) {
    && (forall c :: c in channels <==> AssignedTo(meta, rows, c) != [])
    && (forall c :: c in channels ==> channels[c] == AssignedTo(meta, rows, c))
  }

  lemma ListsOneMore(channels: map<string, seq<string>>, meta: map<string, Meta>, rows: seq<Assignment>, n: nat)
    requires n < |rows| && Lists(channels, meta, rows[..n])
    ensures
      var r := rows[n];
      Lists(if r.agent !in meta then channels
            else channels[r.channel := (if r.channel in channels then channels[r.channel] else []) + [r.agent]],
            meta, rows[..n + 1])
  {
    assert rows[..n + 1][..n] == rows[..n];
  }

  /** The channel lists that the loading loop builds. */
  function Grouped(meta: map<string, Meta>, rows: seq<Assignment>): map<string, seq<string>> {
    if rows == [] then map[]
    else
      var front, last := Grouped(meta, rows[..|rows| - 1]), rows[|rows| - 1];
      if last.agent !in meta then front
      else front[last.channel := (if last.channel in front then front[last.channel] else []) + [last.agent]]
  }

  lemma {:induction false} GroupedLists(meta: map<string, Meta>, rows: seq<Assignment>)
    ensures Lists(Grouped(meta, rows), meta, rows)
  {
    if rows != [] {
      hide Lists;
      GroupedLists(meta, rows[..|rows| - 1]);
      ListsOneMore(Grouped(meta, rows[..|rows| - 1]), meta, rows, |rows| - 1);
      assert rows[..|rows| - 1 + 1] == rows;
    } else {
      assert Lists(map[], meta, rows);
    }
  }

  lemma ListsAreLoaded(s: State, rows: seq<Assignment>)
    requires Lists(s.channels, s.meta, rows)
    ensures Loaded(s)
  {
  }

  /** Loading replaces the agents and the lists, and keeps the pointers and the messages in hand. */
  function Reload(s: State, agents: seq<AgentRow>, assignments: seq<Assignment>): State {
    var meta := Metas(agents);
    State(meta, Grouped(meta, assignments), s.index, s.processing)
  }

  /** Stopping clears everything but the pointers. */
  function Stop(s: State): State {
    State(map[], map[], s.index, {})
  }

  class Runtime {
    var agentMeta: map<string, Meta>
    var agentStatus: map<string, string>
    var channelToAgents: map<string, seq<string>>
    var roundRobinIndex: map<string, nat>
    var processing: set<string>

    function Current(): State
      reads this
    {
      State(agentMeta, channelToAgents, roundRobinIndex, processing)
    }

    constructor ()
      ensures Current() == State(map[], map[], map[], {}) && Loaded(Current())
    {
      agentMeta, agentStatus, channelToAgents, roundRobinIndex, processing := map[], map[], map[], map[], {};
    }

    /** The loop over the active agents. */
    method LoadMeta(agents: seq<AgentRow>)
      modifies this`agentMeta, this`agentStatus
      ensures agentMeta == Metas(agents)
      ensures forall id :: id in agentStatus <==> id in agentMeta || id in old(agentStatus)
      ensures forall id :: id in agentStatus ==>
        agentStatus[id] == if id in agentMeta then "active" else old(agentStatus)[id]
    {
      agentMeta := map[];
      for i := 0 to |agents|
        invariant agentMeta == Metas(agents[..i])
        invariant forall id :: id in agentStatus <==> id in agentMeta || id in old(agentStatus)
        invariant forall id :: id in agentStatus ==>
          agentStatus[id] == if id in agentMeta then "active" else old(agentStatus)[id]
      {
        assert agents[..i + 1][..i] == agents[..i];
        agentMeta := agentMeta[agents[i].id := MetaOf(agents[i])];
        agentStatus := agentStatus[agents[i].id := "active"];
      }
      assert agents[..|agents|] == agents;
    }

    /** The loop over their channel assignments. */
    method LoadLists(assignments: seq<Assignment>)
      modifies this`channelToAgents
      ensures channelToAgents == Grouped(agentMeta, assignments)
    {
      channelToAgents := map[];
      for i := 0 to |assignments|
        invariant channelToAgents == Grouped(agentMeta, assignments[..i])
      {
        var row := assignments[i];
        assert assignments[..i + 1][..i] == assignments[..i];
        if row.agent !in agentMeta {
          continue;
        }
        if row.channel !in channelToAgents {
          channelToAgents := channelToAgents[row.channel := []];
        }
        channelToAgents := channelToAgents[row.channel := channelToAgents[row.channel] + [row.agent]];
      }
      assert assignments[..|assignments|] == assignments;
    }

    method LoadAgents(agents: seq<AgentRow>, assignments: seq<Assignment>)
      modifies this
      ensures Current() == Reload(old(Current()), agents, assignments)
      ensures agentMeta == Metas(agents)
      ensures forall k :: IsLast(agents, k) ==>
        agents[k].id in agentMeta && Describes(agentMeta[agents[k].id], agents[k])
      ensures Lists(channelToAgents, agentMeta, assignments)
      ensures forall c :: c in channelToAgents ==>
        NamesOf(channelToAgents[c], assignments, Assigned(agentMeta, assignments, |assignments|, c))
      ensures forall c :: c !in channelToAgents ==> Assigned(agentMeta, assignments, |assignments|, c) == []
      ensures Loaded(Current())
      ensures roundRobinIndex == old(roundRobinIndex) && processing == old(processing)
    {
      LoadMeta(agents);
      LoadLists(assignments);
      GroupedLists(agentMeta, assignments);
      ListsAreLoaded(Current(), assignments);
      assert assignments[..|assignments|] == assignments;
      forall c: string
        ensures NamesOf(AssignedTo(agentMeta, assignments, c), assignments,
                        Assigned(agentMeta, assignments, |assignments|, c))
      {
        AssignedInOrder(agentMeta, assignments, |assignments|, c);
      }
      forall k | IsLast(agents, k)
        ensures agents[k].id in agentMeta && Describes(agentMeta[agents[k].id], agents[k])
      {
        MetasDescribe(agents, k);
      }
    }

    method StopRuntime()
      modifies this
      ensures Current() == Stop(old(Current())) && agentStatus == map[]
      ensures agentMeta == map[] && channelToAgents == map[] && processing == {}
      ensures roundRobinIndex == old(roundRobinIndex)
    {
      agentMeta, agentStatus, channelToAgents, processing := map[], map[], map[], {};
    }

    /** processAgentMessage up to the choice of the agent: a message that is blank, is still in hand, or
        has no agents in its channel is rejected, for the first of these reasons, and changes nothing.
        Else it is in hand from now on; the agent at the channel's pointer is chosen, and the pointer
        moves on to the next. */
    method ProcessMessage(m: Message) returns (outcome: Outcome)
      modifies this
      ensures outcome == EmptyMessage <==> m.content.None? || forall c :: c in m.content.value ==> IsSpace(c)
      ensures outcome == AlreadyProcessing <==> outcome != EmptyMessage && m.id in old(processing)
      ensures outcome == NoAgents <==>
        && outcome != EmptyMessage && m.id !in old(processing)
        && (m.channel !in old(channelToAgents) || old(channelToAgents)[m.channel] == [])
      ensures !outcome.Selected? ==> Current() == old(Current())
      ensures outcome.Selected? ==>
        var agents := old(channelToAgents)[m.channel];
        var idx := if m.channel in old(roundRobinIndex) then old(roundRobinIndex)[m.channel] else 0;
        && outcome.slot == idx % |agents| && outcome.agent == agents[idx % |agents|]
        && processing == old(processing) + {m.id}
        && roundRobinIndex == old(roundRobinIndex)[m.channel := (idx + 1) % |agents|]
        && agentMeta == old(agentMeta) && channelToAgents == old(channelToAgents)
      ensures outcome == Choice(old(Current()), m)
      ensures Current() == After(old(Current()), m)
      ensures old(Loaded(Current())) ==>
                Loaded(Current()) && (outcome.Selected? ==> outcome.agent in agentMeta)
    {
      NoContentIsBlank(m.content);
      hide NoContent;
      if NoContent(m.content) {
        return EmptyMessage;
      }
      if m.id in processing {
        return AlreadyProcessing;
      }
      if m.channel !in channelToAgents || channelToAgents[m.channel] == [] {
        return NoAgents;
      }
      var agents := channelToAgents[m.channel];
      var idx := if m.channel in roundRobinIndex then roundRobinIndex[m.channel] else 0;
      outcome := Selected(agents[idx % |agents|], idx % |agents|);
      roundRobinIndex := roundRobinIndex[m.channel := (idx + 1) % |agents|];
      processing := processing + {m.id};
    }

    /** The timer that lets a message id be used again. */
    method Forget(id: string)
      modifies this
      ensures Current() == old(Current()).(processing := old(processing) - {id})
    {
      processing := processing - {id};
    }
  }

  // ----- Runs -----

  datatype Event =
    | Arrives(message: Message)
    | Forgets(id: string)
    | Reloads(agents: seq<AgentRow>, assignments: seq<Assignment>)
    | Stops

  function Happen(s: State, e: Event): State {
    match e
    case Arrives(m) => After(s, m)
    case Forgets(id) => s.(processing := s.processing - {id})
    case Reloads(agents, assignments) => Reload(s, agents, assignments)
    case Stops => Stop(s)
  }

  function RunFrom(s: State, run: seq<Event>): State {
    if run == [] then s else Happen(RunFrom(s, run[..|run| - 1]), run[|run| - 1])
  }

  predicate AcceptedOn(s: State, e: Event, channel: string) {
    e.Arrives? && e.message.channel == channel && Choice(s, e.message).Selected?
  }

  /** How many messages of the run were accepted on a channel. */
  function Accepted(s: State, run: seq<Event>, channel: string): nat {
    if run == [] then 0
    else
      var front := run[..|run| - 1];
      Accepted(s, front, channel) + (if AcceptedOn(RunFrom(s, front), run[|run| - 1], channel) then 1 else 0)
  }

  /** How many of them went to one slot of the channel's list. */
  function Picked(s: State, run: seq<Event>, channel: string, slot: nat): nat {
    if run == [] then 0
    else
      var front, last := run[..|run| - 1], run[|run| - 1];
      var before := RunFrom(s, front);
      Picked(s, front, channel, slot) +
      (if AcceptedOn(before, last, channel) && Choice(before, last.message).slot == slot then 1 else 0)
  }

  lemma {:induction false} ModIs(a: int, q: int, r: int, n: int)
    requires 0 <= r < n && a == q * n + r
    ensures a % n == r && a / n == q
  {
    var q', r' := a / n, a % n;
    assert a == q' * n + r';
    Sandwich(q - q', n, r' - r);
  }

  lemma Sandwich(k: int, n: int, d: int)
    requires n > 0 && -n < d < n && k * n == d
    ensures k == 0 && d == 0
  {
    if k >= 1 {
      assert k * n >= 1 * n by { MulMonotone(1, k, n); }
    } else if k <= -1 {
      assert k * n <= -1 * n by { MulMonotone(k, -1, n); }
    }
  }

  lemma MulMonotone(a: int, b: int, n: int)
    requires a <= b && n >= 0
    ensures a * n <= b * n
  {
    assert (b - a) * n >= 0;
    assert b * n == a * n + (b - a) * n;
  }

  lemma {:induction false} NextPointer(p: nat, m: nat, i: nat, n: nat)
    requires n > 0 && p % n == (i + m) % n
    ensures ((p + 1) % n) % n == (i + m + 1) % n
  {
    var a, b := p / n, (i + m) / n;
    var r := p % n;
    assert p == a * n + r && i + m == b * n + r;
    if r + 1 < n {
      ModIs(p + 1, a, r + 1, n);
      ModIs(i + m + 1, b, r + 1, n);
      ModIs(r + 1, 0, r + 1, n);
    } else {
      ModIs(p + 1, a + 1, 0, n);
      ModIs(i + m + 1, b + 1, 0, n);
      ModIs(0, 0, 0, n);
    }
  }

  /** How far slot j is ahead of a pointer. */
  function Lead(i: nat, j: nat, n: nat): (d: nat)
    requires j < n
    ensures d < n
  {
    var r := i % n;
    if r <= j then j - r else j + n - r
  }

  /** After m turns from i, t of them to slot j, the next turn is j's exactly when it is due. */
  lemma {:induction false} TurnIsDue(i: nat, j: nat, n: nat, m: nat, t: nat)
    requires j < n
    requires m - Lead(i, j, n) <= t * n < m - Lead(i, j, n) + n
    ensures (i + m) % n == j <==> m - Lead(i, j, n) == t * n
  {
    var d, r, a := Lead(i, j, n), i % n, i / n;
    assert i == a * n + r;
    var e := if r <= j then 0 else 1;
    assert r + d == j + e * n;
    if m - d == t * n {
      assert i + m == (a + e + t) * n + j by { assert (a + e + t) * n == a * n + e * n + t * n; }
      ModIs(i + m, a + e + t, j, n);
    }
    if (i + m) % n == j {
      var q := (i + m) / n;
      assert i + m == q * n + j;
      assert (t - (q - a - e)) * n == t * n - q * n + a * n + e * n;
      Sandwich(t - (q - a - e), n, t * n - (m - d));
    }
  }

  ghost predicate Fair(i: nat, j: nat, n: nat, m: nat, t: nat) {
    j < n && m - Lead(i, j, n) <= t * n < m - Lead(i, j, n) + n
  }

  lemma {:induction false} FairNext(i: nat, j: nat, n: nat, m: nat, t: nat)
    requires Fair(i, j, n, m, t)
    ensures Fair(i, j, n, m + 1, t + if (i + m) % n == j then 1 else 0)
  {
    TurnIsDue(i, j, n, m, t);
    assert (t + 1) * n == t * n + n;
  }

  lemma {:induction false} NearMultiple(n: nat, m: nat, t: nat)
    requires m - n < t * n < m + n
    ensures n > 0 && (t == m / n || (t == m / n + 1 && m % n != 0))
  {
    var a, b := m / n, m % n;
    assert m == a * n + b;
    var k := t - a;
    assert k * n == t * n - a * n;
    if k <= -1 {
      MulMonotone(k, -1, n);
    } else if k >= 2 {
      MulMonotone(2, k, n);
    }
  }

  lemma {:induction false} FairIsBalanced(i: nat, j: nat, n: nat, m: nat, t: nat)
    requires Fair(i, j, n, m, t)
    ensures t == m / n || (t == m / n + 1 && m % n != 0)
  {
    NearMultiple(n, m, t);
  }

  /** What one event does to a channel's pointer. */
  lemma EventTurn(s: State, e: Event, channel: string)
    ensures
      var p, n, next := Pointer(s, channel), |Agents(s, channel)|, Happen(s, e);
      && (AcceptedOn(s, e, channel) ==>
            n > 0 && Choice(s, e.message).slot == p % n && Pointer(next, channel) == (p + 1) % n)
      && (!AcceptedOn(s, e, channel) ==> Pointer(next, channel) == p)
  {
    hide NoContent, Metas, Grouped;
  }

  /** After m accepted messages from pointer i on a channel with n slots, t of them to the slot. */
  ghost predicate OnTurn(s: State, channel: string, slot: nat, i: nat, n: nat, m: nat, t: nat) {
    && |Agents(s, channel)| == n > slot
    && Pointer(s, channel) % n == (i + m) % n
    && Fair(i, slot, n, m, t)
    && (m == 0 ==> Pointer(s, channel) == i)
  }

  lemma FirstTurn(s: State, channel: string, slot: nat)
    requires slot < |Agents(s, channel)|
    ensures OnTurn(s, channel, slot, Pointer(s, channel), |Agents(s, channel)|, 0, 0)
  {
    assert 0 * |Agents(s, channel)| == 0;
  }

  lemma {:induction false} TurnStep(s: State, e: Event, channel: string, slot: nat, i: nat, n: nat, m: nat, t: nat)
    requires OnTurn(s, channel, slot, i, n, m, t) && |Agents(Happen(s, e), channel)| == n
    ensures
      var accepted := AcceptedOn(s, e, channel);
      OnTurn(Happen(s, e), channel, slot, i, n, m + (if accepted then 1 else 0),
             t + (if accepted && Choice(s, e.message).slot == slot then 1 else 0))
  {
    hide NoContent, Metas, Grouped, Fair;
    var p, next := Pointer(s, channel), Happen(s, e);
    if AcceptedOn(s, e, channel) {
      assert Choice(s, e.message).slot == p % n && Pointer(next, channel) == (p + 1) % n by {
        EventTurn(s, e, channel);
      }
      NextPointer(p, m, i, n);
      FairNext(i, slot, n, m, t);
    } else {
      assert Pointer(next, channel) == p by { EventTurn(s, e, channel); }
    }
  }

  /** Throughout the run the channel's list has as many slots as at its start. */
  ghost predicate KeepsSlots(s: State, run: seq<Event>, channel: string) {
    forall k :: 0 <= k <= |run| ==> |Agents(RunFrom(s, run[..k]), channel)| == |Agents(s, channel)|
  }

  lemma KeepsSlotsFront(s: State, run: seq<Event>, channel: string)
    requires KeepsSlots(s, run, channel) && run != []
    ensures KeepsSlots(s, run[..|run| - 1], channel)
    ensures |Agents(RunFrom(s, run), channel)| == |Agents(s, channel)|
  {
    var front := run[..|run| - 1];
    assert run[..|run|] == run;
    forall k | 0 <= k <= |front| ensures |Agents(RunFrom(s, front[..k]), channel)| == |Agents(s, channel)| {
      assert front[..k] == run[..k];
    }
  }

  /** Along any run the pointer counts the accepted messages and each slot gets its turns. */
  lemma {:induction false} TurnsKept(s: State, run: seq<Event>, channel: string, slot: nat)
    requires slot < |Agents(s, channel)| && KeepsSlots(s, run, channel)
    ensures OnTurn(RunFrom(s, run), channel, slot, Pointer(s, channel), |Agents(s, channel)|,
                   Accepted(s, run, channel), Picked(s, run, channel, slot))
    decreases |run|
  {
    var n, i := |Agents(s, channel)|, Pointer(s, channel);
    hide OnTurn, Happen, KeepsSlots, AcceptedOn, Choice, Agents, Pointer;
    if run == [] {
      FirstTurn(s, channel, slot);
    } else {
      var front, last := run[..|run| - 1], run[|run| - 1];
      KeepsSlotsFront(s, run, channel);
      TurnsKept(s, front, channel, slot);
      TurnStep(RunFrom(s, front), last, channel, slot, i, n, Accepted(s, front, channel),
               Picked(s, front, channel, slot));
    }
  }

  /** Round-robin balance: whatever else arrives, and even if agents are loaded anew, as long as the
      channel's list keeps its n slots: after m accepted messages on the channel each slot was chosen
      m/n times, rounded down or up, from any starting pointer; and rejected messages leave the pointer
      where it was. */
  lemma RoundRobinBalance(s: State, run: seq<Event>, channel: string, slot: nat)
    requires slot < |Agents(s, channel)| && KeepsSlots(s, run, channel)
    ensures
      var n, m := |Agents(s, channel)|, Accepted(s, run, channel);
      var t := Picked(s, run, channel, slot);
      && (t == m / n || (t == m / n + 1 && m % n != 0))
      && (m == 0 ==> Pointer(RunFrom(s, run), channel) == Pointer(s, channel))
  {
    TurnsKept(s, run, channel, slot);
    FairIsBalanced(Pointer(s, channel), slot, |Agents(s, channel)|, Accepted(s, run, channel),
                   Picked(s, run, channel, slot));
  }

  /** How many messages of the run that were accepted on a channel went to an agent. */
  function Served(s: State, run: seq<Event>, channel: string, agent: string): nat {
    if run == [] then 0
    else
      var front, last := run[..|run| - 1], run[|run| - 1];
      var before := RunFrom(s, front);
      Served(s, front, channel, agent) +
      (if AcceptedOn(before, last, channel) && Choice(before, last.message).agent == agent then 1 else 0)
  }

  /** Throughout the run the channel's list stays as it is. */
  ghost predicate KeepsList(s: State, run: seq<Event>, channel: string) {
    forall k :: 0 <= k <= |run| ==> Agents(RunFrom(s, run[..k]), channel) == Agents(s, channel)
  }

  predicate Distinct(agents: seq<string>) {
    forall j, k :: 0 <= j < k < |agents| ==> agents[j] != agents[k]
  }

  lemma AgentOfSlot(s: State, e: Event, channel: string, slot: nat)
    requires AcceptedOn(s, e, channel) && Distinct(Agents(s, channel)) && slot < |Agents(s, channel)|
    ensures Choice(s, e.message).agent == Agents(s, channel)[slot] <==> Choice(s, e.message).slot == slot
  {
    hide NoContent;
  }

  lemma {:induction false} ServedIsPicked(s: State, run: seq<Event>, channel: string, slot: nat)
    requires KeepsList(s, run, channel) && Distinct(Agents(s, channel)) && slot < |Agents(s, channel)|
    ensures Served(s, run, channel, Agents(s, channel)[slot]) == Picked(s, run, channel, slot)
    decreases |run|
  {
    if run != [] {
      hide Choice, Happen, AcceptedOn, Distinct, Agents;
      var front, last := run[..|run| - 1], run[|run| - 1];
      forall k | 0 <= k <= |front| ensures Agents(RunFrom(s, front[..k]), channel) == Agents(s, channel) {
        assert front[..k] == run[..k];
      }
      ServedIsPicked(s, front, channel, slot);
      assert front[..|front|] == front;
      if AcceptedOn(RunFrom(s, front), last, channel) {
        AgentOfSlot(RunFrom(s, front), last, channel, slot);
      }
    }
  }

  /** So while a channel's list of n distinct agents stays as it is, each of them is given m/n of m
      accepted messages, rounded down or up. */
  lemma {:induction false} AgentsBalanced(s: State, run: seq<Event>, channel: string, agent: string)
    requires KeepsList(s, run, channel) && Distinct(Agents(s, channel)) && agent in Agents(s, channel)
    ensures
      var n, m := |Agents(s, channel)|, Accepted(s, run, channel);
      var t := Served(s, run, channel, agent);
      t == m / n || (t == m / n + 1 && m % n != 0)
  {
    var slot :| 0 <= slot < |Agents(s, channel)| && Agents(s, channel)[slot] == agent;
    assert KeepsSlots(s, run, channel);
    RoundRobinBalance(s, run, channel, slot);
    ServedIsPicked(s, run, channel, slot);
  }

  /** Messages, forgotten ones too, change no list. */
  lemma {:induction false} MessagesKeepSlots(s: State, run: seq<Event>, channel: string)
    requires forall e :: e in run ==> e.Arrives? || e.Forgets?
    ensures KeepsSlots(s, run, channel) && RunFrom(s, run).channels == s.channels
    decreases |run|
  {
    if run != [] {
      var front := run[..|run| - 1];
      MessagesKeepSlots(s, front, channel);
      assert run[|run| - 1] in run;
      forall k | 0 <= k <= |run| ensures |Agents(RunFrom(s, run[..k]), channel)| == |Agents(s, channel)| {
        if k == |run| {
          assert run[..k] == run;
        } else {
          assert run[..k] == front[..k];
        }
      }
    }
  }

  lemma HappenLoaded(s: State, e: Event)
    requires Loaded(s)
    ensures Loaded(Happen(s, e))
  {
    if e.Reloads? {
      GroupedLists(Metas(e.agents), e.assignments);
      ListsAreLoaded(Happen(s, e), e.assignments);
    }
  }

  /** After any run of messages, reloads and stops, from the empty runtime or any other that is loaded,
      a chosen agent has its metadata loaded. */
  lemma {:induction false} ChosenHaveMeta(s: State, run: seq<Event>, m: Message)
    requires Loaded(s)
    ensures
      var now := RunFrom(s, run);
      Loaded(now) && (Choice(now, m).Selected? ==> Choice(now, m).agent in now.meta)
    decreases |run|
  {
    if run != [] {
      ChosenHaveMeta(s, run[..|run| - 1], m);
      HappenLoaded(RunFrom(s, run[..|run| - 1]), run[|run| - 1]);
    }
  }
}
