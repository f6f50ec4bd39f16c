# Verified model of the Vutler command queue, calendar, CSV reader and agent dispatch

A Dafny 4.11 project. `dafny verify dfyconfig.toml` checks all of it.

**The Nexus command queue** (`api/nexus.js`) is the centre. A server enqueues commands for remote
nodes; nodes poll and claim them under a lease, renew the lease by reporting progress, and report a
result; expired leases and deadlines are noticed only when some request refreshes the rows it touches.

- `NexusTiming` resolves a caller's timing options. `NexusCommands` is the table and its SQL
  statements: a table is the sequence of rows in creation order, and since no row is ever deleted a
  command's id is its position.
- `NexusRuns` proves what holds in every reachable state, where a run is *any interleaving of single
  statements*, each with its own reading of one clock that never runs backwards. So these results do
  not depend on a handler being atomic, nor on its refresh and its action sharing a clock reading.
- `NexusRequests` is the handlers, each taking one clock reading for its refresh and its action, and
  shows that serving requests is running their statements (`ServeIsExec`), so that everything in
  `NexusRuns` carries over. `NexusLazy` proves lazy expiry equal to eager expiry in all modelled fields
  that a caller is told but one: when an expired command is said to have ended. The error text, progress
  and update time of a row are not modelled, and can differ too.
- `NexusInTime` proves that work done in time is accepted. `NexusLateness` is about results that come in
  after the deadline, `NexusBudget` about commands started more often than their attempt budget says; each
  of these two has the exact condition.
- `NexusOvertaking` bounds how often a waiting command is passed over. `NexusPollers` splits a claim
  into its locking selection and its later update, for any number of pollers, and proves claims
  linearizable: the table is that of a run of statements as in `NexusRuns`. `NexusTwoPhase` carries
  the bounds over to such claims and says what each poller is told.
- `NexusTable` is the table as a class updated in place, with the polling waiter.

**The calendar** (`api/calendar.js`): `CronFields` gives cron texts a meaning and proves that the text
matcher decides it; `CronRuns` is the next-run search and the expansion of schedules, over a calendar
that is any function from instants to civil times; `Gregorian` is that function for UTC, with the
yearly schedules for which the search looks far enough; `CalendarEvents` is the scored deduplication.

**The CSV reader** (`api/drive.js`): `CsvReader`. **Agent dispatch** (`agentRuntime.js`):
`AgentDispatch`. `JsText` holds the JavaScript text functions these use, `Wrappers` an option type.

## Conventions

- Times are whole milliseconds. The application's clock (used for a command's deadline) and the
  database's are one clock; a deadline may be computed from an earlier reading than the INSERT's.
- SQL updates are atomic per statement in `NexusRuns`; in `NexusPollers` every writer other than a
  claim writes one row at a time and only while that row is unlocked; an update of several rows is
  one such write for each.
- A row's *control state* is all of it, but for the time of completion of an expired row, which is
  when some refresh noticed the expiry.
- Day of month and day of week must both match, unlike in POSIX crontab: `CronMeansSchedule`. A step
  after a single number, as in 5/15, matches nothing: `PartMeansTerm`.
- What the environment decides is a parameter: clock readings, whether a node exists, the calendar,
  and what other requests do while the waiter sleeps (`World`).

## What turned out not to hold

- Lazy and eager expiry can be told apart by the time of completion shown with an expired command, and
  the duration that follows from it (`ExpiryTimeTells`): that time is when a refresh first found the
  command overdue, or out of both lease and attempts (`ExpiredIffNoticed`). The other modelled fields
  agree (`LazyEqualsEager`); of those not modelled, the error text, progress and update time can differ
  too.
- The attempt budget does not bound how often a command is started: progress on a queued command
  starts it without counting (`StartedTwiceOnOneAttempt`). It does while no progress comes in for a
  queued command (`StartsWithinBudget`); and an open command can still be started too often if and
  only if it has an attempt left and one lease for each start it has left, counted from when it can next
  be started, would end before its deadline (`BudgetCanBreakIff`).
  What always holds is the bound by time, `RequeueBound`.
- A result can be accepted after the deadline (`LateResultAccepted`): when, and only when, the
  deadline falls between the first update of its handler's refresh and the result's own
  (`LateOnlyInBetween`), which can happen as soon as the clock moves between the two
  (`LateIffClockMoves`).
- A run more than 366 days after the one before is never found: a schedule for 29 February stops at
  its first leap day (`RunLostToDrought`). `ListedIffNoDrought` is the exact condition for any
  schedule, in terms of its matching minutes; among the schedules for one date a year only 29
  February fails it (`YearlyNeverStarvesIff`). A schedule for Friday the 13th fails it as well
  (`FridayLostToDrought`).
- Occurrence keys can collide, and deduplication then drops one of two different events, since a
  source and its id are free texts that may hold bars (`KeysCanCollide`). Events with one key are the
  same in all four fields exactly when as many bars stand in each of the first three
  (`KeyIdentifiesIff`).
- Quotes do not protect a line break in CSV, unlike in section 2 of RFC 4180 (`LineBreakIsLost`):
  `DocumentInverseIff` is the exact condition.

## Model

| member | source | states |
|---|---|---|
| `NexusTiming.ResolveInRange` | api/nexus.js:394-400 | with defaults in range, any options resolve to a timeout of 100 ms to 30 min, a lease of 100 ms to 10 min and 1 to 10 attempts |
| `NexusTiming.TimingInRangeIffDefaultsAre` | api/nexus.js:388-400 | all options resolve into range if and only if the configured defaults are in range, because the fallback is returned unclamped |
| `NexusTiming.TimingAsAsked` | api/nexus.js:388-400 | each limit is the number asked for, moved to the nearer end of 100 ms to 30 min, 100 ms to 10 min, or 1 to 10 if it is outside; the camelCase name wins over the snake_case one, and a limit asked for under neither is the default |
| `NexusTiming.ClaimLimitMeans` | api/nexus.js:2114 | a poll that asks for n is given up to n commands, but 1 to 10, and 5 if it asks for none or for 0 |
| `NexusCommands.SweepsInAnyOrder` | api/nexus.js:422-469 | at one instant the three refresh updates, in any of their six orders, make one decision per row |
| `NexusCommands.RefreshMeans` | api/nexus.js:422-469 | a refresh leaves alone a row that has ended, or whose deadline is ahead and, if it runs, its lease too; it ends one past its deadline, or out of lease and attempts; and it queues again one out of lease with an attempt left, changing nothing else |
| `NexusCommands.RefreshIsOnePass` | api/nexus.js:418-470 | a refresh at one clock reading is one pass that applies that decision to exactly the rows in scope |
| `NexusCommands.ClaimTakesOldest` | api/nexus.js:2120-2129 | a claim takes min(limit, claimable) distinct commands, and none it leaves is older than one it takes |
| `NexusRuns.ReachableSound` | api/nexus.js:2130-2137 | in every reachable state: lease set iff running, completion time set iff terminal, a running command has a start, created <= started <= completed <= now, limits in range, attempts equal to claims, requeues paced by leases |
| `NexusRuns.RequeueBound` | api/nexus.js:452-467 | over any run, requeues times lease_ms is below timeout_ms |
| `NexusRuns.StartsAndRequeues` | api/nexus.js:2251 | starts are the claims plus the starts by progress; starts minus requeues is 1 while running, 0 while queued |
| `NexusRuns.NeverChanges` | api/nexus.js:2194-2198 | the same over every continuation of every run |
| `NexusRuns.OneResultAccepted` | api/nexus.js:2185-2212 | over any run at most one result report per command is accepted: exactly one if it is completed or failed, none otherwise, and a result is stored iff one was |
| `NexusRuns.RowTellsPast` | api/nexus.js:2130-2137 | in every reachable state a row has the owner, limits, creation time and deadline it was enqueued with; its start is when it was first started; its lease a full one from the last claim or progress report; and its outcome, text and end those of the result that was accepted |
| `NexusRuns.HardDeadline` | api/nexus.js:422-434 | after a refresh covering it 30 minutes or more after it was created, a command is terminal for the rest of any run |
| `NexusRequests.PollHandsOut` | api/nexus.js:2113-2171 | a poll shows the chosen commands as they then are: if it claims them each runs, leased from now, started by now if it was not, one attempt up, and otherwise unchanged; no other row is more than refreshed, and none at all if it does not claim |
| `NexusRequests.RefreshReaches` | api/nexus.js:402-416 | a handler finds refreshed exactly the rows of its node, or of its node and id, or of its scope, and all others as they were |
| `NexusRequests.ServeIsExec` | api/nexus.js:2176-2208 | every run of requests is a valid run of their statements and ends in the same table |
| `NexusRequests.RefreshLeavesLive` | api/nexus.js:418-470 | in every reachable state a refreshed row that is still open has its deadline ahead, and its lease too if running |
| `NexusRequests.NoLateWork` | api/nexus.js:2238-2268 | 30 minutes after a command was created, progress and results for it are refused, no poll hands it out and reading it shows a terminal state |
| `NexusLateness.LateOnlyInBetween` | api/nexus.js:2181-2198 | in any run, whatever comes between, a result is accepted only if the deadline was ahead at its handler's first update; so it is late iff the deadline fell between that update and its own |
| `NexusLateness.LateIffClockMoves` | api/nexus.js:418-434 | a late result can be accepted iff the clock moves between the two |
| `NexusLateness.ResultAcceptedIff` | api/nexus.js:2181-2198 | after any run, an uninterrupted handler's result is accepted iff the command is the node's and open, not overdue at the first update and not out of lease and attempts at the second |
| `NexusInTime.ResultInTimeAccepted` | api/nexus.js:2176-2208 | whatever other requests come after a claiming poll, the result of a command it handed out is accepted, and stored as sent, if it is sent before the lease and the deadline end |
| `NexusBudget.StartsWithinBudget` | api/nexus.js:2251 | starts equal attempts iff no progress came in while the command was queued, and are then within budget; else iff the starts by progress fit in the unused attempts |
| `NexusBudget.BudgetCanBreakIff` | api/nexus.js:2243-2264 | from any reachable state, an open command can still be started more often than max_attempts by some continuation of requests iff it has an attempt left and one lease for each start it has left, from its lease's end or from now, ends before its deadline |
| `NexusBudget.StartedTwiceOnOneAttempt` | api/nexus.js:2250-2259 | a concrete run of requests in which a command with one attempt is started twice |
| `NexusLazy.RefreshComposes` | api/nexus.js:418-470 | a later refresh leaves the same row, up to when an expiry was noticed, whether or not an earlier one came before it; at one instant refreshing is idempotent |
| `NexusLazy.RefreshesUnite` | api/nexus.js:402-416 | refreshes over two scopes at one instant commute and equal one refresh over the union |
| `NexusLazy.LazyEqualsEager` | api/nexus.js:418-470 | in the modelled fields, runs that differ only in bare refreshes give the same replies, and the same rows after a refresh at any later time, but for when an expiry was noticed; completed and failed rows agree in full |
| `NexusLazy.ExpiredIffNoticed` | api/nexus.js:422-450 | a command is expired iff a refresh has found it overdue or out of both lease and attempts, and completed_at is the clock of the first such refresh |
| `NexusLazy.ExpiredAlikeIff` | api/nexus.js:425-444 | two runs differing only in bare refreshes hold the same expired row iff its expiry was first noticed at one time in both |
| `NexusLazy.ExpiryTimeTells` | api/nexus.js:2719-2738 | two runs differing in one refresh in which reading an expired command shows different times of completion |
| `NexusOvertaking.BoundedOvertaking` | api/nexus.js:2120-2138 | from any moment of any run, the polls that pass a waiting command over take together at most the attempts its older open siblings then have left |
| `NexusOvertaking.BoundedPolls` | api/nexus.js:2114-2138 | so no more polls than that pass it over |
| `NexusPollers.ClaimsLinearize` | api/nexus.js:2119-2141 | however selections, updates and other writes interleave, the table with pending claims applied is that of a run of statements in which every claim is made in one piece at its selection |
| `NexusPollers.OneDeliveryPerAttempt` | api/nexus.js:2130-2141 | the attempt numbers handed out with a command by all pollers together are 1, 2, ... up to attempt_count, each once |
| `NexusTwoPhase.CommitTellsSelection` | api/nexus.js:2120-2141 | a poller is told exactly the commands that the claim in one piece took when it selected, oldest first, each with its next attempt number, whatever others do in between |
| `NexusTwoPhase.DeliveredWithinBudget` | api/nexus.js:2130-2141 | all pollers together are handed a command at most max_attempts times |
| `NexusTwoPhase.BoundedOvertakingInPhases` | api/nexus.js:2114-2140 | no more selections pass a queued, unlocked command over than its older open siblings have attempts left |
| `NexusTable.CommandTable.RefreshCommandState` | api/nexus.js:418-470 | the three updates in place give the one-pass refresh |
| `NexusTable.CommandTable.EnqueueNodeCommand` | api/nexus.js:972-1001 | appends one queued command with the resolved limits, due its timeout after now, unclaimed and unstarted, and changes no other row; the deadline is within 30 minutes when the defaults are in range |
| `NexusTable.CommandTable.PollCommands` | api/nexus.js:2101-2174 | nothing happens for an unknown node; otherwise the reply and table of the poll, no row of another node changed |
| `NexusTable.CommandTable.ReportProgress` | api/nexus.js:2238-2276 | accepted iff the command is the node's, has not ended, and is not past its deadline nor out of lease and attempts; then it runs with a full lease, started by now, nothing else changed, and is shown so; else it is only refreshed; no other row changes |
| `NexusTable.CommandTable.ReportResult` | api/nexus.js:2176-2236 | accepted under the same condition; then it is completed or failed as reported, at this time, with the text kept and the lease gone, nothing else changed; else it is only refreshed; no other row changes |
| `NexusTable.CommandTable.ReadCommand` | api/nexus.js:2719-2738 | refreshes exactly the command asked for if it is the node's, and shows it as it then is; else refuses and changes nothing |
| `NexusTable.CommandTable.Look` | api/nexus.js:1007-1022 | one poll shows the row as refreshed: absent, settled for good, or open with its deadline ahead |
| `NexusTable.CommandTable.WaitForNodeCommand` | api/nexus.js:1003-1027 | a row it returns is terminal and agrees with every later read; it returns none only if the row is absent or the time ran out; all its polls are within the time; every poll before the last, and the last one too if it returns none, saw the command open with its deadline ahead |
| `NexusTable.CommandTable.DispatchNodeAction` | api/nexus.js:1081-1109 | the command is a new one of the node; without waiting it is left queued; with waiting it is returned once settled, and otherwise 15 s passed and the last poll saw it open |
| `NexusTable.ReportedExactly` | api/nexus.js:1029-1059 | in every reachable state a command is shown with the limits, creation time and deadline it was enqueued with, its claims, its first start, the outcome, text and time of the accepted result, the lease of its last grant while it runs, and, once started and ended, a duration of exactly end minus start |
| `CronFields.PartMeansTerm` | api/calendar.js:95-116 | the matcher on a printed term n, a-b, */k, a-b/k or n/k decides membership in the set it stands for, which is empty for n/k |
| `CronFields.FieldMeansTerms` | api/calendar.js:92-119 | on a comma-joined list it decides the union; a star counts only as the whole field |
| `CronFields.CronMeansSchedule` | api/calendar.js:79-131 | a printed five-field text matches a time iff all five fields hold of it |
| `CronFields.ParsedIffFive` | api/calendar.js:79-90 | a text is a cron text iff it has five words, whatever white space stands around and between them, and these are its fields in order |
| `CronRuns.GetNextRun` | api/calendar.js:133-147 | the cursor loop computes the search that the lemmas below characterize |
| `CronRuns.NextRunIsLeast` | api/calendar.js:133-147 | the least matching whole minute strictly after the argument, and none iff there is none in the inclusive 366-day window |
| `CronRuns.NextRunMonotone` | api/calendar.js:133-147 | a later start never gives an earlier run |
| `CronRuns.HitMeansSchedule` | api/calendar.js:121-131 | what is searched for, in terms of the schedule the text was printed from |
| `CronRuns.SkipTo` | api/calendar.js:278-280 | the catch-up loop terminates and computes the catch-up |
| `CronRuns.CatchUpFindsFirstDue` | api/calendar.js:278-280 | it lands on the first instant due at or after the start, or on none iff nothing is due there |
| `CronRuns.CatchUpIsDirect` | api/calendar.js:278-280 | it lands where a search from just before the start would, iff the wait for a matching minute is nowhere between longer than the window; else it gives up |
| `CronRuns.PushFrom` | api/calendar.js:282-310 | the emitting loop terminates and pushes, after what was there, one occurrence for each instant the expansion lists |
| `CronRuns.ExpansionExact` | api/calendar.js:278-310 | a schedule expands to exactly the first 90 instants due in [start, end], strictly increasing, none skipped |
| `CronRuns.ExpansionComplete` | api/calendar.js:278-310 | if the next run matches and no two runs are further apart than the window, these are all matching minutes in [max(start, next run), end] up to the cap |
| `CronRuns.ListedIffNoDrought` | api/calendar.js:133-147 | below the cap a matching minute is listed iff from every instant since the next run on another matching minute came within the window |
| `CronRuns.FetchScheduledTaskEvents` | api/calendar.js:249-313 | nothing for an end before the start; else, task by task in order, the first 90 instants due of each task in the range, and none of a task without a valid text or time; so every event is in the range and of such a task |
| `Gregorian.RunLostToDrought` | api/calendar.js:133-147 | in UTC the schedule "0 0 29 2 *", due on any leap day, is expanded to no later leap day, for any range |
| `Gregorian.FridayLostToDrought` | api/calendar.js:121-147 | in UTC the schedule "0 0 13 * 5", due on Friday 13 August 1971, is not expanded to the next one 427 days later |
| `Gregorian.YearlyNeverStarvesIff` | api/calendar.js:142-146 | a schedule for one time of one date a year always has a run within the window iff the date is not 29 February |
| `CalendarEvents.KeyIdentifiesIff` | api/calendar.js:167-174 | events with one key agree in source (a missing one counting as "manual"), source id, start and title iff the first three hold pairwise as many bars |
| `CalendarEvents.KeysCanCollide` | api/calendar.js:167-193 | for any start and title two stored events of different sources with one key, of which deduplication drops one |
| `CalendarEvents.DedupeEvents` | api/calendar.js:176-193 | the loop over an insertion-ordered map computes one best event per distinct key |
| `CalendarEvents.SurvivorsInOrder` | api/calendar.js:180-192 | survivors have distinct keys and stand in the order the keys first appear |
| `CalendarEvents.EveryKeySurvives` | api/calendar.js:176-193 | every event's key is among the survivors |
| `CalendarEvents.SurvivorIsBest` | api/calendar.js:186-190 | each survivor is an event of the list, the last of the highest-scoring with its key |
| `CalendarEvents.OccurrenceKept` | api/calendar.js:184-190 | of the events of one key the one kept is expanded from a schedule if any is, else read-only if any is, and the last of those that are alike in this |
| `CalendarEvents.DedupeMerges` | api/calendar.js:176-193 | deduplicating two lists first and then their concatenation is deduplicating the concatenation |
| `CalendarEvents.DedupeIdempotent` | api/calendar.js:176-193 | deduplicating twice is deduplicating once |
| `CsvReader.ParseCsvLine` | api/drive.js:136-166 | the index loop with lookahead computes the scan that the lemmas below characterize |
| `CsvReader.LineInverse` | api/drive.js:136-166 | parsing any non-empty list of fields printed with quotes returns the fields trimmed |
| `CsvReader.MixedInverse` | api/drive.js:136-166 | reading a line whose cells are any stretches in and out of quotes, the last perhaps with a quote that nothing closes, gives the stretches of each cell put together and trimmed |
| `CsvReader.DocumentMeans` | api/drive.js:168-181 | reading any lines with either line ending between them: a byte order mark and blank lines are passed over, the first line left names the columns, an empty header by its number; each other line fills a row, with the empty text where it is too short and the last of columns of one name |
| `CsvReader.DocumentInverse` | api/drive.js:168-181 | a printed table of trimmed, line-break-free cells is recovered exactly, with either line ending and with or without a byte order mark |
| `CsvReader.DocumentInverseIff` | api/drive.js:168-181 | a well-formed table is recovered iff all its headers and cells are trimmed and hold no line break |
| `CsvReader.LineBreakIsLost` | api/drive.js:168-172 | a concrete table with a line break in a quoted cell that is not recovered, in any layout |
| `AgentDispatch.Runtime.LoadAgents` | agentRuntime.js:158-188 | metadata of the active agents as their rows have it, with a prompt made from the name if there is none; each channel lists its assigned agents that have metadata, in order of assignment; pointers are kept |
| `AgentDispatch.Runtime.ProcessMessage` | agentRuntime.js:73-88 | rejected if it is blank, else if it is in hand, else if its channel has no agents, and then nothing changes; otherwise the agent at the channel's pointer is chosen, the message is in hand and the pointer moves on by one; a chosen agent has metadata when the runtime was loaded |
| `AgentDispatch.RoundRobinBalance` | agentRuntime.js:79-85 | after m accepted messages on a channel whose list keeps n slots, every slot was chosen m/n times rounded down or up, from any starting pointer; with none accepted the pointer has not moved |
| `AgentDispatch.AgentsBalanced` | agentRuntime.js:79-85 | while a channel's list of n distinct agents stays as it is, each of them is given m/n of m accepted messages, rounded down or up |
| `AgentDispatch.ChosenHaveMeta` | agentRuntime.js:181-185 | after any run of messages, reloads and stops from a loaded runtime, such as the empty one, every chosen agent has metadata |

## Left out

- A command's `error` text, `progress` payload, `updated_at` and the 24-hour statistics: they do not influence later behaviour.
- `NexusLazy.LazyEqualsEager`: does not compare the error text, progress and update time of a row, which the model leaves out and in which lazy and eager expiry can differ.
- `NexusRequests.PollHandsOut`: lists the commands oldest first; `UPDATE ... RETURNING` promises no order, only which rows.
- `NexusTwoPhase.CommitTellsSelection`: the same; only which commands are told is promised, not their order.
- Routing, authentication, governance approvals and node records: whether a node exists is a parameter of a poll.
- Waiting for row locks: a statement that has to wait keeps its earlier clock reading, which is not modelled.
- Clock skew between application server and database, and fractions of a millisecond.
- `NexusCommands.ClaimTakesOldest`: does not model ties in `created_at`, which SQL leaves unordered; creation order is strict here.
- `NexusPollers.ClaimsLinearize`: a selection locks its rows at once, not one by one.
- `Gregorian.YearlyNeverStarvesIff`: speaks of instants from 1970 on and of schedules for a single date.
- `CronFields.PartMeansTerm`: does not model range bounds written as signed, fractional, hexadecimal or exponent literals, which JavaScript's Number accepts and the model reads as NaN; no printed term has one.
- `CronRuns.GetNextRun`: does not model daylight-saving jumps, as every minute is 60000 ms; it takes the cron text as the rule it denotes, which `RuleOf` gives.
- Titles, descriptions and end times of expanded events, the SQL limit of 100 schedules, and the defaults for missing bounds.
- Spreadsheet files: they are read by a library.
- `CsvReader.DocumentInverse`: the document's sheet name and row counts are not modelled, and the delimiter is a parameter rather than derived from the file name.
- The language-model call, memory and status updates after an agent has been chosen.
- The timer that forgets a message id after 5 minutes is an event that may come at any time.
