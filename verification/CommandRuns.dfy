/**
  The command life cycle under every interleaving.

  Requests, dispatches, replies and sweeps are separate actors. Each database statement and each
  call to the sender is one event; any actor may act between any two events of another.
 */
module CommandRuns {
  import opened Bytes
  import opened Wrappers
  import opened CommandStore
  import opened CommandService

  /** How far one dispatch has come. */
  datatype Stage =
    | Queued
    | Locked                       // MarkSending returned the row
    | Answered(delivered: bool)    // the sender was called
    | Ended(locked: bool)

  predicate PastLock(s: Stage) {
    s.Locked? || s.Answered? || (s.Ended? && s.locked)
  }

  /** One call of dispatch, with what its Send read before deciding. */
  datatype Task = Task(id: nat, reading: Option<Snapshot>, readAt: int, stage: Stage)

  /** How far one call of HandleAck has come: its two SELECTs and its UPDATE are separate statements. */
  datatype Lookup =
    | Unmatched                    // no key, or no open command with it
    | Matched(id: nat)
    | Over

  datatype Incoming = Incoming(device: nat, key: dword, stage: Lookup)

  /** `wire` lists the tasks whose bytes were handed to the sender. */
  datatype State = State(rows: Table, tasks: seq<Task>, incoming: seq<Incoming>, wire: seq<nat>)

  datatype Event =
    | Request(device: nat, command: Kind, key: dword, encodes: bool, reading: Option<Snapshot>, readAt: int)
    | StoreReason(id: nat, reason: string)              // the MarkFinal of reject
    | Again(task: nat)                                  // a second dispatch of the same command
    | Lock(task: nat)
    | Deliver(task: nat, delivered: bool)
    | Conclude(task: nat, reason: string, now: int, timeoutAt: int)
    | Arrive(device: nat, replyKey: dword)              // the SELECT by key, for a non-zero key
    | FallBack(reply: nat)                              // the SELECT of the oldest open command
    | Settle(reply: nat, success: bool, response: string, now: int)
    | Sweep(now: int)

  const INIT := State([], [], [], [])

  function At(s: State, task: nat, stage: Stage): State
    requires task < |s.tasks|
  {
    s.(tasks := s.tasks[task := s.tasks[task].(stage := stage)])
  }

  function Move(s: State, reply: nat, stage: Lookup): State
    requires reply < |s.incoming|
  {
    s.(incoming := s.incoming[reply := s.incoming[reply].(stage := stage)])
  }

  /** One event; an event whose actor is not at that point changes nothing. */
  function Apply(limits: Limits, s: State, e: Event): State {
    match e
    case Request(device, command, key, encodes, reading, readAt) =>
      if command.EngineCut? && EngineCutBlocked(limits, reading, readAt).Some? then
        s.(rows := Create(s.rows, device, command, Rejected, key))
      else if !encodes then s
      else
        s.(rows := Create(s.rows, device, command, Pending, key),
           tasks := s.tasks + [Task(|s.rows|, reading, readAt, Queued)])
    case StoreReason(id, reason) =>
      if id < |s.rows| && s.rows[id].status.Rejected?
      then s.(rows := MarkFinal(s.rows, id, Rejected, reason).rows)
      else s
    case Again(task) =>
      if task < |s.tasks| then s.(tasks := s.tasks + [s.tasks[task].(stage := Queued)]) else s
    case Lock(task) =>
      if task < |s.tasks| && s.tasks[task].stage.Queued? then
        var u := MarkSending(s.rows, s.tasks[task].id);
        At(s, task, if u.hit then Locked else Ended(false)).(rows := u.rows)
      else s
    case Deliver(task, delivered) =>
      if task < |s.tasks| && s.tasks[task].stage.Locked?
      then At(s, task, Answered(delivered)).(wire := s.wire + [task])
      else s
    case Conclude(task, reason, now, timeoutAt) =>
      if task < |s.tasks| && s.tasks[task].stage.Answered? then
        var id := s.tasks[task].id;
        var u := if s.tasks[task].stage.delivered then MarkSent(s.rows, id, now, timeoutAt)
                 else MarkFinal(s.rows, id, Failed, reason);
        At(s, task, Ended(true)).(rows := u.rows)
      else s
    case Arrive(device, key) =>
      var exact := if key != 0 then FindOpenByCorrelation(s.rows, device, key) else None;
      s.(incoming := s.incoming + [Incoming(device, key, if exact.Some? then Matched(exact.value) else Unmatched)])
    case FallBack(reply) =>
      if reply < |s.incoming| && s.incoming[reply].stage.Unmatched? then
        var oldest := FindOldestOpen(s.rows, s.incoming[reply].device);
        Move(s, reply, if oldest.Some? then Matched(oldest.value) else Over)
      else s
    case Settle(reply, success, response, now) =>
      if reply < |s.incoming| && s.incoming[reply].stage.Matched? then
        var r := s.incoming[reply];
        Move(s, reply, Over).(rows := SettleReply(s.rows, r.stage.id, success, Annotate(r.key, response), now).rows)
      else s
    case Sweep(now) =>
      s.(rows := ExpireTimedOut(s.rows, now))
  }

  /** The state after a run from the empty table. */
  function Run(limits: Limits, events: seq<Event>): State {
    if events == [] then INIT
    else Apply(limits, Run(limits, events[..|events| - 1]), events[|events| - 1])
  }

  // ---- What every reachable state satisfies ----

  /** A row's time stamps tell which statuses it has been through. */
  predicate RowSound(r: Row) {
    && (r.timeoutAt.Some? <==> r.sentAt.Some?)
    && (r.status.Pending? || r.status.Sending? || r.status.Rejected? ==> r.sentAt.None?)
    && (r.status.Sent? || r.status.Timeout? ==> r.sentAt.Some?)
    && (r.status.Rejected? ==> r.error == "" && r.response == "")
  }

  ghost predicate RowsSound(rows: Table) {
    forall i | 0 <= i < |rows| :: RowSound(rows[i])
  }

  /** A task belongs to a row that was not rejected, and to a safe reading if it cuts an engine. */
  predicate TaskSound(limits: Limits, rows: Table, t: Task) {
    && t.id < |rows|
    && !rows[t.id].status.Rejected?
    && (PastLock(t.stage) ==> !rows[t.id].status.Pending?)
    && (rows[t.id].command.EngineCut? ==> Safe(limits, t.reading, t.readAt))
  }

  ghost predicate TasksSound(limits: Limits, rows: Table, tasks: seq<Task>) {
    && (forall k | 0 <= k < |tasks| :: TaskSound(limits, rows, tasks[k]))
    && (forall j, k | 0 <= j < k < |tasks| && PastLock(tasks[j].stage) && PastLock(tasks[k].stage) ::
          tasks[j].id != tasks[k].id)
  }

  ghost predicate WireSound(tasks: seq<Task>, wire: seq<nat>) {
    && (forall k | 0 <= k < |wire| ::
          wire[k] < |tasks| && PastLock(tasks[wire[k]].stage) && !tasks[wire[k]].stage.Locked?)
    && (forall j, k | 0 <= j < k < |wire| :: wire[j] != wire[k])
  }

  /** A reply is only ever matched with a command of its own device. */
  predicate LookupSound(rows: Table, r: Incoming) {
    r.stage.Matched? ==> r.stage.id < |rows| && rows[r.stage.id].device == r.device
  }

  ghost predicate Inv(limits: Limits, s: State) {
    && RowsSound(s.rows)
    && TasksSound(limits, s.rows, s.tasks)
    && WireSound(s.tasks, s.wire)
    && forall k | 0 <= k < |s.incoming| :: LookupSound(s.rows, s.incoming[k])
  }

  /** Rows that advance, and never into REJECTED, keep every task sound. */
  lemma TasksFollowRows(limits: Limits, before: Table, after: Table, tasks: seq<Task>)
    requires TasksSound(limits, before, tasks) && TableAdvances(before, after)
    requires forall i | 0 <= i < |before| :: after[i].status.Rejected? ==> before[i].status.Rejected?
    ensures TasksSound(limits, after, tasks)
  {
    forall k | 0 <= k < |tasks| ensures TaskSound(limits, after, tasks[k]) {
      assert TaskSound(limits, before, tasks[k]);
      assert RowAdvances(before[tasks[k].id], after[tasks[k].id]);
    }
  }

  lemma RowsStaySound(rows: Table, id: nat, now: int, later: int, text: string)
    requires RowsSound(rows)
    ensures RowsSound(MarkSending(rows, id).rows) && RowsSound(MarkSent(rows, id, now, later).rows)
    ensures RowsSound(MarkAcknowledged(rows, id, now, text).rows) && RowsSound(MarkFinal(rows, id, Failed, text).rows)
    ensures RowsSound(ExpireTimedOut(rows, now))
  {
  }

  /** Each event advances the table and never rejects an existing row. */
  lemma EventAdvances(limits: Limits, s: State, e: Event)
    ensures TableAdvances(s.rows, Apply(limits, s, e).rows)
    ensures forall i | 0 <= i < |s.rows| :: Apply(limits, s, e).rows[i].status.Rejected? ==> s.rows[i].status.Rejected?
  {
    hide TableAdvances, EngineCutBlocked, MatchReply;
    NothingAdvances(s.rows);
    match e
    case Request(device, command, key, _, _, _) =>
      CreateAdvances(s.rows, device, command, Rejected, key);
      CreateAdvances(s.rows, device, command, Pending, key);
    case StoreReason(_, _) =>
    case Again(_) =>
    case Lock(task) =>
      if task < |s.tasks| {
        StatementsAdvance(s.rows, s.tasks[task].id, 0, 0, "", Failed);
      }
    case Deliver(_, _) =>
    case Conclude(task, reason, now, timeoutAt) =>
      if task < |s.tasks| {
        StatementsAdvance(s.rows, s.tasks[task].id, now, timeoutAt, reason, Failed);
      }
    case Arrive(_, _) =>
    case FallBack(_) =>
    case Settle(reply, _, response, now) =>
      if reply < |s.incoming| && s.incoming[reply].stage.Matched? {
        StatementsAdvance(s.rows, s.incoming[reply].stage.id, now, 0, Annotate(s.incoming[reply].key, response), Failed);
      }
    case Sweep(now) =>
      ExpireAdvances(s.rows, now);
  }

  lemma EventKeepsInv(limits: Limits, s: State, e: Event)
    requires Inv(limits, s)
    ensures Inv(limits, Apply(limits, s, e))
  {
    hide Inv, Apply;
    match e
    case Request(_, _, _, _, _, _) => RequestKeepsInv(limits, s, e);
    case StoreReason(_, _) => TaskEventKeepsInv(limits, s, e);
    case Again(_) => TaskEventKeepsInv(limits, s, e);
    case Lock(_) => LockKeepsInv(limits, s, e);
    case Deliver(_, _) => TaskEventKeepsInv(limits, s, e);
    case Conclude(_, _, _, _) => ConcludeKeepsInv(limits, s, e);
    case Arrive(_, _) => LookupKeepsInv(limits, s, e);
    case FallBack(_) => LookupKeepsInv(limits, s, e);
    case Settle(_, _, _, _) => SettleKeepsInv(limits, s, e);
    case Sweep(_) => SettleKeepsInv(limits, s, e);
  }

  lemma RequestKeepsInv(limits: Limits, s: State, e: Event)
    requires Inv(limits, s) && e.Request?
    ensures Inv(limits, Apply(limits, s, e))
  {
    EventAdvances(limits, s, e);
    TasksFollowRows(limits, s.rows, Apply(limits, s, e).rows, s.tasks);
    BlockedIffUnsafe(limits, e.reading, e.readAt);
    hide EngineCutBlocked, Safe, TableAdvances;
  }

  /** Events that leave the table alone. */
  lemma TaskEventKeepsInv(limits: Limits, s: State, e: Event)
    requires Inv(limits, s) && (e.StoreReason? || e.Again? || e.Deliver?)
    ensures Inv(limits, Apply(limits, s, e))
  {
    hide Safe;
  }

  lemma LookupKeepsInv(limits: Limits, s: State, e: Event)
    requires Inv(limits, s) && (e.Arrive? || e.FallBack?)
    ensures Inv(limits, Apply(limits, s, e))
  {
    hide Safe, RowsSound, TasksSound, WireSound, FindOpenByCorrelation;
  }

  lemma LockKeepsInv(limits: Limits, s: State, e: Event)
    requires Inv(limits, s) && e.Lock?
    ensures Inv(limits, Apply(limits, s, e))
  {
    if e.task < |s.tasks| {
      var after := Apply(limits, s, e);
      EventAdvances(limits, s, e);
      RowsStaySound(s.rows, s.tasks[e.task].id, 0, 0, "");
      TasksFollowRows(limits, s.rows, after.rows, s.tasks);
      hide Safe, RowsSound, TableAdvances;
    }
  }

  lemma ConcludeKeepsInv(limits: Limits, s: State, e: Event)
    requires Inv(limits, s) && e.Conclude?
    ensures Inv(limits, Apply(limits, s, e))
  {
    if e.task < |s.tasks| {
      var after := Apply(limits, s, e);
      EventAdvances(limits, s, e);
      RowsStaySound(s.rows, s.tasks[e.task].id, e.now, e.timeoutAt, e.reason);
      TasksFollowRows(limits, s.rows, after.rows, s.tasks);
      hide Safe, RowsSound, TableAdvances;
    }
  }

  lemma SettleKeepsInv(limits: Limits, s: State, e: Event)
    requires Inv(limits, s) && (e.Settle? || e.Sweep?)
    ensures Inv(limits, Apply(limits, s, e))
  {
    var after := Apply(limits, s, e);
    EventAdvances(limits, s, e);
    TasksFollowRows(limits, s.rows, after.rows, s.tasks);
    if e.Sweep? {
      RowsStaySound(s.rows, 0, e.now, 0, "");
    } else if e.reply < |s.incoming| && s.incoming[e.reply].stage.Matched? {
      RowsStaySound(s.rows, s.incoming[e.reply].stage.id, e.now, 0, Annotate(s.incoming[e.reply].key, e.response));
    }
    hide Safe, RowsSound, TableAdvances;
  }

  lemma {:induction false} RunKeepsInv(limits: Limits, events: seq<Event>)
    ensures Inv(limits, Run(limits, events))
  {
    if events != [] {
      RunKeepsInv(limits, events[..|events| - 1]);
      EventKeepsInv(limits, Run(limits, events[..|events| - 1]), events[|events| - 1]);
    }
  }

  // ---- The guarantees ----

  /** Between any two moments of a run, ranks never fall and final rows never change. */
  lemma {:induction false} RowsOnlyAdvance(limits: Limits, events: seq<Event>, k: nat)
    requires k <= |events|
    ensures TableAdvances(Run(limits, events[..k]).rows, Run(limits, events).rows)
    decreases |events| - k
  {
    if k == |events| {
      assert events[..k] == events;
      NothingAdvances(Run(limits, events).rows);
    } else {
      assert events[..k + 1][..k] == events[..k];
      EventAdvances(limits, Run(limits, events[..k]), events[k]);
      RowsOnlyAdvance(limits, events, k + 1);
      AdvancesTransitive(
        Run(limits, events[..k]).rows, Run(limits, events[..k + 1]).rows, Run(limits, events).rows);
    }
  }

  /** The bytes of a command reach the sender at most once, however often it is dispatched. */
  lemma SentAtMostOnce(limits: Limits, events: seq<Event>, j: nat, k: nat)
    requires j < k < |Run(limits, events).wire|
    ensures var s := Run(limits, events);
      s.wire[j] < |s.tasks| && s.wire[k] < |s.tasks| && s.tasks[s.wire[j]].id != s.tasks[s.wire[k]].id
  {
    RunKeepsInv(limits, events);
  }

  /** Whatever engine cut reached the sender, its own Send saw a fresh position at a safe speed. */
  lemma CutOnlyWhenSafe(limits: Limits, events: seq<Event>, k: nat)
    requires k < |Run(limits, events).wire|
    ensures var s := Run(limits, events);
      && s.wire[k] < |s.tasks| && s.tasks[s.wire[k]].id < |s.rows|
      && var t := s.tasks[s.wire[k]];
        s.rows[t.id].command.EngineCut? ==>
          && t.reading.Some? && t.reading.value.hasPosition
          && t.readAt - t.reading.value.timestamp <= limits.maxPositionAge && t.reading.value.speed <= limits.maxSpeed
  {
    RunKeepsInv(limits, events);
  }

  /** A refused cut is rejected from the moment it exists: never revived, never sent, no reason kept. */
  lemma RefusedForever(limits: Limits, events: seq<Event>, k: nat)
    requires k < |events| && events[k].Request? && events[k].command.EngineCut?
    requires var reading := events[k].reading;
      || reading.None? || !reading.value.hasPosition
      || events[k].readAt - reading.value.timestamp > limits.maxPositionAge || reading.value.speed > limits.maxSpeed
    ensures var id, s := |Run(limits, events[..k]).rows|, Run(limits, events);
      && id < |s.rows| && s.rows[id].status.Rejected? && s.rows[id].error == ""
      && forall w | 0 <= w < |s.wire| :: s.wire[w] < |s.tasks| && s.tasks[s.wire[w]].id != id
  {
    var id := |Run(limits, events[..k]).rows|;
    BlockedIffUnsafe(limits, events[k].reading, events[k].readAt);
    assert events[..k + 1][..k] == events[..k];
    assert Run(limits, events[..k + 1]).rows[id].status.Rejected?;
    RowsOnlyAdvance(limits, events, k + 1);
    RunKeepsInv(limits, events);
  }

  /** A reply that settles a row before its dispatch concludes is not overwritten by MarkSent. */
  lemma EarlyReplyStands(limits: Limits, events: seq<Event>, k: nat, id: nat)
    requires k <= |events| && id < |Run(limits, events[..k]).rows|
    requires Terminal(Run(limits, events[..k]).rows[id].status)
    ensures id < |Run(limits, events).rows| && Run(limits, events).rows[id] == Run(limits, events[..k]).rows[id]
  {
    RowsOnlyAdvance(limits, events, k);
  }

  /** Right after a sweep no SENT row is past its deadline. */
  lemma SweepLeavesNoneOverdue(limits: Limits, events: seq<Event>, now: int)
    ensures var rows := Run(limits, events + [Sweep(now)]).rows;
      forall i | 0 <= i < |rows| && rows[i].status.Sent? ::
        rows[i].timeoutAt.Some? && rows[i].timeoutAt.value >= now
  {
    assert (events + [Sweep(now)])[..|events|] == events;
    RunKeepsInv(limits, events);
  }

  /** A row times out only after having been SENT at some earlier moment of the run. */
  lemma TimeoutWasSent(limits: Limits, events: seq<Event>, id: nat) returns (k: nat)
    requires id < |Run(limits, events).rows| && Run(limits, events).rows[id].status.Timeout?
    ensures k < |events|
    ensures id < |Run(limits, events[..k]).rows| && Run(limits, events[..k]).rows[id].status.Sent?
  {
    RunKeepsInv(limits, events);
    k := StampedWasSent(limits, events, id);
    assert events[..|events|] == events;
  }

  lemma {:induction false} StampedWasSent(limits: Limits, events: seq<Event>, id: nat) returns (k: nat)
    requires id < |Run(limits, events).rows| && Run(limits, events).rows[id].sentAt.Some?
    ensures k <= |events|
    ensures id < |Run(limits, events[..k]).rows| && Run(limits, events[..k]).rows[id].status.Sent?
  {
    hide Apply;
    var n := |events| - 1;
    var before := Run(limits, events[..n]);
    if id < |before.rows| && before.rows[id].sentAt.Some? {
      k := StampedWasSent(limits, events[..n], id);
      assert events[..n][..k] == events[..k];
    } else {
      k := |events|;
      assert events[..k] == events;
      OnlyMarkSentStamps(limits, before, events[n], id);
    }
  }

  lemma OnlyMarkSentStamps(limits: Limits, s: State, e: Event, id: nat)
    requires id < |Apply(limits, s, e).rows| && Apply(limits, s, e).rows[id].sentAt.Some?
    requires id < |s.rows| ==> s.rows[id].sentAt.None?
    ensures Apply(limits, s, e).rows[id].status.Sent?
  {
  }

  /** Whatever happened between its two lookups and its update, a reply settles a command of its own device. */
  lemma ReplyKeepsToItsDevice(limits: Limits, events: seq<Event>, k: nat)
    requires k < |Run(limits, events).incoming|
    ensures var s := Run(limits, events);
      s.incoming[k].stage.Matched? ==>
        s.incoming[k].stage.id < |s.rows| && s.rows[s.incoming[k].stage.id].device == s.incoming[k].device
  {
    hide Run;
    RunKeepsInv(limits, events);
    assert LookupSound(Run(limits, events).rows, Run(limits, events).incoming[k]);
  }

  /** With nothing in between, the two lookups find what HandleAck is specified to find. */
  lemma LookupsAreMatchReply(limits: Limits, s: State, device: nat, key: dword)
    ensures var n, found := |s.incoming|, MatchReply(s.rows, device, key);
      var after := Apply(limits, Apply(limits, s, Arrive(device, key)), FallBack(n));
      && after.rows == s.rows && |after.incoming| == n + 1
      && after.incoming[n] == Incoming(device, key, if found.Some? then Matched(found.value) else Over)
  {
  }

  /** Over any run: what one more sweep does to each row, deadline and clock compared. */
  lemma SweepExactly(limits: Limits, events: seq<Event>, now: int, i: nat)
    requires i < |Run(limits, events).rows|
    ensures var swept := Run(limits, events + [Sweep(now)]).rows;
      && |swept| == |Run(limits, events).rows|
      && var before, after := Run(limits, events).rows[i], swept[i];
         if (before.status == Sending || before.status == Sent) && before.timeoutAt.Some? && before.timeoutAt.value < now
         then after == before.(status := Timeout, error := TIMEOUT_REASON)
         else after == before
  {
    hide ExpireTimedOut;
    var all := events + [Sweep(now)];
    assert all[..|all| - 1] == events && all[|all| - 1] == Sweep(now);
    assert Run(limits, all) == Apply(limits, Run(limits, events), Sweep(now));
    ExpiresExactly(Run(limits, events).rows, now, i);
  }

  /** Every timed-out row was closed by a sweep of the run whose clock was past the row's deadline. */
  lemma {:induction false} TimeoutWasOverdue(limits: Limits, events: seq<Event>, id: nat) returns (k: nat)
    requires id < |Run(limits, events).rows| && Run(limits, events).rows[id].status == Timeout
    ensures k < |events| && events[k].Sweep?
    ensures id < |Run(limits, events[..k]).rows|
    ensures var before, row := Run(limits, events[..k]).rows[id], Run(limits, events).rows[id];
      && (before.status == Sending || before.status == Sent) && before.timeoutAt == row.timeoutAt
      && row.timeoutAt.Some? && row.timeoutAt.value < events[k].now
  {
    hide Apply;
    var n := |events| - 1;
    RunNothing(limits);
    var s := Run(limits, events[..n]);
    if id < |s.rows| && s.rows[id].status == Timeout {
      k := TimeoutWasOverdue(limits, events[..n], id);
      assert events[..n][..k] == events[..k];
      EventAdvances(limits, s, events[n]);
      assert RowAdvances(s.rows[id], Run(limits, events).rows[id]);
    } else {
      k := n;
      OnlySweepTimesOut(limits, s, events[n], id);
    }
  }

  lemma OnlySweepTimesOut(limits: Limits, s: State, e: Event, id: nat)
    requires id < |Apply(limits, s, e).rows| && Apply(limits, s, e).rows[id].status == Timeout
    requires id < |s.rows| ==> s.rows[id].status != Timeout
    ensures e.Sweep? && id < |s.rows|
    ensures var before, row := s.rows[id], Apply(limits, s, e).rows[id];
      && (before.status == Sending || before.status == Sent) && before.timeoutAt == row.timeoutAt
      && row.timeoutAt.Some? && row.timeoutAt.value < e.now
  {
    hide EngineCutBlocked, MatchReply;
  }

  /** An undisturbed command: created, locked, handed over, stamped. */
  lemma CommandIsSent(limits: Limits, device: nat, command: Kind, key: dword, reading: Option<Snapshot>, at: int, now: int, deadline: int)
    requires command.EngineCut? ==>
      reading.Some? && reading.value.hasPosition
      && at - reading.value.timestamp <= limits.maxPositionAge && reading.value.speed <= limits.maxSpeed
    ensures var s := Run(limits, Dispatch(device, command, key, reading, at, now, deadline));
      s.rows == [Row(device, command, Sent, key, Some(now), None, Some(deadline), "", "")] && s.wire == [0] && s.incoming == []
  {
    hide Run, Apply;
    var row, task := Row(device, command, Pending, key, None, None, None, "", ""), Task(0, reading, at, Queued);
    var a, b, c, d := Request(device, command, key, true, reading, at), Lock(0), Deliver(0, true), Conclude(0, "", now, deadline);
    RunNothing(limits);
    RunMore(limits, [], a);
    RunMore(limits, [a], b);
    RunMore(limits, [a, b], c);
    RunMore(limits, [a, b, c], d);
    assert [] + [a] == [a] && [a] + [b] == [a, b] && [a, b] + [c] == [a, b, c] && [a, b, c] + [d] == [a, b, c, d];
    Requested(limits, row, task);
    DispatchedAlone(limits, row, task, now, deadline);
  }

  lemma Requested(limits: Limits, row: Row, task: Task)
    requires row == Row(row.device, row.command, Pending, row.key, None, None, None, "", "")
    requires task == Task(0, task.reading, task.readAt, Queued)
    requires row.command.EngineCut? ==> EngineCutBlocked(limits, task.reading, task.readAt).None?
    ensures Apply(limits, INIT, Request(row.device, row.command, row.key, true, task.reading, task.readAt)) == State([row], [task], [], [])
  {
    hide EngineCutBlocked;
    assert [] + [task] == [task] && [] + [row] == [row];
  }

  lemma DispatchedAlone(limits: Limits, row: Row, task: Task, now: int, deadline: int)
    requires row.status == Pending && task == Task(0, task.reading, task.readAt, Queued)
    ensures var sending, sent := row.(status := Sending), row.(status := Sent, sentAt := Some(now), timeoutAt := Some(deadline));
      && Apply(limits, State([row], [task], [], []), Lock(0)) == State([sending], [task.(stage := Locked)], [], [])
      && Apply(limits, State([sending], [task.(stage := Locked)], [], []), Deliver(0, true)) ==
           State([sending], [task.(stage := Answered(true))], [], [0])
      && Apply(limits, State([sending], [task.(stage := Answered(true))], [], [0]), Conclude(0, "", now, deadline)) ==
           State([sent], [task.(stage := Ended(true))], [], [0])
  {
    hide EngineCutBlocked, MatchReply, MarkFinal, FindOpenByCorrelation, FindOldestOpen, ExpireTimedOut;
    assert [] + [0] == [0];
  }

  function Dispatch(device: nat, command: Kind, key: dword, reading: Option<Snapshot>, at: int, now: int, deadline: int): seq<Event> {
    [Request(device, command, key, true, reading, at), Lock(0), Deliver(0, true), Conclude(0, "", now, deadline)]
  }

  lemma RunMore(limits: Limits, events: seq<Event>, e: Event)
    ensures Run(limits, events + [e]) == Apply(limits, Run(limits, events), e)
  {
    hide Apply;
    assert (events + [e])[..|events|] == events;
  }

  /** Its own reply then closes it with the response, marked as a guess when it carried no key. */
  lemma CommandIsAnswered(limits: Limits, device: nat, command: Kind, key: dword, reading: Option<Snapshot>, at: int,
                          now: int, deadline: int, replyKey: dword, success: bool, response: string, later: int)
    requires command.EngineCut? ==>
      reading.Some? && reading.value.hasPosition
      && at - reading.value.timestamp <= limits.maxPositionAge && reading.value.speed <= limits.maxSpeed
    requires replyKey == 0 || replyKey == key
    ensures var events := Dispatch(device, command, key, reading, at, now, deadline)
        + [Arrive(device, replyKey)] + [FallBack(0)] + [Settle(0, success, response, later)];
      var text := if replyKey == 0 then "[correlação por ordem de envio] " + response else response;
      Run(limits, events).rows == [
        if success then Row(device, command, Acknowledged, key, Some(now), Some(later), Some(deadline), text, "")
        else Row(device, command, Failed, key, Some(now), None, Some(deadline), "", text)]
  {
    hide Dispatch, Run;
    var sent := Dispatch(device, command, key, reading, at, now, deadline);
    CommandIsSent(limits, device, command, key, reading, at, now, deadline);
    RunMore(limits, sent, Arrive(device, replyKey));
    RunMore(limits, sent + [Arrive(device, replyKey)], FallBack(0));
    RunMore(limits, sent + [Arrive(device, replyKey)] + [FallBack(0)], Settle(0, success, response, later));
    LookupsAreMatchReply(limits, Run(limits, sent), device, replyKey);
    OldestInFlightIff(Run(limits, sent).rows, device, 0);
    if replyKey != 0 {
      NewestOpenIff(Run(limits, sent).rows, device, key, 0);
    }
  }

  /** A run after which a reply with key 9 settles the command with key 7, and is audited as exact. */
  lemma ForeignKeySettles(limits: Limits)
    ensures var s := Run(limits, [Request(1, OtherCommand("WHERE"), 7, true, None, 0), Lock(0), Arrive(1, 9), FallBack(0)]);
      && |s.incoming| == 1 && s.incoming[0] == Incoming(1, 9, Matched(0))
      && |s.rows| == 1 && s.rows[0].key == 7 && MatchReply(s.rows, 1, 9) == Some(0)
  {
    var a, b, c, d := Request(1, OtherCommand("WHERE"), 7, true, None, 0), Lock(0), Arrive(1, 9), FallBack(0);
    assert [a, b, c, d][..3] == [a, b, c] && [a, b, c][..2] == [a, b] && [a, b][..1] == [a] && [a][..0] == [];
    RunNothing(limits);
    var s1 := Run(limits, [a]);
    assert s1 == Apply(limits, INIT, a);
    var s2 := Run(limits, [a, b]);
    assert s2 == Apply(limits, s1, b);
    var s3 := Run(limits, [a, b, c]);
    assert s3 == Apply(limits, s2, c);
    assert Run(limits, [a, b, c, d]) == Apply(limits, s3, d);
  }

  lemma RunNothing(limits: Limits)
    ensures Run(limits, []) == INIT
  {
  }
}
