/** commands/service.go: the safety rule, dispatch, reply matching and the timeout sweep. */
module CommandService {
  import opened Bytes
  import opened Wrappers
  import opened CommandStore

  /** Snapshot of the last position; times are integers of one unit. */
  datatype Snapshot = Snapshot(hasPosition: bool, speed: real, timestamp: int)

  datatype Limits = Limits(maxPositionAge: int, maxSpeed: real)

  datatype Refusal = Unreadable | NoPosition | TooOld | TooFast

  /** engineCutBlocked; `reading` is None when the snapshot could not be read. */
  function EngineCutBlocked(limits: Limits, reading: Option<Snapshot>, now: int): Option<Refusal> {
    match reading
    case None => Some(Unreadable)
    case Some(s) =>
      if !s.hasPosition then Some(NoPosition)
      else if now - s.timestamp > limits.maxPositionAge then Some(TooOld)
      else if s.speed > limits.maxSpeed then Some(TooFast)
      else None
  }

  /** The refusal in words, without the figures the source formats into it. */
  function Describe(refusal: Refusal): string {
    match refusal
    case Unreadable => "não foi possível ler a última posição do veículo"
    case NoPosition => "não há posição conhecida para este veículo"
    case TooOld => "última posição acima do limite de idade"
    case TooFast => "veículo acima do limite de segurança"
  }

  /** A reading on which cutting the engine is safe. */
  predicate Safe(limits: Limits, reading: Option<Snapshot>, now: int) {
    && reading.Some? && reading.value.hasPosition
    && now - reading.value.timestamp <= limits.maxPositionAge
    && reading.value.speed <= limits.maxSpeed
  }

  /** The command HandleAck settles on. */
  function MatchReply(rows: Table, device: nat, key: dword): Option<nat> {
    var exact := if key != 0 then FindOpenByCorrelation(rows, device, key) else None;
    if exact.Some? then exact else FindOldestOpen(rows, device)
  }

  const ORDER_PREFIX := "[correlação por ordem de envio] "

  function Annotate(key: dword, response: string): string {
    if key == 0 then ORDER_PREFIX + response else response
  }

  /** What the audit trail says about one settled reply. */
  datatype AuditEntry = AuditEntry(id: nat, result: Status, exactMatch: bool)

  datatype EngineEvent = EngineCutAck | EngineResumeAck

  function AckEvent(command: Kind): Option<EngineEvent> {
    match command
    case EngineCut => Some(EngineCutAck)
    case EngineResume => Some(EngineResumeAck)
    case OtherCommand(_) => None
  }

  function SettleReply(rows: Table, id: nat, success: bool, response: string, now: int): Update {
    if success then MarkAcknowledged(rows, id, now, response) else MarkFinal(rows, id, Failed, response)
  }

  /** HandleAck when nothing else touches the table meanwhile. */
  function Reply(rows: Table, device: nat, key: dword, success: bool, response: string, now: int): Table {
    var found := MatchReply(rows, device, key);
    if found.None? then rows else SettleReply(rows, found.value, success, Annotate(key, response), now).rows
  }

  /** The service object over its repository. */
  class Service {
    const repo: Repository
    const limits: Limits
    var audit: seq<AuditEntry>
    var events: seq<EngineEvent>

    constructor (repo: Repository, limits: Limits)
      ensures this.repo == repo && this.limits == limits && audit == [] && events == []
    {
      this.repo := repo;
      this.limits := limits;
      audit := [];
      events := [];
    }

    /** reject: the row is created REJECTED, and storing the reason afterwards never succeeds. */
    method Reject(device: nat, command: Kind, key: dword, reason: string) returns (id: nat, stored: bool)
      modifies repo
      ensures repo.rows == Create(old(repo.rows), device, command, Rejected, key)
      ensures id == |old(repo.rows)| && repo.rows[id].error == "" && !stored
    {
      id := repo.Insert(device, command, Rejected, key, reason);
      stored := repo.SetFinal(id, Rejected, reason);
    }

    /**
      Send up to the point where bytes would be written: a refused cut leaves a rejected row,
      an accepted command leaves a locked one. `encodes` is whether the protocol can encode it.
     */
    method Prepare(device: nat, command: Kind, key: dword, encodes: bool, reading: Option<Snapshot>, now: int)
        returns (locked: Option<nat>)
      modifies repo
      ensures command.EngineCut? && !Safe(limits, reading, now)
        ==> locked.None? && repo.rows == Create(old(repo.rows), device, command, Rejected, key)
      ensures (command.EngineCut? ==> Safe(limits, reading, now)) && !encodes
        ==> locked.None? && repo.rows == old(repo.rows)
      ensures (command.EngineCut? ==> Safe(limits, reading, now)) && encodes
        ==> (
          && locked == Some(|old(repo.rows)|)
          && repo.rows == MarkSending(Create(old(repo.rows), device, command, Pending, key), |old(repo.rows)|).rows)
    {
      if command.EngineCut? {
        var refusal := EngineCutBlocked(limits, reading, now);
        if refusal.Some? {
          var _, _ := Reject(device, command, key, Describe(refusal.value));
          return None;
        }
      }
      if !encodes {
        return None;
      }
      var id := repo.Insert(device, command, Pending, key, "");
      var hit := repo.Lock(id);
      return Some(id);
    }

    /** The rest of dispatch, once the sender has answered. */
    method Conclude(id: nat, delivered: bool, reason: string, now: int, timeoutAt: int) returns (hit: bool)
      modifies repo
      ensures Update(repo.rows, hit) ==
        if delivered then MarkSent(old(repo.rows), id, now, timeoutAt) else MarkFinal(old(repo.rows), id, Failed, reason)
    {
      if delivered {
        hit := repo.SetSent(id, now, timeoutAt);
      } else {
        hit := repo.SetFinal(id, Failed, reason);
      }
    }

    method HandleAck(device: nat, key: dword, response: string, success: bool, now: int)
      modifies this, repo
      ensures repo.rows == Reply(old(repo.rows), device, key, success, response, now)
      ensures var found := MatchReply(old(repo.rows), device, key);
        if found.None? then audit == old(audit) && events == old(events)
        else
          && audit == old(audit) + [AuditEntry(found.value, if success then Acknowledged else Failed, key != 0)]
          && var command := old(repo.rows)[found.value].command;
             events == old(events) + (
               if command == EngineCut then [EngineCutAck] else if command == EngineResume then [EngineResumeAck] else [])
    {
      var exact := key != 0;
      var found: Option<nat> := None;
      if exact {
        found := FindOpenByCorrelation(repo.rows, device, key);
      }
      if !exact || found.None? {
        found := FindOldestOpen(repo.rows, device);
      }
      if found.None? {
        return;
      }
      var text := if exact then response else ORDER_PREFIX + response;
      var hit: bool;
      if success {
        hit := repo.SetAcknowledged(found.value, now, text);
      } else {
        hit := repo.SetFinal(found.value, Failed, text);
      }
      if !hit {
        return;
      }
      var row := repo.rows[found.value];
      audit := audit + [AuditEntry(found.value, row.status, exact)];
      match AckEvent(row.command) {
        case Some(e) =>
          events := events + [e];
        case None =>
      }
    }
  }

  // ---- The safety rule ----

  lemma BlockedIffUnsafe(limits: Limits, reading: Option<Snapshot>, now: int)
    ensures EngineCutBlocked(limits, reading, now).None? <==> Safe(limits, reading, now)
  {
  }

  // ---- Reply matching ----

  /** A reply changes at most one row, of the replying device, and leaves that row final. */
  lemma ReplyTouchesOneRow(rows: Table, device: nat, key: dword, success: bool, response: string, now: int)
    ensures var after, found := Reply(rows, device, key, success, response, now), MatchReply(rows, device, key);
      && |after| == |rows|
      && (forall i | 0 <= i < |rows| && Some(i) != found :: after[i] == rows[i])
      && (found.Some? ==>
            && rows[found.value].device == device && !Terminal(rows[found.value].status)
            && after[found.value].status == (if success then Acknowledged else Failed))
  {
  }

  /** A key carried by exactly one open command of the device closes that command. */
  lemma UniqueKeyCloses(rows: Table, device: nat, key: dword, id: nat)
    requires key != 0 && id < |rows| && OpenWithKey(rows[id], device, key)
    requires forall i | 0 <= i < |rows| && i != id :: !OpenWithKey(rows[i], device, key)
    ensures MatchReply(rows, device, key) == Some(id)
  {
    var found := FindOpenByCorrelation(rows, device, key);
    assert OpenWithKey(rows[id], device, key);
  }

  /** The audit's exactMatch is the truth exactly when the key is zero or some open row carries it. */
  lemma ExactMatchHonestIff(rows: Table, device: nat, key: dword)
    requires MatchReply(rows, device, key).Some?
    ensures (key != 0 ==> rows[MatchReply(rows, device, key).value].key == key)
      <==> key == 0 || exists i :: 0 <= i < |rows| && OpenWithKey(rows[i], device, key)
  {
    var id := MatchReply(rows, device, key).value;
    if key != 0 && rows[id].key == key {
      assert OpenWithKey(rows[id], device, key);
    }
  }

  /** The in-flight commands of a device from row `from` on, oldest first. */
  function InFlightIds(rows: Table, device: nat, from: nat): (ids: seq<nat>)
    requires from <= |rows|
    ensures forall k | 0 <= k < |ids| :: from <= ids[k] < |rows|
    ensures forall j, k | 0 <= j < k < |ids| :: ids[j] < ids[k]
    decreases |rows| - from
  {
    if from == |rows| then []
    else
      var rest := InFlightIds(rows, device, from + 1);
      if InFlight(rows[from], device) then [from] + rest else rest
  }

  datatype Answer = Answer(success: bool, response: string, now: int)

  function KeylessReplies(rows: Table, device: nat, answers: seq<Answer>): Table
    decreases |answers|
  {
    if answers == [] then rows
    else
      var a := answers[0];
      KeylessReplies(Reply(rows, device, 0, a.success, a.response, a.now), device, answers[1..])
  }

  /** The row a keyless answer turns an in-flight row into. */
  function Closed(row: Row, a: Answer): Row {
    if a.success
    then row.(status := Acknowledged, acknowledgedAt := Some(a.now), response := ORDER_PREFIX + a.response)
    else row.(status := Failed, error := ORDER_PREFIX + a.response)
  }

  lemma {:induction false} IdsSkip(rows: Table, device: nat, from: nat, to: nat)
    requires from <= to <= |rows| && forall i | from <= i < to :: !InFlight(rows[i], device)
    ensures InFlightIds(rows, device, from) == InFlightIds(rows, device, to)
    decreases |rows| - from
  {
    if from < to {
      IdsSkip(rows, device, from + 1, to);
    }
  }

  lemma {:induction false} IdsAgree(rows: Table, other: Table, device: nat, from: nat)
    requires from <= |rows| == |other| && forall i | from <= i < |rows| :: rows[i] == other[i]
    ensures InFlightIds(rows, device, from) == InFlightIds(other, device, from)
    decreases |rows| - from
  {
    if from < |rows| {
      IdsAgree(rows, other, device, from + 1);
    }
  }

  /** One keyless reply closes the oldest in-flight command and leaves the others in flight. */
  lemma OneKeylessReply(rows: Table, device: nat, a: Answer)
    requires InFlightIds(rows, device, 0) != []
    ensures var ids := InFlightIds(rows, device, 0);
      var next := rows[ids[0] := Closed(rows[ids[0]], a)];
      && Reply(rows, device, 0, a.success, a.response, a.now) == next
      && InFlightIds(next, device, 0) == ids[1..]
  {
    var found := FindOldestOpen(rows, device);
    if found.None? {
      IdsSkip(rows, device, 0, |rows|);
    } else {
      var id := found.value;
      var next := rows[id := Closed(rows[id], a)];
      IdsSkip(rows, device, 0, id);
      IdsSkip(next, device, 0, id + 1);
      IdsAgree(rows, next, device, id + 1);
    }
  }

  /** `after` is `rows` with the commands `ids` closed by `answers`, in this order. */
  ghost predicate ClosedInOrder(rows: Table, after: Table, ids: seq<nat>, answers: seq<Answer>) {
    && |after| == |rows| && |answers| <= |ids|
    && (forall k | 0 <= k < |ids| :: ids[k] < |rows|)
    && (forall k | 0 <= k < |answers| :: after[ids[k]] == Closed(rows[ids[k]], answers[k]))
    && (forall i | 0 <= i < |rows| && i !in ids[..|answers|] :: after[i] == rows[i])
  }

  /**
    Any run of keyless replies closes the oldest in-flight commands of the device, one each, in
    creation order, and changes nothing else.
   */
  lemma {:induction false} KeylessRepliesCloseOldest(rows: Table, device: nat, answers: seq<Answer>)
    requires |answers| <= |InFlightIds(rows, device, 0)|
    ensures var ids, after := InFlightIds(rows, device, 0), KeylessReplies(rows, device, answers);
      |after| == |rows| && ClosedInOrder(rows, after, ids, answers)
      && InFlightIds(after, device, 0) == ids[|answers|..]
    decreases |answers|
  {
    var ids := InFlightIds(rows, device, 0);
    if answers == [] {
      assert ids[0..] == ids;
    } else {
      hide Reply;
      var next := rows[ids[0] := Closed(rows[ids[0]], answers[0])];
      OneKeylessReply(rows, device, answers[0]);
      KeylessRepliesCloseOldest(next, device, answers[1..]);
      FirstThenRest(rows, next, KeylessReplies(rows, device, answers), ids, answers);
      assert ids[1..][|answers| - 1..] == ids[|answers|..];
    }
  }

  lemma FirstThenRest(rows: Table, next: Table, after: Table, ids: seq<nat>, answers: seq<Answer>)
    requires 0 < |answers| <= |ids| && (forall k | 0 <= k < |ids| :: ids[k] < |rows|)
    requires forall j, k | 0 <= j < k < |ids| :: ids[j] < ids[k]
    requires next == rows[ids[0] := Closed(rows[ids[0]], answers[0])]
    requires ClosedInOrder(next, after, ids[1..], answers[1..])
    ensures ClosedInOrder(rows, after, ids, answers)
  {
    var done := ids[1..][..|answers| - 1];
    assert ids[..|answers|] == [ids[0]] + done;
    assert ids[0] !in done;
    forall k | 0 < k < |answers| ensures after[ids[k]] == Closed(rows[ids[k]], answers[k]) {
      assert ids[1..][k - 1] == ids[k] && answers[1..][k - 1] == answers[k];
    }
  }
}
