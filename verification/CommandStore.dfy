/**
  commands/command.go: the device_commands table and the guarded statements on it.

  The table is a sequence: a row's id is its index, and rows stand in creation order. Each
  statement is one atomic step; `hit` says whether RETURNING produced a row.
 */
module CommandStore {
  import opened Bytes
  import opened Wrappers

  datatype Status = Pending | Sending | Sent | Acknowledged | Failed | Timeout | Rejected

  /** PENDING < SENDING < SENT < every final status. */
  function Rank(s: Status): nat {
    match s
    case Pending => 0
    case Sending => 1
    case Sent => 2
    case Acknowledged => 3
    case Failed => 3
    case Timeout => 3
    case Rejected => 3
  }

  predicate Terminal(s: Status) {
    s.Acknowledged? || s.Failed? || s.Timeout? || s.Rejected?
  }

  datatype Kind = EngineCut | EngineResume | OtherCommand(name: string)

  datatype Row = Row(
    device: nat,
    command: Kind,
    status: Status,
    key: dword,
    sentAt: Option<int>,
    acknowledgedAt: Option<int>,
    timeoutAt: Option<int>,
    response: string,
    error: string)

  type Table = seq<Row>

  datatype Update = Update(rows: Table, hit: bool)

  /** The INSERT lists no error column: whatever the caller put there is not stored. */
  function Create(rows: Table, device: nat, command: Kind, status: Status, key: dword): Table {
    rows + [Row(device, command, status, key, None, None, None, "", "")]
  }

  function MarkSending(rows: Table, id: nat): Update {
    if id < |rows| && rows[id].status.Pending?
    then Update(rows[id := rows[id].(status := Sending)], true)
    else Update(rows, false)
  }

  function MarkSent(rows: Table, id: nat, now: int, timeoutAt: int): Update {
    if id < |rows| && (rows[id].status.Pending? || rows[id].status.Sending?)
    then Update(rows[id := rows[id].(status := Sent, sentAt := Some(now), timeoutAt := Some(timeoutAt))], true)
    else Update(rows, false)
  }

  function MarkAcknowledged(rows: Table, id: nat, now: int, response: string): Update {
    if id < |rows| && (rows[id].status.Pending? || rows[id].status.Sending? || rows[id].status.Sent?)
    then Update(rows[id := rows[id].(status := Acknowledged, acknowledgedAt := Some(now), response := response)], true)
    else Update(rows, false)
  }

  function MarkFinal(rows: Table, id: nat, status: Status, reason: string): Update {
    if id < |rows| && !Terminal(rows[id].status)
    then Update(rows[id := rows[id].(status := status, error := reason)], true)
    else Update(rows, false)
  }

  /** The rows a keyed reply may close. */
  predicate OpenWithKey(row: Row, device: nat, key: dword) {
    row.device == device && row.key == key && (row.status.Pending? || row.status.Sending? || row.status.Sent?)
  }

  /** The rows a reply without a key may close. */
  predicate InFlight(row: Row, device: nat) {
    row.device == device && (row.status.Sending? || row.status.Sent?)
  }

  /** ORDER BY created_at DESC LIMIT 1. */
  function FindOpenByCorrelation(rows: Table, device: nat, key: dword): (r: Option<nat>)
    ensures r.Some? ==> r.value < |rows| && OpenWithKey(rows[r.value], device, key)
    ensures r.None? ==> forall i | 0 <= i < |rows| :: !OpenWithKey(rows[i], device, key)
  {
    if rows == [] then None
    else if OpenWithKey(rows[|rows| - 1], device, key) then Some(|rows| - 1)
    else FindOpenByCorrelation(rows[..|rows| - 1], device, key)
  }

  /** ORDER BY created_at LIMIT 1. */
  function FindOldestOpen(rows: Table, device: nat): (r: Option<nat>)
    ensures r.Some? ==> r.value < |rows| && InFlight(rows[r.value], device)
  {
    FirstInFlight(rows, device, 0)
  }

  function FirstInFlight(rows: Table, device: nat, from: nat): (r: Option<nat>)
    requires from <= |rows|
    ensures r.Some? ==> from <= r.value < |rows| && InFlight(rows[r.value], device)
    ensures r.Some? ==> forall i | from <= i < r.value :: !InFlight(rows[i], device)
    ensures r.None? ==> forall i | from <= i < |rows| :: !InFlight(rows[i], device)
    decreases |rows| - from
  {
    if from == |rows| then None
    else if InFlight(rows[from], device) then Some(from)
    else FirstInFlight(rows, device, from + 1)
  }

  predicate Overdue(row: Row, now: int) {
    (row.status.Sending? || row.status.Sent?) && row.timeoutAt.Some? && row.timeoutAt.value < now
  }

  const TIMEOUT_REASON := "rastreador não respondeu dentro do prazo"

  function ExpireRow(row: Row, now: int): Row {
    if Overdue(row, now) then row.(status := Timeout, error := TIMEOUT_REASON) else row
  }

  function ExpireTimedOut(rows: Table, now: int): (r: Table)
    ensures |r| == |rows| && forall i | 0 <= i < |rows| :: r[i] == ExpireRow(rows[i], now)
  {
    seq(|rows|, i requires 0 <= i < |rows| => ExpireRow(rows[i], now))
  }

  /** The repository object: the table is its one field, rewritten by each statement. */
  class Repository {
    var rows: Table

    constructor ()
      ensures rows == []
    {
      rows := [];
    }

    /** `error` is what the caller put into the command; no column takes it. */
    method Insert(device: nat, command: Kind, status: Status, key: dword, error: string) returns (id: nat)
      modifies this
      ensures rows == Create(old(rows), device, command, status, key)
      ensures |rows| == id + 1 && rows[..id] == old(rows)
      ensures rows[id].status == status && rows[id].error == ""
    {
      id := |rows|;
      rows := Create(rows, device, command, status, key);
    }

    method Lock(id: nat) returns (hit: bool)
      modifies this
      ensures Update(rows, hit) == MarkSending(old(rows), id)
    {
      hit := id < |rows| && rows[id].status.Pending?;
      if hit {
        rows := rows[id := rows[id].(status := Sending)];
      }
    }

    method SetSent(id: nat, now: int, timeoutAt: int) returns (hit: bool)
      modifies this
      ensures Update(rows, hit) == MarkSent(old(rows), id, now, timeoutAt)
    {
      hit := id < |rows| && (rows[id].status.Pending? || rows[id].status.Sending?);
      if hit {
        rows := rows[id := rows[id].(status := Sent, sentAt := Some(now), timeoutAt := Some(timeoutAt))];
      }
    }

    method SetAcknowledged(id: nat, now: int, response: string) returns (hit: bool)
      modifies this
      ensures Update(rows, hit) == MarkAcknowledged(old(rows), id, now, response)
    {
      hit := id < |rows| && !Terminal(rows[id].status);
      if hit {
        rows := rows[id := rows[id].(status := Acknowledged, acknowledgedAt := Some(now), response := response)];
      }
    }

    method SetFinal(id: nat, status: Status, reason: string) returns (hit: bool)
      modifies this
      ensures Update(rows, hit) == MarkFinal(old(rows), id, status, reason)
    {
      hit := id < |rows| && !Terminal(rows[id].status);
      if hit {
        rows := rows[id := rows[id].(status := status, error := reason)];
      }
    }

    /** Returns the expired commands, oldest first. */
    method Expire(now: int) returns (expired: seq<nat>)
      modifies this
      ensures rows == ExpireTimedOut(old(rows), now)
      ensures forall id | 0 <= id < |old(rows)| ::
        id in expired <==>
          && (old(rows)[id].status == Sending || old(rows)[id].status == Sent)
          && old(rows)[id].timeoutAt.Some? && old(rows)[id].timeoutAt.value < now
      ensures forall id | id in expired ::
        0 <= id < |rows| && rows[id].status == Timeout && rows[id].timeoutAt == old(rows)[id].timeoutAt
      ensures forall id | 0 <= id < |rows| && id !in expired :: rows[id] == old(rows)[id]
      ensures forall i, j | 0 <= i < j < |expired| :: expired[i] < expired[j]
    {
      expired := [];
      ghost var before := rows;
      for i := 0 to |rows|
        invariant |rows| == |before|
        invariant forall k | 0 <= k < |rows| :: rows[k] == if k < i then ExpireRow(before[k], now) else before[k]
        invariant forall id :: id in expired <==> 0 <= id < i && Overdue(before[id], now)
        invariant forall a, b | 0 <= a < b < |expired| :: expired[a] < expired[b]
      {
        if Overdue(rows[i], now) {
          assert forall a | 0 <= a < |expired| :: expired[a] in expired;
          rows := rows[i := rows[i].(status := Timeout, error := TIMEOUT_REASON)];
          expired := expired + [i];
        }
      }
    }
  }

  // ---- What every statement keeps ----

  /** A row only moves forward, and a final row never moves again. */
  predicate RowAdvances(before: Row, after: Row) {
    && after.device == before.device && after.command == before.command && after.key == before.key
    && Rank(before.status) <= Rank(after.status)
    && (Terminal(before.status) ==> after == before)
    && (after.status == before.status ==> after == before)
  }

  ghost predicate TableAdvances(before: Table, after: Table) {
    |before| <= |after| && forall i | 0 <= i < |before| :: RowAdvances(before[i], after[i])
  }

  lemma AdvancesTransitive(a: Table, b: Table, c: Table)
    requires TableAdvances(a, b) && TableAdvances(b, c)
    ensures TableAdvances(a, c)
  {
    forall i | 0 <= i < |a| ensures RowAdvances(a[i], c[i]) {
      assert RowAdvances(a[i], b[i]) && RowAdvances(b[i], c[i]);
    }
  }

  lemma UpdateAdvances(rows: Table, id: nat, row: Row)
    requires id < |rows| && RowAdvances(rows[id], row)
    ensures TableAdvances(rows, rows[id := row])
  {
  }

  /** A statement aimed at one row advances the table, whether it hits or not. */
  lemma StatementsAdvance(rows: Table, id: nat, now: int, later: int, text: string, final: Status)
    requires Terminal(final)
    ensures TableAdvances(rows, MarkSending(rows, id).rows)
    ensures TableAdvances(rows, MarkSent(rows, id, now, later).rows)
    ensures TableAdvances(rows, MarkAcknowledged(rows, id, now, text).rows)
    ensures TableAdvances(rows, MarkFinal(rows, id, final, text).rows)
  {
    hide TableAdvances;
    NothingAdvances(rows);
    if id < |rows| {
      var row := rows[id];
      if !Terminal(row.status) {
        UpdateAdvances(rows, id, row.(status := Acknowledged, acknowledgedAt := Some(now), response := text));
        UpdateAdvances(rows, id, row.(status := final, error := text));
        if !row.status.Sent? {
          UpdateAdvances(rows, id, row.(status := Sent, sentAt := Some(now), timeoutAt := Some(later)));
        }
        if row.status.Pending? {
          UpdateAdvances(rows, id, row.(status := Sending));
        }
      }
    }
  }

  lemma NothingAdvances(rows: Table)
    ensures TableAdvances(rows, rows)
  {
  }

  lemma CreateAdvances(rows: Table, device: nat, command: Kind, status: Status, key: dword)
    ensures TableAdvances(rows, Create(rows, device, command, status, key))
  {
  }

  lemma ExpireAdvances(rows: Table, now: int)
    ensures TableAdvances(rows, ExpireTimedOut(rows, now))
  {
  }

  // ---- The guards, status by status ----

  /** Which row each statement hits, and the whole table it leaves. */
  lemma StatementsExactly(rows: Table, id: nat, now: int, deadline: int, text: string, final: Status)
    requires id < |rows|
    ensures var s, row := rows[id].status, rows[id];
      && MarkSending(rows, id) ==
           (if s == Pending then Update(rows[id := row.(status := Sending)], true) else Update(rows, false))
      && MarkSent(rows, id, now, deadline) ==
           (if s == Pending || s == Sending
            then Update(rows[id := row.(status := Sent, sentAt := Some(now), timeoutAt := Some(deadline))], true)
            else Update(rows, false))
      && MarkAcknowledged(rows, id, now, text) ==
           (if s == Pending || s == Sending || s == Sent
            then Update(rows[id := row.(status := Acknowledged, acknowledgedAt := Some(now), response := text)], true)
            else Update(rows, false))
      && MarkFinal(rows, id, final, text) ==
           (if s == Pending || s == Sending || s == Sent
            then Update(rows[id := row.(status := final, error := text)], true)
            else Update(rows, false))
  {
  }

  /** A reply with a key finds the newest open row of the device that carries it. */
  lemma NewestOpenIff(rows: Table, device: nat, key: dword, id: nat)
    requires id < |rows|
    ensures FindOpenByCorrelation(rows, device, key) == Some(id) <==>
      && IsOpen(rows[id], device) && rows[id].key == key
      && forall i | id < i < |rows| :: !(IsOpen(rows[i], device) && rows[i].key == key)
  {
    hide FindOpenByCorrelation;
    var found := FindOpenByCorrelation(rows, device, key);
    NewestIsLast(rows, device, key);
    if found.Some? && found.value != id {
      assert OpenWithKey(rows[found.value], device, key);
    }
  }

  predicate IsOpen(row: Row, device: nat) {
    row.device == device && (row.status == Pending || row.status == Sending || row.status == Sent)
  }

  lemma {:induction false} NewestIsLast(rows: Table, device: nat, key: dword)
    ensures var found := FindOpenByCorrelation(rows, device, key);
      found.Some? ==> forall i | found.value < i < |rows| :: !OpenWithKey(rows[i], device, key)
  {
    if rows != [] && !OpenWithKey(rows[|rows| - 1], device, key) {
      NewestIsLast(rows[..|rows| - 1], device, key);
    }
  }

  /** A reply without one finds the oldest row of the device that is SENDING or SENT. */
  lemma OldestInFlightIff(rows: Table, device: nat, id: nat)
    requires id < |rows|
    ensures FindOldestOpen(rows, device) == Some(id) <==>
      && rows[id].device == device && (rows[id].status == Sending || rows[id].status == Sent)
      && forall i | 0 <= i < id :: !(rows[i].device == device && (rows[i].status == Sending || rows[i].status == Sent))
  {
    hide FirstInFlight;
    var found := FindOldestOpen(rows, device);
    assert found.Some? ==> forall i | 0 <= i < found.value :: !InFlight(rows[i], device);
    if found.Some? && found.value != id {
      assert InFlight(rows[found.value], device);
    }
    assert found.None? ==> !InFlight(rows[id], device);
  }

  /** A sweep closes a row exactly when it is in flight and its deadline is set and past; it leaves every other alone. */
  lemma ExpiresExactly(rows: Table, now: int, i: nat)
    requires i < |rows|
    ensures var before, after := rows[i], ExpireTimedOut(rows, now)[i];
      if (before.status == Sending || before.status == Sent) && before.timeoutAt.Some? && before.timeoutAt.value < now
      then after == before.(status := Timeout, error := TIMEOUT_REASON)
      else after == before
  {
  }
}
