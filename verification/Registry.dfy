/** tcp/connection.go: the live sessions by IMEI, and what holds of them over every interleaving. */
module Registry {
  import opened Bytes
  import opened Wrappers

  type Imei = bytes

  /** Register on the map: the newest session of an IMEI takes its key. */
  function Registered<C>(conns: map<Imei, C>, imei: Imei, conn: C): map<Imei, C> {
    if imei == [] then conns else conns[imei := conn]
  }

  /** UnregisterConn on the map: the key goes only if it still leads to this session. */
  function Unregistered<C(==)>(conns: map<Imei, C>, imei: Imei, conn: C): map<Imei, C> {
    if imei != [] && imei in conns && conns[imei] == conn then conns - {imei} else conns
  }

  // ---- The objects ----

  class Connection {
    var imei: Imei
    var open: bool
    var written: seq<bytes>

    constructor ()
      ensures imei == [] && open && written == []
    {
      imei := [];
      open := true;
      written := [];
    }

    method Identify(imei: Imei)
      modifies `imei
      ensures this.imei == imei
    {
      this.imei := imei;
    }

    /** An empty payload and a closed connection are errors. */
    method Send(payload: bytes) returns (ok: bool)
      modifies `written
      ensures ok == (payload != [] && open)
      ensures written == if ok then old(written) + [payload] else old(written)
    {
      if payload == [] || !open {
        return false;
      }
      written := written + [payload];
      return true;
    }

    method Close()
      modifies `open
      ensures !open
    {
      open := false;
    }
  }

  class Manager {
    var conns: map<Imei, Connection>
    var totals: seq<nat>

    constructor ()
      ensures conns == map[] && totals == []
    {
      conns := map[];
      totals := [];
    }

    /** The session it replaces, and no other, is closed. */
    method Register(conn: Connection)
      modifies this, conns.Values`open
      ensures conns == Registered(old(conns), conn.imei, conn)
      ensures forall c | c in old(conns.Values) ::
        c.open == (old(c.open) && !(conn.imei != [] && conn.imei in old(conns) && old(conns)[conn.imei] == c && c != conn))
      ensures totals == if conn.imei == [] then old(totals) else old(totals) + [|conns|]
    {
      var imei := conn.imei;
      if imei == [] {
        return;
      }
      var previous: Option<Connection> := if imei in conns then Some(conns[imei]) else None;
      conns := conns[imei := conn];
      if previous.Some? && previous.value != conn {
        previous.value.Close();
      }
      totals := totals + [|conns|];
    }

    method UnregisterConn(conn: Connection)
      modifies this
      ensures conns == Unregistered(old(conns), conn.imei, conn)
      ensures totals == if conns == old(conns) then old(totals) else old(totals) + [|conns|]
    {
      var imei := conn.imei;
      if imei == [] {
        return;
      }
      if imei in conns && conns[imei] == conn {
        conns := conns - {imei};
        totals := totals + [|conns|];
        assert imei in old(conns) && imei !in conns;
      }
    }

    method Get(imei: Imei) returns (conn: Option<Connection>)
      ensures conn == if imei in conns then Some(conns[imei]) else None
    {
      return if imei in conns then Some(conns[imei]) else None;
    }

    /** Only the registered session of the IMEI is written to. */
    method Send(imei: Imei, payload: bytes) returns (ok: bool)
      modifies conns.Values`written
      ensures imei !in conns ==> !ok && forall c | c in conns.Values :: c.written == old(c.written)
      ensures imei in conns ==>
        && ok == (payload != [] && conns[imei].open)
        && forall c | c in conns.Values ::
             c.written == if ok && c == conns[imei] then old(c.written) + [payload] else old(c.written)
    {
      var conn := Get(imei);
      if conn.None? {
        return false;
      }
      assert conns[imei] in conns.Values;
      ok := conn.value.Send(payload);
    }
  }

  // ---- Every interleaving ----

  type Id = nat

  /** The steps of the session goroutines; those of one session come in its own order. */
  datatype Event =
    | Identify(id: Id, imei: Imei)
    | Publish(id: Id)
    | Cleanup(id: Id)

  /**
    `log` lists the registrations in order; `gone` gives, for each session whose handler has returned,
    the IMEI it had at its cleanup.
   */
  datatype World = World(conns: map<Imei, Id>, imeis: map<Id, Imei>, log: seq<(Id, Imei)>, gone: map<Id, Imei>)

  const EMPTY := World(map[], map[], [], map[])

  function ImeiOf(w: World, id: Id): Imei {
    if id in w.imeis then w.imeis[id] else []
  }

  predicate HasRegistered(log: seq<(Id, Imei)>, id: Id) {
    exists k :: 0 <= k < |log| && log[k].0 == id
  }

  /** A session registers once, when it first has an IMEI; a returned handler takes no more steps. */
  function Do(w: World, e: Event): World {
    if e.id in w.gone then w
    else
      match e
      case Identify(id, imei) => w.(imeis := w.imeis[id := imei])
      case Publish(id) =>
        var imei := ImeiOf(w, id);
        if HasRegistered(w.log, id) || imei == [] then w
        else w.(conns := Registered(w.conns, imei, id), log := w.log + [(id, imei)])
      case Cleanup(id) =>
        var imei := ImeiOf(w, id);
        w.(conns := Unregistered(w.conns, imei, id), gone := w.gone[id := imei])
  }

  function Run(w: World, events: seq<Event>): World
    decreases |events|
  {
    if events == [] then w else Run(Do(w, events[0]), events[1..])
  }

  /** The last session registered under an IMEI. */
  function Newest(log: seq<(Id, Imei)>, imei: Imei): Option<Id> {
    if log == [] then None
    else if log[|log| - 1].1 == imei then Some(log[|log| - 1].0)
    else Newest(log[..|log| - 1], imei)
  }

  /** A key leads to the newest session registered under it, until that session is cleaned up under it. */
  predicate Follows(w: World, imei: Imei) {
    var newest := Newest(w.log, imei);
    if newest.Some? && !(newest.value in w.gone && w.gone[newest.value] == imei)
    then imei in w.conns && w.conns[imei] == newest.value
    else imei !in w.conns
  }

  ghost predicate Consistent(w: World) {
    && (forall k | 0 <= k < |w.log| :: w.log[k].1 != [])
    && forall imei :: Follows(w, imei)
  }

  lemma NewestRegistered(log: seq<(Id, Imei)>, id: Id, registered: Imei, imei: Imei)
    ensures Newest(log + [(id, registered)], imei) == if imei == registered then Some(id) else Newest(log, imei)
  {
    assert (log + [(id, registered)])[..|log|] == log;
  }

  lemma {:induction false} NewestIsLogged(log: seq<(Id, Imei)>, imei: Imei) returns (k: nat)
    requires Newest(log, imei).Some?
    ensures k < |log| && log[k] == (Newest(log, imei).value, imei)
    ensures forall j | k < j < |log| :: log[j].1 != imei
  {
    if log[|log| - 1].1 == imei {
      k := |log| - 1;
    } else {
      k := NewestIsLogged(log[..|log| - 1], imei);
    }
  }

  lemma DoKeepsConsistent(w: World, e: Event)
    requires Consistent(w)
    ensures Consistent(Do(w, e))
  {
    hide Newest, HasRegistered;
    var next := Do(w, e);
    forall imei ensures Follows(next, imei) {
      assert Follows(w, imei);
      if e.Publish? && next != w {
        NewestRegistered(w.log, e.id, ImeiOf(w, e.id), imei);
      }
      if imei == [] && Newest(w.log, imei).Some? {
        var k := NewestIsLogged(w.log, imei);
      }
    }
  }

  lemma {:induction false} RunKeepsConsistent(w: World, events: seq<Event>)
    requires Consistent(w)
    ensures Consistent(Run(w, events))
    decreases |events|
  {
    hide Do, Consistent;
    if events != [] {
      DoKeepsConsistent(w, events[0]);
      RunKeepsConsistent(Do(w, events[0]), events[1..]);
    }
  }

  /** What the registry holds after any interleaving at all. */
  lemma RegistryFollows(events: seq<Event>, imei: Imei)
    ensures Follows(Run(EMPTY, events), imei)
  {
    hide Run, Follows;
    EmptyIsConsistent();
    RunKeepsConsistent(EMPTY, events);
  }

  lemma EmptyIsConsistent()
    ensures Consistent(EMPTY)
  {
  }

  // ---- Sessions that keep one IMEI ----

  /** Every session only ever identifies as the IMEI it belongs to. */
  predicate Steady(events: seq<Event>, owner: Id -> Imei) {
    forall i | 0 <= i < |events| :: events[i].Identify? ==> events[i].imei == owner(events[i].id)
  }

  predicate Owned(w: World, owner: Id -> Imei) {
    && (forall id | id in w.imeis :: w.imeis[id] == owner(id))
    && (forall k | 0 <= k < |w.log| :: w.log[k].1 == owner(w.log[k].0) && w.log[k].0 in w.imeis)
    && (forall k | 0 <= k < |w.log| :: w.log[k].0 in w.gone ==> w.gone[w.log[k].0] == owner(w.log[k].0))
  }

  lemma DoKeepsOwned(w: World, e: Event, owner: Id -> Imei)
    requires Owned(w, owner) && (e.Identify? ==> e.imei == owner(e.id))
    ensures Owned(Do(w, e), owner)
  {
    hide HasRegistered;
  }

  lemma {:induction false} RunKeepsOwned(w: World, events: seq<Event>, owner: Id -> Imei)
    requires Owned(w, owner) && Steady(events, owner)
    ensures Owned(Run(w, events), owner)
    decreases |events|
  {
    hide Do, Owned;
    if events != [] {
      DoKeepsOwned(w, events[0], owner);
      RunKeepsOwned(Do(w, events[0]), events[1..], owner);
    }
  }

  /** Newest wins: an IMEI leads to the last session registered for it as long as that one has not been cleaned up. */
  lemma NewestWins(events: seq<Event>, owner: Id -> Imei, imei: Imei)
    requires Steady(events, owner)
    ensures var w := Run(EMPTY, events);
      var newest := Newest(w.log, imei);
      (if imei in w.conns then Some(w.conns[imei]) else None)
      == if newest.Some? && newest.value !in w.gone then newest else None
  {
    hide Run, Newest;
    var w := Run(EMPTY, events);
    RegistryFollows(events, imei);
    RunKeepsOwned(EMPTY, events, owner);
    if Newest(w.log, imei).Some? {
      var k := NewestIsLogged(w.log, imei);
    }
  }

  /** When every registered session's handler has returned, the registry is empty. */
  lemma EmptyWhenAllReturned(events: seq<Event>, owner: Id -> Imei)
    requires Steady(events, owner)
    requires var w := Run(EMPTY, events); forall k | 0 <= k < |w.log| :: w.log[k].0 in w.gone
    ensures Run(EMPTY, events).conns == map[]
  {
    hide Run, Newest;
    var w := Run(EMPTY, events);
    forall imei | imei in w.conns ensures false {
      NewestWins(events, owner, imei);
      if Newest(w.log, imei).Some? {
        var k := NewestIsLogged(w.log, imei);
      }
    }
  }

  // ---- Sessions that do not ----

  /** A key is stale when its newest session returned under another IMEI. */
  predicate Stale(w: World, imei: Imei) {
    var newest := Newest(w.log, imei);
    newest.Some? && newest.value in w.gone && w.gone[newest.value] != imei
  }

  /** With all handlers returned, exactly the stale keys remain. */
  lemma LeftoverIff(events: seq<Event>, imei: Imei)
    requires var w := Run(EMPTY, events); forall k | 0 <= k < |w.log| :: w.log[k].0 in w.gone
    ensures imei in Run(EMPTY, events).conns <==> Stale(Run(EMPTY, events), imei)
  {
    hide Run, Newest;
    var w := Run(EMPTY, events);
    RegistryFollows(events, imei);
    if Newest(w.log, imei).Some? {
      var k := NewestIsLogged(w.log, imei);
    }
  }

  const A: Imei := [0x31]
  const B: Imei := [0x32]

  /** A session that re-identifies leaves its first key behind for good. */
  lemma ReidentifiedLeavesItsKey()
    ensures var w := Run(EMPTY, [Identify(1, A), Publish(1), Identify(1, B), Cleanup(1)]);
      w.conns == map[A := 1] && 1 in w.gone
  {
    var w1 := Do(EMPTY, Identify(1, A));
    var w2 := Do(w1, Publish(1));
    var w3 := Do(w2, Identify(1, B));
    assert w2.conns == map[A := 1] && w3.conns == map[A := 1];
    RunFour(Identify(1, A), Publish(1), Identify(1, B), Cleanup(1));
  }

  lemma RunStep(w: World, e: Event, rest: seq<Event>)
    ensures Run(w, [e] + rest) == Run(Do(w, e), rest)
  {
    assert ([e] + rest)[1..] == rest;
  }

  lemma RunFour(a: Event, b: Event, c: Event, d: Event)
    ensures Run(EMPTY, [a, b, c, d]) == Do(Do(Do(Do(EMPTY, a), b), c), d)
  {
    hide Do, Run;
    var w1 := Do(EMPTY, a);
    var w2 := Do(w1, b);
    var w3 := Do(w2, c);
    RunStep(EMPTY, a, [b, c, d]);
    RunStep(w1, b, [c, d]);
    RunStep(w2, c, [d]);
    RunStep(w3, d, []);
    RunNothing(Do(w3, d));
    assert [a] + [b, c, d] == [a, b, c, d] && [b] + [c, d] == [b, c, d] && [c] + [d] == [c, d] && [d] + [] == [d];
  }

  lemma RunNothing(w: World)
    ensures Run(w, []) == w
  {
  }
}
