/** tracking/ingestor.go: the detectors that turn state transitions into events. */
module Ingestor {
  import opened Wrappers
  import opened StateStore

  /** What a decoded message says about the device's state. */
  datatype Telemetry = Telemetry(
    acc: Option<bool>, relayOn: Option<bool>, batteryPercent: Option<int>, batteryVoltage: Option<real>,
    gsmLevel: Option<nat>, hasLocation: bool, gpsValid: bool, speedKmh: real, alarm: string)

  datatype EventType =
    | IgnitionOn | IgnitionOff | RelayEngaged | RelayReleased | GpsLost | GpsRecovered | GsmLost | GsmRecovered
    | Overspeed | OverspeedEnd | GeofenceEnter(fence: FenceId) | GeofenceExit(fence: FenceId)
    | Sos | PowerLoss | LowBattery | Vibration | DeviceAlarm

  /** Which detector raised an event; the same type can also come from the device's own alarm. */
  datatype Origin = FromState | FromSpeed | FromFences | FromAlarm

  datatype Event = Event(device: DeviceId, origin: Origin, what: EventType)

  function Newer<T>(reported: Option<T>, known: Option<T>): Option<T> {
    if reported.Some? then reported else known
  }

  /** processTelemetry's mutation. */
  function ApplyTelemetry(st: State, msg: Telemetry): State {
    st.(acc := Newer(msg.acc, st.acc), relayOn := Newer(msg.relayOn, st.relayOn),
        batteryPercent := Newer(msg.batteryPercent, st.batteryPercent),
        batteryVoltage := Newer(msg.batteryVoltage, st.batteryVoltage),
        gsmLevel := Newer(msg.gsmLevel, st.gsmLevel),
        gpsValid := if msg.hasLocation then Some(msg.gpsValid) else st.gpsValid)
  }

  /** changedBool. */
  predicate Changed(before: Option<bool>, after: Option<bool>) {
    after.Some? && (before.None? || before.value != after.value)
  }

  function Transition(device: DeviceId, before: Option<bool>, after: Option<bool>, on: EventType, off: EventType): seq<Event> {
    if Changed(before, after) then [Event(device, FromState, if after.value then on else off)] else []
  }

  function GsmTransition(device: DeviceId, before: Option<nat>, after: Option<nat>): seq<Event> {
    if before.Some? && after.Some? then
      if before.value > 0 && after.value == 0 then [Event(device, FromState, GsmLost)]
      else if before.value == 0 && after.value > 0 then [Event(device, FromState, GsmRecovered)]
      else []
    else []
  }

  /** emitStateEvents. */
  function StateEvents(device: DeviceId, before: State, after: State): seq<Event> {
    Transition(device, before.acc, after.acc, IgnitionOn, IgnitionOff)
    + Transition(device, before.relayOn, after.relayOn, RelayEngaged, RelayReleased)
    + Transition(device, before.gpsValid, after.gpsValid, GpsRecovered, GpsLost)
    + GsmTransition(device, before.gsmLevel, after.gsmLevel)
  }

  function AlarmType(alarm: string): EventType {
    match alarm
    case "SOS" => Sos
    case "POWER_LOSS" => PowerLoss
    case "LOW_BATTERY" => LowBattery
    case "VIBRATION" => Vibration
    case "OVERSPEED" => Overspeed
    case "IGNITION_ON" => IgnitionOn
    case "IGNITION_OFF" => IgnitionOff
    case _ => DeviceAlarm
  }

  function AlarmEvents(device: DeviceId, alarm: string): seq<Event> {
    if alarm == "" then [] else [Event(device, FromAlarm, AlarmType(alarm))]
  }

  /** evaluateOverspeed's mutation: leaving the state needs a speed below the limit by the hysteresis. */
  function ApplySpeed(st: State, speed: real, limit: real, hysteresis: real): State {
    if st.overspeed then
      if speed <= limit - hysteresis then st.(overspeed := false) else st
    else if speed > limit then st.(overspeed := true)
    else st
  }

  function SpeedEvents(device: DeviceId, before: State, after: State): seq<Event> {
    if before.overspeed == after.overspeed then []
    else [Event(device, FromSpeed, if after.overspeed then Overspeed else OverspeedEnd)]
  }

  /** The elements of `xs` that are not in `ys`, in order. */
  function Missing(xs: seq<FenceId>, ys: seq<FenceId>): (r: seq<FenceId>)
    ensures forall f :: f in r <==> f in xs && f !in ys
  {
    if xs == [] then [] else if xs[0] in ys then Missing(xs[1..], ys) else [xs[0]] + Missing(xs[1..], ys)
  }

  function Crossing(device: DeviceId, fence: FenceId, entering: bool): Event {
    Event(device, FromFences, if entering then GeofenceEnter(fence) else GeofenceExit(fence))
  }

  function Crossings(device: DeviceId, fences: seq<FenceId>, entering: bool): seq<Event> {
    seq(|fences|, i requires 0 <= i < |fences| => Crossing(device, fences[i], entering))
  }

  /** evaluateGeofences: entries in the order of the present fences, then exits in the order of the previous ones. */
  function FenceEvents(device: DeviceId, before: seq<FenceId>, present: seq<FenceId>): seq<Event> {
    Crossings(device, Missing(present, before), true) + Crossings(device, Missing(before, present), false)
  }

  predicate Distinct(fences: seq<FenceId>) {
    forall i, j | 0 <= i < j < |fences| :: fences[i] != fences[j]
  }

  /** geofences.Inside: the cached fences that contain the point. */
  function Inside(cached: seq<FenceId>, contains: FenceId -> bool): (r: seq<FenceId>)
    ensures forall f :: f in r <==> f in cached && contains(f)
    ensures Distinct(cached) ==> Distinct(r)
  {
    if cached == [] then []
    else if contains(cached[0]) then [cached[0]] + Inside(cached[1..], contains)
    else Inside(cached[1..], contains)
  }

  // ---- Steps ----

  /** Each step holds one StateStore.Update; steps of different sessions may interleave in any order. */
  datatype Step =
    | TelemetryStep(device: DeviceId, msg: Telemetry)
    | SpeedStep(device: DeviceId, speed: real, limit: real)
    | FenceStep(device: DeviceId, gpsValid: bool, present: seq<FenceId>)

  datatype Outcome = Outcome(states: States, events: seq<Event>)

  function Do(hysteresis: real, states: States, s: Step): Outcome {
    var before := Current(states, s.device);
    match s
    case TelemetryStep(device, msg) =>
      var after := ApplyTelemetry(before, msg);
      Outcome(states[device := after], StateEvents(device, before, after) + AlarmEvents(device, msg.alarm))
    case SpeedStep(device, speed, limit) =>
      if limit <= 0.0 then Outcome(states, [])
      else
        var after := ApplySpeed(before, speed, limit, hysteresis);
        Outcome(states[device := after], SpeedEvents(device, before, after))
    case FenceStep(device, gpsValid, present) =>
      if !gpsValid then Outcome(states, [])
      else
        Outcome(states[device := before.(insideFences := present)], FenceEvents(device, before.insideFences, present))
  }

  function Run(hysteresis: real, states: States, steps: seq<Step>): Outcome
    decreases |steps|
  {
    if steps == [] then Outcome(states, [])
    else
      var first := Do(hysteresis, states, steps[0]);
      var rest := Run(hysteresis, first.states, steps[1..]);
      Outcome(rest.states, first.events + rest.events)
  }

  class Ingestor {
    const store: Store
    const defaultLimit: real
    const hysteresis: real
    var log: seq<Event>

    constructor (store: Store, defaultLimit: real, hysteresis: real)
      ensures this.store == store && this.defaultLimit == defaultLimit && this.hysteresis == hysteresis && log == []
    {
      this.store := store;
      this.defaultLimit := defaultLimit;
      this.hysteresis := hysteresis;
      log := [];
    }

    /** The steps of this ingestor have been done, in this order, since the old state. */
    twostate predicate Did(steps: seq<Step>)
      reads this, store
    {
      var o := Run(hysteresis, old(store.states), steps);
      store.states == o.states && log == old(log) + o.events
    }

    method EmitStateEvents(device: DeviceId, before: State, after: State)
      modifies `log
      ensures log == old(log) + StateEvents(device, before, after)
    {
      hide Transition, GsmTransition;
      EmitChange(device, before.acc, after.acc, IgnitionOn, IgnitionOff);
      EmitChange(device, before.relayOn, after.relayOn, RelayEngaged, RelayReleased);
      EmitChange(device, before.gpsValid, after.gpsValid, GpsRecovered, GpsLost);
      EmitGsm(device, before.gsmLevel, after.gsmLevel);
    }

    method EmitChange(device: DeviceId, before: Option<bool>, after: Option<bool>, on: EventType, off: EventType)
      modifies `log
      ensures log == old(log) + Transition(device, before, after, on, off)
    {
      if Changed(before, after) {
        log := log + [Event(device, FromState, if after.value then on else off)];
      }
    }

    method EmitGsm(device: DeviceId, before: Option<nat>, after: Option<nat>)
      modifies `log
      ensures log == old(log) + GsmTransition(device, before, after)
    {
      if before.Some? && after.Some? {
        var lost := before.value > 0 && after.value == 0;
        var recovered := before.value == 0 && after.value > 0;
        if lost {
          log := log + [Event(device, FromState, GsmLost)];
        } else if recovered {
          log := log + [Event(device, FromState, GsmRecovered)];
        }
      }
    }

    method EvaluateOverspeed(device: DeviceId, vehicleLimit: Option<real>, speed: real)
      modifies this, store
      ensures Did([SpeedStep(device, speed, if vehicleLimit.Some? then vehicleLimit.value else defaultLimit)])
    {
      var limit := if vehicleLimit.Some? then vehicleLimit.value else defaultLimit;
      if limit <= 0.0 {
        return;
      }
      var before, after := store.Update(device, st => ApplySpeed(st, speed, limit, hysteresis));
      if before.overspeed == after.overspeed {
        return;
      }
      log := log + [Event(device, FromSpeed, if after.overspeed then Overspeed else OverspeedEnd)];
    }

    method EvaluateGeofences(device: DeviceId, gpsValid: bool, cached: seq<FenceId>, contains: FenceId -> bool)
      modifies this, store
      ensures Did([FenceStep(device, gpsValid, Inside(cached, contains))])
    {
      hide Inside, FenceEvents, Run;
      if !gpsValid {
        RunOne(hysteresis, store.states, FenceStep(device, gpsValid, Inside(cached, contains)));
        return;
      }
      var present := Inside(cached, contains);
      var before, _ := store.Update(device, (st: State) => st.(insideFences := present));
      EmitFenceEvents(device, before.insideFences, present);
      RunOne(hysteresis, old(store.states), FenceStep(device, gpsValid, present));
    }

    method EmitFenceEvents(device: DeviceId, before: seq<FenceId>, present: seq<FenceId>)
      modifies `log
      ensures log == old(log) + FenceEvents(device, before, present)
    {
      hide Missing, Crossings;
      EmitCrossings(device, present, before, true);
      EmitCrossings(device, before, present, false);
    }

    /** One of the two loops of evaluateGeofences. */
    method EmitCrossings(device: DeviceId, fences: seq<FenceId>, others: seq<FenceId>, entering: bool)
      modifies `log
      ensures log == old(log) + Crossings(device, Missing(fences, others), entering)
    {
      hide Missing, Crossings;
      var i := 0;
      NoCrossings(device, others, entering);
      while i < |fences|
        invariant 0 <= i <= |fences|
        invariant log == old(log) + Crossings(device, Missing(fences[..i], others), entering)
      {
        CrossingsSnoc(device, fences[..i], fences[i], others, entering);
        assert fences[..i + 1] == fences[..i] + [fences[i]];
        if fences[i] !in others {
          log := log + [Crossing(device, fences[i], entering)];
        }
        i := i + 1;
      }
      assert fences[..|fences|] == fences;
    }

    /** processTelemetry; `stored` says whether the position could be saved. */
    method ProcessTelemetry(device: DeviceId, msg: Telemetry, stored: bool, vehicleLimit: Option<real>,
                            cached: seq<FenceId>, contains: FenceId -> bool)
      modifies this, store
      ensures Did(MessageSteps(device, msg, stored, if vehicleLimit.Some? then vehicleLimit.value else defaultLimit,
                               Inside(cached, contains)))
    {
      hide Do, Run, StateEvents, AlarmType;
      ghost var limit := if vehicleLimit.Some? then vehicleLimit.value else defaultLimit;
      ghost var start := store.states;
      ApplyTelemetryMessage(device, msg);
      if !msg.hasLocation || !stored {
        assert MessageSteps(device, msg, stored, limit, Inside(cached, contains)) == [TelemetryStep(device, msg)];
        return;
      }
      ghost var speed, fences := SpeedStep(device, msg.speedKmh, limit), FenceStep(device, msg.gpsValid, Inside(cached, contains));
      RunCons(hysteresis, start, TelemetryStep(device, msg), [speed, fences]);
      RunCons(hysteresis, store.states, speed, [fences]);
      assert [speed] + [fences] == [speed, fences];
      EvaluateOverspeed(device, vehicleLimit, msg.speedKmh);
      EvaluateGeofences(device, msg.gpsValid, cached, contains);
    }

    /** The first half of processTelemetry: merge the telemetry and record what changed. */
    method ApplyTelemetryMessage(device: DeviceId, msg: Telemetry)
      modifies this, store
      ensures Did([TelemetryStep(device, msg)])
    {
      hide StateEvents, AlarmType, ApplyTelemetry;
      var before, after := store.Update(device, st => ApplyTelemetry(st, msg));
      EmitStateEvents(device, before, after);
      if msg.alarm != "" {
        log := log + [Event(device, FromAlarm, AlarmType(msg.alarm))];
      }
      RunOne(hysteresis, old(store.states), TelemetryStep(device, msg));
    }
  }

  function MessageSteps(device: DeviceId, msg: Telemetry, stored: bool, limit: real, present: seq<FenceId>): seq<Step> {
    [TelemetryStep(device, msg)]
    + if msg.hasLocation && stored
      then [SpeedStep(device, msg.speedKmh, limit), FenceStep(device, msg.gpsValid, present)] else []
  }

  lemma {:induction false} MissingSnoc(xs: seq<FenceId>, x: FenceId, ys: seq<FenceId>)
    ensures Missing(xs + [x], ys) == Missing(xs, ys) + if x in ys then [] else [x]
  {
    if xs != [] {
      assert (xs + [x])[1..] == xs[1..] + [x];
      MissingSnoc(xs[1..], x, ys);
    }
  }

  lemma RunCons(hysteresis: real, states: States, s: Step, steps: seq<Step>)
    ensures var first := Run(hysteresis, states, [s]);
      var rest := Run(hysteresis, first.states, steps);
      Run(hysteresis, states, [s] + steps) == Outcome(rest.states, first.events + rest.events)
  {
    hide Do;
    assert ([s] + steps)[1..] == steps;
  }

  lemma NoCrossings(device: DeviceId, others: seq<FenceId>, entering: bool)
    ensures Crossings(device, Missing([], others), entering) == []
  {
  }

  lemma CrossingsSnoc(device: DeviceId, xs: seq<FenceId>, x: FenceId, ys: seq<FenceId>, entering: bool)
    ensures Crossings(device, Missing(xs + [x], ys), entering)
         == Crossings(device, Missing(xs, ys), entering) + if x in ys then [] else [Crossing(device, x, entering)]
  {
    hide Missing;
    MissingSnoc(xs, x, ys);
  }

  lemma RunOne(hysteresis: real, states: States, s: Step)
    ensures Run(hysteresis, states, [s]) == Do(hysteresis, states, s)
  {
    hide Do;
    var first := Do(hysteresis, states, s);
    assert Run(hysteresis, first.states, []) == Outcome(first.states, []);
    assert first.events + [] == first.events;
  }
}
