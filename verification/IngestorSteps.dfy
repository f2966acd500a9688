/**
  What one step of the ingestor (tracking/ingestor.go) does to a device, written out: which readings
  it stores, which events it raises and when a device counts as overspeeding.
 */
module IngestorSteps {
  import opened Wrappers
  import opened StateStore
  import opened Ingestor
  import opened IngestorRuns

  // ---- Stored readings ----

  /** The readings a device can report and the store keeps. */
  datatype Gauge = Acc | RelayOn | Battery | Voltage | Gsm | Gps

  datatype Value = Flag(on: bool) | Count(n: int) | Volts(v: real)

  function Flagged(x: Option<bool>): Option<Value> {
    if x.Some? then Some(Flag(x.value)) else None
  }

  function Counted(x: Option<int>): Option<Value> {
    if x.Some? then Some(Count(x.value)) else None
  }

  function Measured(x: Option<real>): Option<Value> {
    if x.Some? then Some(Volts(x.value)) else None
  }

  /** What a message tells about a reading; the fix comes only with a location. */
  function Told(msg: Telemetry, gauge: Gauge): Option<Value> {
    match gauge
    case Acc => Flagged(msg.acc)
    case RelayOn => Flagged(msg.relayOn)
    case Battery => Counted(msg.batteryPercent)
    case Voltage => Measured(msg.batteryVoltage)
    case Gsm => Counted(msg.gsmLevel)
    case Gps => if msg.hasLocation then Some(Flag(msg.gpsValid)) else None
  }

  function Kept(st: State, gauge: Gauge): Option<Value> {
    match gauge
    case Acc => Flagged(st.acc)
    case RelayOn => Flagged(st.relayOn)
    case Battery => Counted(st.batteryPercent)
    case Voltage => Measured(st.batteryVoltage)
    case Gsm => Counted(st.gsmLevel)
    case Gps => Flagged(st.gpsValid)
  }

  predicate Tells(s: Step, device: DeviceId, gauge: Gauge) {
    s.TelemetryStep? && s.device == device && Told(s.msg, gauge).Some?
  }

  lemma StepStores(hysteresis: real, states: States, s: Step, device: DeviceId, gauge: Gauge)
    ensures Kept(Current(Do(hysteresis, states, s).states, device), gauge) ==
      if Tells(s, device, gauge) then Told(s.msg, gauge) else Kept(Current(states, device), gauge)
  {
    hide StateEvents, AlarmEvents, SpeedEvents, FenceEvents;
  }

  lemma {:induction false} SilenceKeeps(hysteresis: real, states: States, steps: seq<Step>, device: DeviceId, gauge: Gauge)
    requires forall j | 0 <= j < |steps| :: !Tells(steps[j], device, gauge)
    ensures Kept(Current(Run(hysteresis, states, steps).states, device), gauge) == Kept(Current(states, device), gauge)
    decreases |steps|
  {
    hide Do, Kept, Tells, Current;
    if steps != [] {
      StepStores(hysteresis, states, steps[0], device, gauge);
      assert !Tells(steps[0], device, gauge);
      SilenceKeeps(hysteresis, Do(hysteresis, states, steps[0]).states, steps[1..], device, gauge);
    }
  }

  /** Over any run, each stored reading is the last one the device reported, or the initial one if it reported none. */
  lemma StoredIsLastTold(hysteresis: real, states: States, steps: seq<Step>, k: nat, device: DeviceId, gauge: Gauge)
    requires k <= |steps| && forall j | k <= j < |steps| :: !Tells(steps[j], device, gauge)
    requires k > 0 ==> Tells(steps[k - 1], device, gauge)
    ensures Kept(Current(Run(hysteresis, states, steps).states, device), gauge) ==
      if k > 0 then Told(steps[k - 1].msg, gauge) else Kept(Current(states, device), gauge)
  {
    hide Do, Kept, Tells, Told, Current, Run;
    if k == 0 {
      SilenceKeeps(hysteresis, states, steps, device, gauge);
    } else {
      var before, last, rest := steps[..k - 1], steps[k - 1], steps[k..];
      var mid := Run(hysteresis, states, before).states;
      assert steps == before + ([last] + rest);
      RunSplits(hysteresis, states, before, [last] + rest);
      RunSplits(hysteresis, mid, [last], rest);
      RunOne(hysteresis, mid, last);
      StepStores(hysteresis, mid, last, device, gauge);
      assert Tells(last, device, gauge);
      SilenceKeeps(hysteresis, Do(hysteresis, mid, last).states, rest, device, gauge);
    }
  }

  // ---- Events ----

  /** The transition an event stands for: ignition, relay, fix or coverage. */
  predicate Becomes(before: State, after: State, what: EventType) {
    match what
    case IgnitionOn => after.acc == Some(true) && before.acc != Some(true)
    case IgnitionOff => after.acc == Some(false) && before.acc != Some(false)
    case RelayEngaged => after.relayOn == Some(true) && before.relayOn != Some(true)
    case RelayReleased => after.relayOn == Some(false) && before.relayOn != Some(false)
    case GpsRecovered => after.gpsValid == Some(true) && before.gpsValid != Some(true)
    case GpsLost => after.gpsValid == Some(false) && before.gpsValid != Some(false)
    case GsmLost => before.gsmLevel.Some? && before.gsmLevel.value > 0 && after.gsmLevel == Some(0)
    case GsmRecovered => before.gsmLevel == Some(0) && after.gsmLevel.Some? && after.gsmLevel.value > 0
    case _ => false
  }

  /** Telemetry raises exactly the transitions that happened. */
  lemma StateEventsIff(device: DeviceId, before: State, after: State, what: EventType)
    ensures Event(device, FromState, what) in StateEvents(device, before, after) <==> Becomes(before, after, what)
  {
    hide Transition, GsmTransition;
    TransitionIff(device, before.acc, after.acc, IgnitionOn, IgnitionOff, what);
    TransitionIff(device, before.relayOn, after.relayOn, RelayEngaged, RelayReleased, what);
    TransitionIff(device, before.gpsValid, after.gpsValid, GpsRecovered, GpsLost, what);
    GsmTransitionIff(device, before.gsmLevel, after.gsmLevel, what);
  }

  lemma TransitionIff(device: DeviceId, before: Option<bool>, after: Option<bool>, on: EventType, off: EventType, what: EventType)
    requires on != off
    ensures Event(device, FromState, what) in Transition(device, before, after, on, off) <==>
      || (what == on && after == Some(true) && before != Some(true))
      || (what == off && after == Some(false) && before != Some(false))
  {
  }

  lemma GsmTransitionIff(device: DeviceId, before: Option<nat>, after: Option<nat>, what: EventType)
    ensures Event(device, FromState, what) in GsmTransition(device, before, after) <==>
      || (what == GsmLost && before.Some? && before.value > 0 && after == Some(0))
      || (what == GsmRecovered && before == Some(0) && after.Some? && after.value > 0)
  {
  }

  /** Several transitions at once: ignition, relay, fix, coverage. */
  lemma FourAtOnce(device: DeviceId, before: State, after: State)
    requires after.acc == after.relayOn == after.gpsValid == Some(true) && after.gsmLevel == Some(3)
    requires before.acc == before.relayOn == before.gpsValid == Some(false) && before.gsmLevel == Some(0)
    ensures StateEvents(device, before, after) == [
      Event(device, FromState, IgnitionOn), Event(device, FromState, RelayEngaged),
      Event(device, FromState, GpsRecovered), Event(device, FromState, GsmRecovered)]
  {
  }

  /** The device's own alarms by their labels. */
  lemma AlarmLabels(device: DeviceId, alarm: string)
    ensures AlarmEvents(device, "") == []
    ensures alarm != "" ==> AlarmEvents(device, alarm) == [Event(device, FromAlarm,
      if alarm == "SOS" then Sos else if alarm == "POWER_LOSS" then PowerLoss
      else if alarm == "LOW_BATTERY" then LowBattery else if alarm == "VIBRATION" then Vibration
      else if alarm == "OVERSPEED" then Overspeed else if alarm == "IGNITION_ON" then IgnitionOn
      else if alarm == "IGNITION_OFF" then IgnitionOff else DeviceAlarm)]
  {
  }

  /** A fence is entered when the present fences have it and the previous ones do not, and left the other way round. */
  lemma FenceEventsIff(device: DeviceId, before: seq<FenceId>, present: seq<FenceId>, fence: FenceId)
    ensures var events := FenceEvents(device, before, present);
      && (Event(device, FromFences, GeofenceEnter(fence)) in events <==> fence in present && fence !in before)
      && (Event(device, FromFences, GeofenceExit(fence)) in events <==> fence in before && fence !in present)
      && forall i, j | 0 <= i < j < |events| && events[i].what.GeofenceExit? :: !events[j].what.GeofenceEnter?
  {
    hide Missing;
    CrossingsIff(device, Missing(present, before), true, fence);
    CrossingsIff(device, Missing(before, present), false, fence);
  }

  lemma CrossingsIff(device: DeviceId, fences: seq<FenceId>, entering: bool, fence: FenceId)
    ensures var events := Crossings(device, fences, entering);
      && (Event(device, FromFences, GeofenceEnter(fence)) in events <==> entering && fence in fences)
      && (Event(device, FromFences, GeofenceExit(fence)) in events <==> !entering && fence in fences)
  {
    var events := Crossings(device, fences, entering);
    if fence in fences {
      var i :| 0 <= i < |fences| && fences[i] == fence;
      assert events[i] == Crossing(device, fence, entering);
    }
  }

  // ---- Speed ----

  /** One sample: above the limit it starts an overspeed, and only at or below the limit less the hysteresis it ends one. */
  lemma SampleExactly(hysteresis: real, states: States, device: DeviceId, speed: real, limit: real)
    ensures var o := Do(hysteresis, states, SpeedStep(device, speed, limit));
      var was := Current(states, device);
      var over := if was.overspeed then speed > limit - hysteresis else speed > limit;
      if limit <= 0.0 then o == Outcome(states, [])
      else o == Outcome(states[device := was.(overspeed := over)],
        if over == was.overspeed then [] else [Event(device, FromSpeed, if over then Overspeed else OverspeedEnd)])
  {
  }

  /** After any run, a sample above the limit leaves the device overspeeding, a slow enough one does not. */
  lemma SampleDecides(hysteresis: real, states: States, steps: seq<Step>, device: DeviceId, speed: real, limit: real)
    requires hysteresis >= 0.0 && limit > 0.0
    ensures var after := Current(Run(hysteresis, states, steps + [SpeedStep(device, speed, limit)]).states, device);
      (speed > limit ==> after.overspeed) && (speed <= limit - hysteresis ==> !after.overspeed)
  {
    hide Do, Run;
    var before := Run(hysteresis, states, steps).states;
    var sample := SpeedStep(device, speed, limit);
    RunSplits(hysteresis, states, steps, [sample]);
    RunOne(hysteresis, before, sample);
    SampleExactly(hysteresis, before, device, speed, limit);
  }

  // ---- One message ----

  /** What a whole message leaves: its readings, and with a stored location also the speed verdict and the fences. */
  lemma MessageLeaves(hysteresis: real, states: States, device: DeviceId, msg: Telemetry, stored: bool, limit: real, present: seq<FenceId>)
    ensures var was := Current(states, device);
      var after := Current(Run(hysteresis, states, MessageSteps(device, msg, stored, limit, present)).states, device);
      && after.overspeed == (
           if msg.hasLocation && stored && limit > 0.0
           then (if was.overspeed then msg.speedKmh > limit - hysteresis else msg.speedKmh > limit)
           else was.overspeed)
      && after.insideFences == (if msg.hasLocation && stored && msg.gpsValid then present else was.insideFences)
      && forall gauge :: Kept(after, gauge) == if Told(msg, gauge).Some? then Told(msg, gauge) else Kept(was, gauge)
  {
    hide Do, Run, Kept, Told, ApplyTelemetry, ApplySpeed;
    var telemetry, speed, fence := TelemetryStep(device, msg), SpeedStep(device, msg.speedKmh, limit), FenceStep(device, msg.gpsValid, present);
    var first := Do(hysteresis, states, telemetry).states;
    RunOne(hysteresis, states, telemetry);
    TelemetryKeeps(hysteresis, states, device, msg);
    if msg.hasLocation && stored {
      var second := Do(hysteresis, first, speed).states;
      assert [speed] + [fence] == [speed, fence];
      RunCons(hysteresis, states, telemetry, [speed, fence]);
      RunCons(hysteresis, first, speed, [fence]);
      RunOne(hysteresis, first, speed);
      RunOne(hysteresis, second, fence);
      SampleExactly(hysteresis, first, device, msg.speedKmh, limit);
      FenceStepExactly(hysteresis, second, device, msg.gpsValid, present);
    } else {
      assert MessageSteps(device, msg, stored, limit, present) == [telemetry];
    }
    forall gauge
      ensures Kept(Current(Run(hysteresis, states, MessageSteps(device, msg, stored, limit, present)).states, device), gauge)
        == if Told(msg, gauge).Some? then Told(msg, gauge) else Kept(Current(states, device), gauge)
    {
      StepStores(hysteresis, states, telemetry, device, gauge);
      if msg.hasLocation && stored {
        StepStores(hysteresis, first, speed, device, gauge);
        StepStores(hysteresis, Do(hysteresis, first, speed).states, fence, device, gauge);
      }
    }
  }

  /** And the events it raises, in order: transitions, alarm, speed, fences. */
  lemma MessageRaises(hysteresis: real, states: States, device: DeviceId, msg: Telemetry, stored: bool, limit: real, present: seq<FenceId>)
    ensures var was := Current(states, device);
      var told := ApplyTelemetry(was, msg);
      var telling := StateEvents(device, was, told) + AlarmEvents(device, msg.alarm);
      var over := if was.overspeed then msg.speedKmh > limit - hysteresis else msg.speedKmh > limit;
      var speeding := if limit <= 0.0 || over == was.overspeed then []
        else [Event(device, FromSpeed, if over then Overspeed else OverspeedEnd)];
      var crossing := if msg.gpsValid then FenceEvents(device, was.insideFences, present) else [];
      Run(hysteresis, states, MessageSteps(device, msg, stored, limit, present)).events ==
        telling + (if msg.hasLocation && stored then speeding + crossing else [])
  {
    hide Run, ApplySpeed, StateEvents, AlarmEvents, FenceEvents;
    var telemetry, speed, fence := TelemetryStep(device, msg), SpeedStep(device, msg.speedKmh, limit), FenceStep(device, msg.gpsValid, present);
    var first := Do(hysteresis, states, telemetry).states;
    RunOne(hysteresis, states, telemetry);
    TelemetryKeeps(hysteresis, states, device, msg);
    if msg.hasLocation && stored {
      var second := Do(hysteresis, first, speed).states;
      assert [speed] + [fence] == [speed, fence];
      RunCons(hysteresis, states, telemetry, [speed, fence]);
      RunCons(hysteresis, first, speed, [fence]);
      RunOne(hysteresis, first, speed);
      RunOne(hysteresis, second, fence);
      SampleExactly(hysteresis, first, device, msg.speedKmh, limit);
    } else {
      assert MessageSteps(device, msg, stored, limit, present) == [telemetry];
    }
  }

  lemma TelemetryKeeps(hysteresis: real, states: States, device: DeviceId, msg: Telemetry)
    ensures var was, after := Current(states, device), Current(Do(hysteresis, states, TelemetryStep(device, msg)).states, device);
      after.overspeed == was.overspeed && after.insideFences == was.insideFences
  {
    hide StateEvents, AlarmEvents;
  }

  lemma FenceStepExactly(hysteresis: real, states: States, device: DeviceId, gpsValid: bool, present: seq<FenceId>)
    ensures var after := Current(Do(hysteresis, states, FenceStep(device, gpsValid, present)).states, device);
      after == if gpsValid then Current(states, device).(insideFences := present) else Current(states, device)
  {
    hide FenceEvents;
  }
}
