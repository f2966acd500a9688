/**
  What the recorded events say over whole runs: replayed from the initial state they give the present
  one, whatever the devices, sessions and interleaving of the steps.
 */
module IngestorRuns {
  import opened Wrappers
  import opened StateStore
  import opened Ingestor

  /** The two-valued conditions the ingestor watches. */
  datatype Detector = Ignition | Relay | GpsFix | Coverage | Speeding

  function Reading(st: State, detector: Detector): Option<bool> {
    match detector
    case Ignition => st.acc
    case Relay => st.relayOn
    case GpsFix => st.gpsValid
    case Coverage => if st.gsmLevel.Some? then Some(st.gsmLevel.value > 0) else None
    case Speeding => Some(st.overspeed)
  }

  /** What an event tells about a condition of a device; the device's own alarms are not the detector's. */
  function Signal(e: Event, device: DeviceId, detector: Detector): Option<bool> {
    if e.device != device || e.origin == FromAlarm then None
    else
      match detector
      case Ignition => Either(e.what, IgnitionOn, IgnitionOff)
      case Relay => Either(e.what, RelayEngaged, RelayReleased)
      case GpsFix => Either(e.what, GpsRecovered, GpsLost)
      case Coverage => Either(e.what, GsmRecovered, GsmLost)
      case Speeding => Either(e.what, Overspeed, OverspeedEnd)
  }

  function Either(what: EventType, on: EventType, off: EventType): Option<bool> {
    if what == on then Some(true) else if what == off then Some(false) else None
  }

  function AsSeq(signal: Option<bool>): seq<bool> {
    if signal.Some? then [signal.value] else []
  }

  function Signals(events: seq<Event>, device: DeviceId, detector: Detector): seq<bool> {
    if events == [] then []
    else AsSeq(Signal(events[0], device, detector)) + Signals(events[1..], device, detector)
  }

  /** No value repeats the one before it. */
  predicate Alternates(previous: Option<bool>, values: seq<bool>)
    decreases |values|
  {
    values == [] || (previous != Some(values[0]) && Alternates(Some(values[0]), values[1..]))
  }

  function Last(previous: Option<bool>, values: seq<bool>): Option<bool> {
    if values == [] then previous else Some(values[|values| - 1])
  }

  lemma SignalsEmpty(device: DeviceId, detector: Detector)
    ensures Signals([], device, detector) == []
  {
  }

  lemma SignalsCons(e: Event, events: seq<Event>, device: DeviceId, detector: Detector)
    ensures Signals([e] + events, device, detector) == AsSeq(Signal(e, device, detector)) + Signals(events, device, detector)
  {
    hide Signal, AsSeq;
    assert ([e] + events)[1..] == events;
  }

  lemma {:induction false} SignalsConcat(a: seq<Event>, b: seq<Event>, device: DeviceId, detector: Detector)
    ensures Signals(a + b, device, detector) == Signals(a, device, detector) + Signals(b, device, detector)
  {
    hide Signals, Signal, AsSeq;
    SignalsEmpty(device, detector);
    if a == [] {
      assert a + b == b;
    } else {
      SignalsConcat(a[1..], b, device, detector);
      SignalsCons(a[0], a[1..], device, detector);
      SignalsCons(a[0], a[1..] + b, device, detector);
      assert [a[0]] + a[1..] == a && a + b == [a[0]] + (a[1..] + b);
    }
  }

  lemma SignalsOne(e: Event, device: DeviceId, detector: Detector)
    ensures Signals([], device, detector) == []
    ensures var signal := Signal(e, device, detector);
      Signals([e], device, detector) == if signal.Some? then [signal.value] else []
  {
    hide Signal;
    assert [e][1..] == [];
  }

  lemma TransitionSignals(device: DeviceId, before: Option<bool>, after: Option<bool>, on: EventType, off: EventType,
    watched: DeviceId, detector: Detector)
    requires on != off && Signal(Event(device, FromState, on), watched, detector) in {None, Some(true)}
    requires Signal(Event(device, FromState, off), watched, detector)
      == if Signal(Event(device, FromState, on), watched, detector).Some? then Some(false) else None
    ensures Signals(Transition(device, before, after, on, off), watched, detector)
      == if Signal(Event(device, FromState, on), watched, detector).Some? && Changed(before, after) then [after.value] else []
  {
    hide Signals, Signal;
    SignalsOne(Event(device, FromState, on), watched, detector);
    SignalsOne(Event(device, FromState, off), watched, detector);
  }

  /** The signals of one telemetry update are the changes of the watched condition. */
  lemma StateSignals(device: DeviceId, before: State, after: State, watched: DeviceId, detector: Detector)
    ensures Signals(StateEvents(device, before, after), watched, detector) ==
      if device == watched && detector != Speeding && Changed(Reading(before, detector), Reading(after, detector))
        && (detector == Coverage ==> before.gsmLevel.Some?)
      then [Reading(after, detector).value] else []
  {
    hide Signals, Transition, GsmTransition, Changed;
    var a := Transition(device, before.acc, after.acc, IgnitionOn, IgnitionOff);
    var b := Transition(device, before.relayOn, after.relayOn, RelayEngaged, RelayReleased);
    var c := Transition(device, before.gpsValid, after.gpsValid, GpsRecovered, GpsLost);
    var d := GsmTransition(device, before.gsmLevel, after.gsmLevel);
    SignalsConcat(a + b + c, d, watched, detector);
    SignalsConcat(a + b, c, watched, detector);
    SignalsConcat(a, b, watched, detector);
    TransitionSignals(device, before.acc, after.acc, IgnitionOn, IgnitionOff, watched, detector);
    TransitionSignals(device, before.relayOn, after.relayOn, RelayEngaged, RelayReleased, watched, detector);
    TransitionSignals(device, before.gpsValid, after.gpsValid, GpsRecovered, GpsLost, watched, detector);
    GsmSignals(device, before, after, watched, detector);
  }

  lemma GsmSignals(device: DeviceId, before: State, after: State, watched: DeviceId, detector: Detector)
    ensures Signals(GsmTransition(device, before.gsmLevel, after.gsmLevel), watched, detector) ==
      if device == watched && detector == Coverage && before.gsmLevel.Some?
        && Changed(Reading(before, Coverage), Reading(after, Coverage))
      then [Reading(after, Coverage).value] else []
  {
    hide Signals;
    SignalsOne(Event(device, FromState, GsmLost), watched, detector);
    SignalsOne(Event(device, FromState, GsmRecovered), watched, detector);
  }

  lemma {:induction false} NoSignals(events: seq<Event>, watched: DeviceId, detector: Detector)
    requires forall i | 0 <= i < |events| :: events[i].origin == FromAlarm || events[i].origin == FromFences
    requires forall i | 0 <= i < |events| :: events[i].origin == FromFences ==> events[i].what.GeofenceEnter? || events[i].what.GeofenceExit?
    ensures Signals(events, watched, detector) == []
  {
    if events != [] {
      NoSignals(events[1..], watched, detector);
    }
  }

  /** The events are those of one change, or none, of the watched condition. */
  predicate SignalsChange(before: State, after: State, events: seq<Event>, watched: DeviceId, detector: Detector) {
    var past, now := Reading(before, detector), Reading(after, detector);
    && Signals(events, watched, detector)
       == (if Changed(past, now) && (detector == Coverage ==> past.Some?) then [now.value] else [])
    && (!Changed(past, now) ==> now == past)
  }

  lemma TelemetrySignals(device: DeviceId, before: State, msg: Telemetry, watched: DeviceId, detector: Detector)
    ensures var after := ApplyTelemetry(before, msg);
      var events := StateEvents(device, before, after) + AlarmEvents(device, msg.alarm);
      if device == watched then SignalsChange(before, after, events, watched, detector) else Signals(events, watched, detector) == []
  {
    hide Signals, StateEvents;
    var after := ApplyTelemetry(before, msg);
    StateSignals(device, before, after, watched, detector);
    NoSignals(AlarmEvents(device, msg.alarm), watched, detector);
    SignalsConcat(StateEvents(device, before, after), AlarmEvents(device, msg.alarm), watched, detector);
  }

  lemma SpeedSignals(device: DeviceId, before: State, speed: real, limit: real, hysteresis: real, watched: DeviceId, detector: Detector)
    ensures var after := ApplySpeed(before, speed, limit, hysteresis);
      var events := SpeedEvents(device, before, after);
      if device == watched then SignalsChange(before, after, events, watched, detector) else Signals(events, watched, detector) == []
  {
    hide Signals;
    SignalsOne(Event(device, FromSpeed, Overspeed), watched, detector);
    SignalsOne(Event(device, FromSpeed, OverspeedEnd), watched, detector);
  }

  /** One step signals exactly the change it made to the condition. */
  lemma StepSignals(hysteresis: real, states: States, s: Step, watched: DeviceId, detector: Detector)
    ensures var o := Do(hysteresis, states, s);
      SignalsChange(Current(states, watched), Current(o.states, watched), o.events, watched, detector)
  {
    hide Signals, StateEvents, AlarmEvents, SpeedEvents, FenceEvents, ApplyTelemetry, ApplySpeed;
    var st := Current(states, s.device);
    NoSignals([], watched, detector);
    match s
    case TelemetryStep(device, msg) => TelemetrySignals(device, st, msg, watched, detector);
    case SpeedStep(device, speed, limit) => SpeedSignals(device, st, speed, limit, hysteresis, watched, detector);
    case FenceStep(device, gpsValid, present) =>
      FenceEventsOrigin(device, st.insideFences, present);
      NoSignals(FenceEvents(device, st.insideFences, present), watched, detector);
  }

  lemma FenceEventsOrigin(device: DeviceId, before: seq<FenceId>, present: seq<FenceId>)
    ensures forall i | 0 <= i < |FenceEvents(device, before, present)| ::
      FenceEvents(device, before, present)[i].origin == FromFences
      && (FenceEvents(device, before, present)[i].what.GeofenceEnter? || FenceEvents(device, before, present)[i].what.GeofenceExit?)
  {
    hide Missing;
  }

  /**
    Over any run, the events of a detector never repeat themselves, start by contradicting the initial
    reading, and the last one is the present reading.
   */
  lemma {:induction false} DetectorReplays(hysteresis: real, states: States, steps: seq<Step>, device: DeviceId, detector: Detector)
    requires detector != Coverage
    ensures var o := Run(hysteresis, states, steps);
      var first, signals := Reading(Current(states, device), detector), Signals(o.events, device, detector);
      Alternates(first, signals) && Last(first, signals) == Reading(Current(o.states, device), detector)
    decreases |steps|
  {
    hide Do, Signals, Reading, Current;
    if steps == [] {
      SignalsOne(Event(device, FromSpeed, Overspeed), device, detector);
    } else {
      var o := Do(hysteresis, states, steps[0]);
      var rest := Run(hysteresis, o.states, steps[1..]);
      StepSignals(hysteresis, states, steps[0], device, detector);
      DetectorReplays(hysteresis, o.states, steps[1..], device, detector);
      SignalsConcat(o.events, rest.events, device, detector);
      Prepend(Reading(Current(states, device), detector), Signals(o.events, device, detector), Signals(rest.events, device, detector));
    }
  }

  lemma Prepend(first: Option<bool>, a: seq<bool>, b: seq<bool>)
    requires |a| <= 1 && Alternates(first, a) && Alternates(Last(first, a), b)
    ensures Alternates(first, a + b) && Last(first, a + b) == Last(Last(first, a), b)
  {
    if a == [] {
      assert a + b == b;
    } else {
      assert (a + b)[1..] == b;
    }
  }

  /** Coverage is only compared once a level is known, so its first reading raises nothing. */
  lemma {:induction false} CoverageReplays(hysteresis: real, states: States, steps: seq<Step>, device: DeviceId)
    ensures var o := Run(hysteresis, states, steps);
      var first, signals := Reading(Current(states, device), Coverage), Signals(o.events, device, Coverage);
      && Alternates(first, signals)
      && (first.Some? || signals != [] ==> Last(first, signals) == Reading(Current(o.states, device), Coverage))
    decreases |steps|
  {
    hide Do, Signals, Reading, Current;
    if steps == [] {
      SignalsOne(Event(device, FromSpeed, Overspeed), device, Coverage);
    } else {
      var o := Do(hysteresis, states, steps[0]);
      var rest := Run(hysteresis, o.states, steps[1..]);
      StepSignals(hysteresis, states, steps[0], device, Coverage);
      CoverageReplays(hysteresis, o.states, steps[1..], device);
      SignalsConcat(o.events, rest.events, device, Coverage);
      if Signals(o.events, device, Coverage) == [] {
        assert Signals(o.events, device, Coverage) + Signals(rest.events, device, Coverage) == Signals(rest.events, device, Coverage);
      } else {
        Prepend(Reading(Current(states, device), Coverage), Signals(o.events, device, Coverage), Signals(rest.events, device, Coverage));
      }
    }
  }

  // ---- Overspeed hysteresis ----

  /** Step `i` of the run raises an overspeed start for the device. */
  predicate StartsAt(hysteresis: real, states: States, steps: seq<Step>, i: nat, device: DeviceId)
    requires i < |steps|
  {
    Event(device, FromSpeed, Overspeed) in Do(hysteresis, Run(hysteresis, states, steps[..i]).states, steps[i]).events
  }

  /** A sample slow enough to end an overspeed. */
  predicate Calms(hysteresis: real, s: Step, device: DeviceId) {
    s.SpeedStep? && s.device == device && s.limit > 0.0 && s.speed <= s.limit - hysteresis
  }

  lemma {:induction false} OverspeedEndsOnlyCalm(hysteresis: real, states: States, steps: seq<Step>, device: DeviceId)
    returns (k: nat)
    requires Current(states, device).overspeed && !Current(Run(hysteresis, states, steps).states, device).overspeed
    ensures k < |steps| && Calms(hysteresis, steps[k], device)
    decreases |steps|
  {
    var o := Do(hysteresis, states, steps[0]);
    if Current(o.states, device).overspeed {
      var m := OverspeedEndsOnlyCalm(hysteresis, o.states, steps[1..], device);
      k := m + 1;
    } else {
      k := 0;
    }
  }

  lemma StartSetsOverspeed(hysteresis: real, states: States, s: Step, device: DeviceId)
    requires Event(device, FromSpeed, Overspeed) in Do(hysteresis, states, s).events
    ensures s.SpeedStep? && s.device == device && s.limit > 0.0 && s.speed > s.limit
    ensures !Current(states, device).overspeed && Current(Do(hysteresis, states, s).states, device).overspeed
  {
    hide Missing;
    if s.FenceStep? {
      FenceEventsOrigin(s.device, Current(states, s.device).insideFences, s.present);
    }
  }

  lemma {:induction false} RunSplits(hysteresis: real, states: States, a: seq<Step>, b: seq<Step>)
    ensures var first := Run(hysteresis, states, a);
      var rest := Run(hysteresis, first.states, b);
      Run(hysteresis, states, a + b) == Outcome(rest.states, first.events + rest.events)
    decreases |a|
  {
    hide Do;
    if a == [] {
      assert a + b == b;
    } else {
      assert (a + b)[1..] == a[1..] + b;
      RunSplits(hysteresis, Do(hysteresis, states, a[0]).states, a[1..], b);
    }
  }

  /** Between two overspeed starts there is always a sample at or below its limit less the hysteresis. */
  lemma StartsAreSeparated(hysteresis: real, states: States, steps: seq<Step>, i: nat, j: nat, device: DeviceId)
    requires i < j < |steps|
    requires StartsAt(hysteresis, states, steps, i, device) && StartsAt(hysteresis, states, steps, j, device)
    ensures exists k :: i < k < j && Calms(hysteresis, steps[k], device)
  {
    hide Do, Calms, Run;
    var before := Run(hysteresis, states, steps[..i]).states;
    var started := Do(hysteresis, before, steps[i]).states;
    var middle := steps[i + 1..j];
    StartSetsOverspeed(hysteresis, before, steps[i], device);
    StartSetsOverspeed(hysteresis, Run(hysteresis, states, steps[..j]).states, steps[j], device);
    RunOne(hysteresis, before, steps[i]);
    assert steps[..j] == (steps[..i] + [steps[i]]) + middle;
    RunSplits(hysteresis, states, steps[..i], [steps[i]]);
    RunSplits(hysteresis, states, steps[..i] + [steps[i]], middle);
    var k := OverspeedEndsOnlyCalm(hysteresis, started, middle, device);
    assert middle[k] == steps[i + 1 + k];
  }

  // ---- Fences ----

  /** Replays the fence events of a device; None if an event enters a fence twice or leaves one it is not in. */
  function ReplayFences(inside: set<FenceId>, events: seq<Event>, device: DeviceId): Option<set<FenceId>>
    decreases |events|
  {
    if events == [] then Some(inside)
    else if events[0].device != device || events[0].origin != FromFences then ReplayFences(inside, events[1..], device)
    else
      match events[0].what
      case GeofenceEnter(f) => if f in inside then None else ReplayFences(inside + {f}, events[1..], device)
      case GeofenceExit(f) => if f !in inside then None else ReplayFences(inside - {f}, events[1..], device)
      case _ => ReplayFences(inside, events[1..], device)
  }

  function AsSet(fences: seq<FenceId>): set<FenceId> {
    set f | f in fences
  }

  lemma {:induction false} ReplayConcat(inside: set<FenceId>, a: seq<Event>, b: seq<Event>, device: DeviceId)
    ensures ReplayFences(inside, a + b, device) ==
      match ReplayFences(inside, a, device) case None => None case Some(mid) => ReplayFences(mid, b, device)
    decreases |a|
  {
    if a == [] {
      assert a + b == b;
    } else {
      assert (a + b)[1..] == a[1..] + b;
      if a[0].what.GeofenceEnter? {
        ReplayConcat(inside + {a[0].what.fence}, a[1..], b, device);
      }
      if a[0].what.GeofenceExit? {
        ReplayConcat(inside - {a[0].what.fence}, a[1..], b, device);
      }
      ReplayConcat(inside, a[1..], b, device);
    }
  }

  lemma {:induction false} ReplayCrossings(inside: set<FenceId>, fences: seq<FenceId>, device: DeviceId, entering: bool)
    requires Distinct(fences) && forall f | f in fences :: f in inside <==> !entering
    ensures ReplayFences(inside, Crossings(device, fences, entering), device)
      == Some(if entering then inside + AsSet(fences) else inside - AsSet(fences))
    decreases |fences|
  {
    var events := Crossings(device, fences, entering);
    if fences == [] {
      assert inside + AsSet(fences) == inside && inside - AsSet(fences) == inside;
    } else {
      var f := fences[0];
      assert events[1..] == Crossings(device, fences[1..], entering);
      var next := if entering then inside + {f} else inside - {f};
      ReplayCrossings(next, fences[1..], device, entering);
      assert AsSet(fences) == {f} + AsSet(fences[1..]);
      assert inside + {f} + AsSet(fences[1..]) == inside + AsSet(fences);
      assert inside - {f} - AsSet(fences[1..]) == inside - AsSet(fences);
    }
  }

  lemma {:induction false} MissingDistinct(xs: seq<FenceId>, ys: seq<FenceId>)
    requires Distinct(xs)
    ensures Distinct(Missing(xs, ys))
  {
    if xs != [] {
      MissingDistinct(xs[1..], ys);
    }
  }

  /** One evaluation's crossings lead exactly from the fences before to the fences now. */
  lemma ReplayEvaluation(device: DeviceId, before: seq<FenceId>, present: seq<FenceId>)
    requires Distinct(before) && Distinct(present)
    ensures ReplayFences(AsSet(before), FenceEvents(device, before, present), device) == Some(AsSet(present))
  {
    hide ReplayFences, Crossings, Missing;
    var entered, left := Missing(present, before), Missing(before, present);
    MissingDistinct(present, before);
    MissingDistinct(before, present);
    ReplayCrossings(AsSet(before), entered, device, true);
    ReplayCrossings(AsSet(before) + AsSet(entered), left, device, false);
    ReplayConcat(AsSet(before), Crossings(device, entered, true), Crossings(device, left, false), device);
    assert AsSet(before) + AsSet(entered) - AsSet(left) == AsSet(present);
  }

  lemma {:induction false} ReplayIgnores(inside: set<FenceId>, events: seq<Event>, device: DeviceId)
    requires forall i | 0 <= i < |events| :: events[i].device != device || events[i].origin != FromFences
    ensures ReplayFences(inside, events, device) == Some(inside)
    decreases |events|
  {
    if events != [] {
      ReplayIgnores(inside, events[1..], device);
    }
  }

  /** The fence cache holds each fence once, so every evaluation sees each at most once. */
  predicate Clean(s: Step) {
    s.FenceStep? ==> Distinct(s.present)
  }

  lemma OnlyFenceStepsCross(hysteresis: real, states: States, s: Step)
    requires !s.FenceStep? || !s.gpsValid
    ensures forall i | 0 <= i < |Do(hysteresis, states, s).events| :: Do(hysteresis, states, s).events[i].origin != FromFences
    ensures forall d :: Current(Do(hysteresis, states, s).states, d).insideFences == Current(states, d).insideFences
  {
  }

  lemma StepReplaysFences(hysteresis: real, states: States, s: Step, device: DeviceId)
    requires Clean(s) && Distinct(Current(states, device).insideFences)
    ensures var o := Do(hysteresis, states, s);
      && Distinct(Current(o.states, device).insideFences)
      && ReplayFences(AsSet(Current(states, device).insideFences), o.events, device)
         == Some(AsSet(Current(o.states, device).insideFences))
  {
    hide ReplayFences, FenceEvents, Distinct;
    var o, inside := Do(hysteresis, states, s), Current(states, device).insideFences;
    if s.FenceStep? && s.gpsValid {
      if s.device == device {
        ReplayEvaluation(device, inside, s.present);
      } else {
        FenceEventsDevice(s.device, Current(states, s.device).insideFences, s.present);
        ReplayIgnores(AsSet(inside), o.events, device);
      }
    } else {
      OnlyFenceStepsCross(hysteresis, states, s);
      ReplayIgnores(AsSet(inside), o.events, device);
    }
  }

  lemma FenceEventsDevice(device: DeviceId, before: seq<FenceId>, present: seq<FenceId>)
    ensures forall i | 0 <= i < |FenceEvents(device, before, present)| :: FenceEvents(device, before, present)[i].device == device
  {
    hide Missing;
  }

  /** Over any run, replaying a device's fence events from its initial fences gives its present ones. */
  lemma {:induction false} FencesReplay(hysteresis: real, states: States, steps: seq<Step>, device: DeviceId)
    requires Distinct(Current(states, device).insideFences) && forall i | 0 <= i < |steps| :: Clean(steps[i])
    ensures var o := Run(hysteresis, states, steps);
      ReplayFences(AsSet(Current(states, device).insideFences), o.events, device)
      == Some(AsSet(Current(o.states, device).insideFences))
    decreases |steps|
  {
    hide Do, ReplayFences, Clean, Distinct, AsSet, Current;
    var inside := AsSet(Current(states, device).insideFences);
    if steps == [] {
      ReplayIgnores(inside, [], device);
    } else {
      var o := Do(hysteresis, states, steps[0]);
      StepReplaysFences(hysteresis, states, steps[0], device);
      FencesReplay(hysteresis, o.states, steps[1..], device);
      ReplayConcat(inside, o.events, Run(hysteresis, o.states, steps[1..]).events, device);
    }
  }

  /** The crossings of one fence by one device: true for an entry. */
  function CrossingsOf(events: seq<Event>, device: DeviceId, fence: FenceId): seq<bool> {
    if events == [] then []
    else
      var e := events[0];
      (if e.device == device && e.origin == FromFences && (e.what == GeofenceEnter(fence) || e.what == GeofenceExit(fence))
       then [e.what == GeofenceEnter(fence)] else []) + CrossingsOf(events[1..], device, fence)
  }

  /** Wherever a replay succeeds, entries and exits of each fence alternate. */
  lemma {:induction false} ReplayAlternates(inside: set<FenceId>, events: seq<Event>, device: DeviceId, fence: FenceId)
    requires ReplayFences(inside, events, device).Some?
    ensures Alternates(Some(fence in inside), CrossingsOf(events, device, fence))
    decreases |events|
  {
    if events != [] {
      var e := events[0];
      var next :=
        if e.device == device && e.origin == FromFences && e.what.GeofenceEnter? then inside + {e.what.fence}
        else if e.device == device && e.origin == FromFences && e.what.GeofenceExit? then inside - {e.what.fence}
        else inside;
      ReplayAlternates(next, events[1..], device, fence);
      var rest := CrossingsOf(events[1..], device, fence);
      Prepend(Some(fence in inside), CrossingsOf(events, device, fence)[..|CrossingsOf(events, device, fence)| - |rest|], rest);
    }
  }

  /** Entries and exits of every fence alternate over any run. */
  lemma FenceCrossingsAlternate(hysteresis: real, states: States, steps: seq<Step>, device: DeviceId, fence: FenceId)
    requires Distinct(Current(states, device).insideFences) && forall i | 0 <= i < |steps| :: Clean(steps[i])
    ensures Alternates(Some(fence in Current(states, device).insideFences),
                       CrossingsOf(Run(hysteresis, states, steps).events, device, fence))
  {
    hide Do, Run, ReplayFences, Alternates, CrossingsOf;
    FencesReplay(hysteresis, states, steps, device);
    ReplayAlternates(AsSet(Current(states, device).insideFences), Run(hysteresis, states, steps).events, device, fence);
  }

  // ---- Devices do not interfere ----

  function Own(steps: seq<Step>, device: DeviceId): seq<Step>
    decreases |steps|
  {
    if steps == [] then []
    else (if steps[0].device == device then [steps[0]] else []) + Own(steps[1..], device)
  }

  function OwnEvent(e: Event, device: DeviceId): seq<Event> {
    if e.device == device then [e] else []
  }

  function OwnEvents(events: seq<Event>, device: DeviceId): seq<Event> {
    if events == [] then []
    else OwnEvent(events[0], device) + OwnEvents(events[1..], device)
  }

  lemma OwnEventsCons(e: Event, events: seq<Event>, device: DeviceId)
    ensures OwnEvents([], device) == []
    ensures OwnEvents([e] + events, device) == OwnEvent(e, device) + OwnEvents(events, device)
  {
    assert ([e] + events)[1..] == events;
  }

  lemma {:induction false} OwnEventsConcat(a: seq<Event>, b: seq<Event>, device: DeviceId)
    ensures OwnEvents(a + b, device) == OwnEvents(a, device) + OwnEvents(b, device)
  {
    hide OwnEvents, OwnEvent;
    if a == [] {
      assert a + b == b;
      OwnEventsCons(Event(device, FromSpeed, Overspeed), [], device);
    } else {
      OwnEventsConcat(a[1..], b, device);
      OwnEventsCons(a[0], a[1..], device);
      OwnEventsCons(a[0], a[1..] + b, device);
      assert [a[0]] + a[1..] == a && a + b == [a[0]] + (a[1..] + b);
    }
  }

  lemma {:induction false} AllOrNone(events: seq<Event>, owner: DeviceId, device: DeviceId)
    requires forall i | 0 <= i < |events| :: events[i].device == owner
    ensures OwnEvents(events, device) == if owner == device then events else []
  {
    if events != [] {
      AllOrNone(events[1..], owner, device);
      assert events == [events[0]] + events[1..];
    }
  }

  /** A step logs events of its own device only, depends on that device's state only, and changes no other. */
  lemma StepIsOwn(hysteresis: real, states: States, others: States, s: Step, device: DeviceId)
    requires Lookup(states, device) == Lookup(others, device)
    ensures var o, p := Do(hysteresis, states, s), Do(hysteresis, others, s);
      if s.device == device
      then Lookup(o.states, device) == Lookup(p.states, device) && OwnEvents(o.events, device) == OwnEvents(p.events, device) == p.events
      else Lookup(o.states, device) == Lookup(states, device) && OwnEvents(o.events, device) == []
  {
    hide StateEvents, FenceEvents, SpeedEvents, AlarmEvents, OwnEvents, ApplyTelemetry, ApplySpeed;
    var o, p := Do(hysteresis, states, s), Do(hysteresis, others, s);
    EventsAreOwn(hysteresis, states, s);
    EventsAreOwn(hysteresis, others, s);
    AllOrNone(o.events, s.device, device);
    AllOrNone(p.events, s.device, device);
  }

  lemma EventsAreOwn(hysteresis: real, states: States, s: Step)
    ensures forall i | 0 <= i < |Do(hysteresis, states, s).events| :: Do(hysteresis, states, s).events[i].device == s.device
  {
    hide FenceEvents;
    if s.FenceStep? {
      FenceEventsDevice(s.device, Current(states, s.device).insideFences, s.present);
    }
  }

  /**
    Steps of other devices, wherever they fall in between, neither change a device's state nor the events
    logged for it: both are those of its own steps alone.
   */
  lemma {:induction false} DevicesAreIndependent(hysteresis: real, states: States, others: States, steps: seq<Step>, device: DeviceId)
    requires Lookup(states, device) == Lookup(others, device)
    ensures var all, own := Run(hysteresis, states, steps), Run(hysteresis, others, Own(steps, device));
      Lookup(all.states, device) == Lookup(own.states, device) && OwnEvents(all.events, device) == own.events
    decreases |steps|
  {
    hide Do, OwnEvents, Lookup;
    if steps == [] {
      AllOrNone([], device, device);
    } else {
      var s, o := steps[0], Do(hysteresis, states, steps[0]);
      StepIsOwn(hysteresis, states, others, s, device);
      OwnEventsConcat(o.events, Run(hysteresis, o.states, steps[1..]).events, device);
      if s.device == device {
        var p := Do(hysteresis, others, s);
        DevicesAreIndependent(hysteresis, o.states, p.states, steps[1..], device);
        assert ([s] + Own(steps[1..], device))[1..] == Own(steps[1..], device);
      } else {
        DevicesAreIndependent(hysteresis, o.states, others, steps[1..], device);
        assert [] + Own(steps[1..], device) == Own(steps[1..], device);
        var rest := OwnEvents(Run(hysteresis, o.states, steps[1..]).events, device);
        assert [] + rest == rest;
      }
    }
  }
}
