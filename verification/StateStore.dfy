/** tracking/state.go: the in-memory state of every device. */
module StateStore {
  import opened Wrappers

  type DeviceId = nat
  type FenceId = nat

  datatype State = State(
    overspeed: bool, acc: Option<bool>, gpsValid: Option<bool>, relayOn: Option<bool>,
    batteryPercent: Option<int>, batteryVoltage: Option<real>, gsmLevel: Option<nat>, insideFences: seq<FenceId>)

  const NEW_STATE := State(false, None, None, None, None, None, None, [])

  type States = map<DeviceId, State>

  /** The state an update starts from. */
  function Current(states: States, device: DeviceId): State {
    if device in states then states[device] else NEW_STATE
  }

  /** What a reader of the store sees. */
  function Lookup(states: States, device: DeviceId): Option<State> {
    if device in states then Some(states[device]) else None
  }

  class Store {
    var states: States

    constructor ()
      ensures states == map[]
    {
      states := map[];
    }

    method Load(loaded: States)
      modifies this
      ensures states == loaded
    {
      states := loaded;
    }

    method Get(device: DeviceId) returns (r: Option<State>)
      ensures r == Lookup(states, device)
    {
      if device in states {
        return Some(states[device]);
      }
      return None;
    }

    /** One atomic step: the caller gets the state it replaced and the state it installed. */
    method Update(device: DeviceId, mutate: State -> State) returns (before: State, after: State)
      modifies this
      ensures before == Current(old(states), device) && after == mutate(before)
      ensures states == old(states)[device := after]
      ensures forall d :: Lookup(states, d) == if d == device then Some(after) else Lookup(old(states), d)
    {
      before := if device in states then states[device] else NEW_STATE;
      after := mutate(before);
      states := states[device := after];
    }
  }
}
