/** One train: a tick moves it along its section, across the end of it, or against a dead end. */
module TrainSim {
  import opened Wrappers
  import Topology

  datatype DriverState = Stopped | Accelerating | Cruising | Braking

  datatype Physics = Physics(position: real, velocity: real, accel: real, traction: real, brake: real)

  datatype SimState = SimState(trainUid: Topology.Uid, section: Topology.Uid, physics: Physics, driver: DriverState,
                               maxBrake: real, totalAxles: int)

  /** What the control policy and the integrator made of one tick; any values are possible. */
  datatype Motion = Motion(physics: Physics, driver: DriverState)

  datatype Crossing = Crossing(from: Topology.Uid, to: Topology.Uid, overshoot: real)

  // ---- Specification ------------------------------------------------------------------------------

  predicate ReachesEnd(m: Motion, length: real)
  {
    length > 0.0 && m.physics.position >= length
  }

  function TickCrossing(s: SimState, m: Motion, length: real, next: Option<Topology.Uid>): Option<Crossing>
  {
    if ReachesEnd(m, length) && next.Some?
    then Some(Crossing(s.section, next.value, m.physics.position - length))
    else None
  }

  function TickState(s: SimState, m: Motion, length: real, next: Option<Topology.Uid>): SimState
  {
    if !ReachesEnd(m, length) then s.(physics := m.physics, driver := m.driver)
    else if next.Some? then
      s.(section := next.value, physics := m.physics.(position := m.physics.position - length), driver := m.driver)
    else s.(physics := Physics(length, 0.0, 0.0, 0.0, s.maxBrake), driver := Stopped)
  }

  /** The distance a dead end takes away from the integrator's step. */
  function Clamped(m: Motion, length: real, next: Option<Topology.Uid>): (d: real)
    ensures d >= 0.0
  {
    if ReachesEnd(m, length) && next.None? then m.physics.position - length else 0.0
  }

  /** A tick in each of its three cases: the end of the section is not reached; or it is and there is a next
      section, into which the train goes on by what it overshot; or there is none, and the train stands at
      the end, braked with all it has. */
  lemma TickCases(s: SimState, m: Motion, length: real, next: Option<Topology.Uid>)
    ensures var (t, c) := (TickState(s, m, length, next), TickCrossing(s, m, length, next));
            && (c.Some? <==> length > 0.0 && m.physics.position >= length && next.Some?)
            && (c.Some? ==>
                  && c.value == Crossing(s.section, t.section, t.physics.position) && next == Some(t.section)
                  && t.physics.position + length == m.physics.position && t.physics.velocity == m.physics.velocity)
            && (c.None? ==> t.section == s.section)
            && (length <= 0.0 || m.physics.position < length ==> t.physics == m.physics && t.driver == m.driver)
            && (length > 0.0 && m.physics.position >= length && next.None? ==>
                  && t.physics.position == length && t.driver == Stopped
                  && t.physics.velocity == t.physics.accel == t.physics.traction == 0.0 && t.physics.brake == s.maxBrake)
            && t.trainUid == s.trainUid && t.totalAxles == s.totalAxles && t.maxBrake == s.maxBrake
  {
  }

  // ---- The code -----------------------------------------------------------------------------------

  class TrainSim {
    var state: SimState

    constructor (initial: SimState)
      ensures state == initial
    {
      state := initial;
    }

    method Tick(m: Motion, sectionLength: real, next: Option<Topology.Uid>) returns (crossing: Option<Crossing>)
      modifies this
      ensures state == TickState(old(state), m, sectionLength, next)
      ensures crossing == TickCrossing(old(state), m, sectionLength, next)
    {
      state := state.(physics := m.physics, driver := m.driver);
      crossing := None;
      if sectionLength > 0.0 && state.physics.position >= sectionLength {
        var overshoot := state.physics.position - sectionLength;
        if next.Some? {
          crossing := Some(Crossing(state.section, next.value, overshoot));
          state := state.(section := next.value, physics := state.physics.(position := overshoot));
        } else {
          state := state.(physics := Physics(sectionLength, 0.0, 0.0, 0.0, state.maxBrake), driver := Stopped);
        }
      }
    }
  }
}
