/** One tick of the engine: control system, fleet commands, trains, the snapshot, the PIP display and the
    published changes. */
module EngineLoop {
  import opened Wrappers
  import Sequences
  import Topology
  import TrainSim
  import opened TrainFleet
  import opened OccupancyRuns
  import opened ChangeLog
  import Journeys

  datatype FleetCommand =
    | SpawnRequest(initial: TrainSim.SimState, from: Topology.Uid)
    | DespawnRequest(train: Topology.Uid)

  /** What the control system does to the track in a tick: it sets switches. */
  datatype Setting = Setting(switch: Topology.Uid, position: Topology.SwitchPosition)

  datatype TrainSnapshot = TrainSnapshot(uid: Topology.Uid, section: Topology.Uid, speedKmh: real, totalAxles: int)

  datatype EngineSnapshot = EngineSnapshot(tick: nat, world: Topology.World, trains: seq<TrainSnapshot>)

  // ---- Specification --------------------------------------------------------------------------------

  function SettingEvents(settings: seq<Setting>): seq<Event>
  {
    seq(|settings|, i requires 0 <= i < |settings| => SetSwitch(settings[i].switch, settings[i].position))
  }

  function SettingChanges(settings: seq<Setting>): seq<Change>
  {
    seq(|settings|, i requires 0 <= i < |settings| => SwitchPositionChange(settings[i].switch, settings[i].position))
  }

  function EventOf(c: FleetCommand): Event
  {
    match c
    case SpawnRequest(initial, from) => SpawnTrain(initial, from)
    case DespawnRequest(train) => DespawnTrain(train)
  }

  function EventsOf(cs: seq<FleetCommand>): seq<Event>
  {
    seq(|cs|, i requires 0 <= i < |cs| => EventOf(cs[i]))
  }

  /** The steps of a tick, in order. */
  function TickEvents(settings: seq<Setting>, commands: seq<FleetCommand>, motion: nat -> TrainSim.Motion): seq<Event>
  {
    SettingEvents(settings) + (EventsOf(commands) + [TickTrains(motion)])
  }

  function TrainShown(e: Entry): TrainSnapshot
  {
    TrainSnapshot(e.sim.trainUid, e.sim.section, e.sim.physics.velocity * 3.6, e.sim.totalAxles)
  }

  function SnapshotOf(tick: nat, f: Fleet): EngineSnapshot
  {
    EngineSnapshot(tick, f.world, seq(|f.entries|, i requires 0 <= i < |f.entries| => TrainShown(f.entries[i])))
  }

  // ---- Runs in parts --------------------------------------------------------------------------------

  lemma {:induction false} RunConcat(f: Fleet, a: seq<Event>, b: seq<Event>)
    ensures var s := Run(f, a);
            var t := Run(s.result, b);
            Run(f, a + b) == Effect(t.result, s.changes + t.changes, s.pips + t.pips)
    decreases |a|
  {
    hide Apply;
    if a == [] {
      assert a + b == b;
    } else {
      assert (a + b)[1..] == a[1..] + b;
      var first := Apply(f, a[0]);
      RunConcat(first.result, a[1..], b);
      var (s, t) := (Run(first.result, a[1..]), Run(Run(f, a).result, b));
      Sequences.Regroup(first.changes, s.changes, t.changes);
      Sequences.Regroup(first.pips, s.pips, t.pips);
    }
  }

  lemma RunOne(f: Fleet, ev: Event)
    ensures Run(f, [ev]) == Apply(f, ev)
  {
    hide Apply;
    assert [ev][1..] == [];
  }

  lemma RunOfNothing(f: Fleet)
    ensures Run(f, []) == Effect(f, [], [])
  {
  }

  lemma SpawnApplies(f: Fleet, initial: TrainSim.SimState, from: Topology.Uid)
    ensures Apply(f, SpawnTrain(initial, from)) == Spawned(f, initial, from)
  {
  }

  lemma DespawnApplies(f: Fleet, train: Topology.Uid)
    ensures Apply(f, DespawnTrain(train)) == Despawned(f, train)
  {
  }

  lemma SettingApplies(f: Fleet, s: Setting)
    ensures Apply(f, SetSwitch(s.switch, s.position)) == Effect(Fleet(SwitchSet(f.world, s.switch, s.position), f.entries), [], [])
  {
  }

  lemma TickApplies(f: Fleet, motion: nat -> TrainSim.Motion)
    ensures Apply(f, TickTrains(motion)) == Ticked(f, Motions(f, motion))
  {
  }

  lemma EmptyTick(f: Fleet, motion: nat -> TrainSim.Motion)
    requires f.entries == []
    ensures Apply(f, TickTrains(motion)) == Effect(f, [], [])
  {
  }

  /** Setting switches logs nothing in the fleet. */
  lemma {:induction false} SettingsLogNothing(f: Fleet, settings: seq<Setting>)
    ensures var t := Run(f, SettingEvents(settings));
            t.changes == [] && t.pips == [] && t.result.entries == f.entries && t.result.world.sections == f.world.sections
    decreases |settings|
  {
    hide Apply;
    if settings != [] {
      var g := Fleet(SwitchSet(f.world, settings[0].switch, settings[0].position), f.entries);
      SettingApplies(f, settings[0]);
      assert SettingEvents(settings)[1..] == SettingEvents(settings[1..]);
      SettingsLogNothing(g, settings[1..]);
    }
  }

  // ---- What a client can do with the published changes ----------------------------------------------

  lemma {:induction false} SettingsReplayNothing(sections: map<Topology.Uid, Topology.Section>, settings: seq<Setting>)
    ensures Replay(sections, SettingChanges(settings)) == sections
    decreases |settings|
  {
    if settings != [] {
      assert SettingChanges(settings)[1..] == SettingChanges(settings[1..]);
      SettingsReplayNothing(sections, settings[1..]);
    }
  }

  /** Replaying what a tick publishes on the track of the snapshot before it gives the track of its own. */
  lemma PublishedLeadsOn(f: Fleet, settings: seq<Setting>, commands: seq<FleetCommand>, motion: nat -> TrainSim.Motion)
    ensures var t := Run(f, TickEvents(settings, commands, motion));
            Replay(f.world.sections, SettingChanges(settings) + t.changes) == t.result.world.sections
  {
    hide Run, Replay, SettingChanges, TickEvents;
    var t := Run(f, TickEvents(settings, commands, motion));
    RunReplays(f, TickEvents(settings, commands, motion));
    SettingsReplayNothing(f.world.sections, settings);
    ReplayConcat(f.world.sections, SettingChanges(settings), t.changes);
  }

  // ---- What a tick does to switches, and in which order -----------------------------------------------

  function ReplaySwitches(switches: map<Topology.Uid, Topology.Switch>, changes: seq<Change>): map<Topology.Uid, Topology.Switch>
    decreases |changes|
  {
    if changes == [] then switches
    else
      var c := changes[0];
      ReplaySwitches(if c.SwitchPositionChange? && c.uid in switches
                     then switches[c.uid := switches[c.uid].(position := c.position)] else switches, changes[1..])
  }

  lemma {:induction false} SettingsReplayed(f: Fleet, settings: seq<Setting>)
    ensures ReplaySwitches(f.world.switches, SettingChanges(settings)) == Run(f, SettingEvents(settings)).result.world.switches
    decreases |settings|
  {
    hide Apply;
    if settings != [] {
      var s := settings[0];
      var g := Fleet(SwitchSet(f.world, s.switch, s.position), f.entries);
      SettingApplies(f, s);
      assert SettingEvents(settings)[1..] == SettingEvents(settings[1..]);
      assert SettingChanges(settings)[1..] == SettingChanges(settings[1..]);
      SettingsReplayed(g, settings[1..]);
    }
  }

  lemma {:induction false} ReplayedSwitch(switches: map<Topology.Uid, Topology.Switch>, settings: seq<Setting>, sw: Topology.Uid)
    requires sw in switches
    ensures var after := ReplaySwitches(switches, SettingChanges(settings));
            && after.Keys == switches.Keys
            && after[sw].trunk == switches[sw].trunk && after[sw].straight == switches[sw].straight
            && after[sw].divergent == switches[sw].divergent
            && ((forall i :: 0 <= i < |settings| ==> settings[i].switch != sw) ==> after[sw] == switches[sw])
            && forall i :: 0 <= i < |settings| && settings[i].switch == sw
                           && (forall j :: i < j < |settings| ==> settings[j].switch != sw) ==>
                 after[sw].position == settings[i].position
    decreases |settings|
  {
    if settings != [] {
      var s := settings[0];
      var next := if s.switch in switches then switches[s.switch := switches[s.switch].(position := s.position)] else switches;
      assert SettingChanges(settings)[1..] == SettingChanges(settings[1..]);
      ReplayedSwitch(next, settings[1..], sw);
      assert ReplaySwitches(switches, SettingChanges(settings)) == ReplaySwitches(next, SettingChanges(settings[1..]));
      assert forall i :: 0 < i < |settings| ==> settings[i] == settings[1..][i - 1];
      hide ReplaySwitches, SettingChanges;
      if exists i :: 0 < i < |settings| && settings[i].switch == sw {
      } else {
        assert forall j :: 0 <= j < |settings[1..]| ==> settings[1..][j].switch != sw;
      }
    }
  }

  lemma ApplyKeepsSwitches(f: Fleet, ev: Event)
    requires !ev.SetSwitch?
    ensures Apply(f, ev).result.world.switches == f.world.switches
  {
    hide TickFrom, Remaining, IndexOf;
    if ev.TickTrains? {
      Journeys.TickFromSwitches(f, 0, Motions(f, ev.motion));
    }
  }

  /** Commands and trains leave the switches alone. */
  lemma {:induction false} FleetKeepsSwitches(f: Fleet, events: seq<Event>)
    requires forall i :: 0 <= i < |events| ==> !events[i].SetSwitch?
    ensures Run(f, events).result.world.switches == f.world.switches
    decreases |events|
  {
    hide Apply;
    if events != [] {
      ApplyKeepsSwitches(f, events[0]);
      FleetKeepsSwitches(Apply(f, events[0]).result, events[1..]);
    }
  }

  /** The steps of a tick come in their order: first the settings, which the commands and the trains find
      done; then the commands, so that a train let in moves in the same tick; and last the trains. */
  lemma TickInOrder(f: Fleet, settings: seq<Setting>, commands: seq<FleetCommand>, motion: nat -> TrainSim.Motion)
    ensures var settled := Run(f, SettingEvents(settings)).result;
            var commanded := Run(settled, EventsOf(commands)).result;
            Run(f, TickEvents(settings, commands, motion)).result == Ticked(commanded, Motions(commanded, motion)).result
  {
    hide Run, Apply, SettingEvents, EventsOf, Ticked;
    var settled := Run(f, SettingEvents(settings)).result;
    var commanded := Run(settled, EventsOf(commands)).result;
    RunConcat(f, SettingEvents(settings), EventsOf(commands) + [TickTrains(motion)]);
    RunConcat(settled, EventsOf(commands), [TickTrains(motion)]);
    RunOne(commanded, TickTrains(motion));
    TickApplies(commanded, motion);
  }

  /** In a tick every switch is as its last setting says, or as it was; and replaying the published settings
      on the old switches gives those of the snapshot, whatever damage the trains report. */
  lemma SettingsTakeEffect(f: Fleet, settings: seq<Setting>, commands: seq<FleetCommand>, motion: nat -> TrainSim.Motion, sw: Topology.Uid)
    requires sw in f.world.switches
    ensures var after := Run(f, TickEvents(settings, commands, motion)).result.world.switches;
            && after == ReplaySwitches(f.world.switches, SettingChanges(settings))
            && sw in after
            && ((forall i :: 0 <= i < |settings| ==> settings[i].switch != sw) ==> after[sw] == f.world.switches[sw])
            && forall i :: 0 <= i < |settings| && settings[i].switch == sw
                           && (forall j :: i < j < |settings| ==> settings[j].switch != sw) ==>
                 after[sw].position == settings[i].position
  {
    var settled := Run(f, SettingEvents(settings)).result;
    var events := EventsOf(commands) + [TickTrains(motion)];
    assert forall i :: 0 <= i < |events| ==> !events[i].SetSwitch?;
    hide Run, SettingEvents, EventsOf, SettingChanges, ReplaySwitches;
    SettingsReplayed(f, settings);
    ReplayedSwitch(f.world.switches, settings, sw);
    RunConcat(f, SettingEvents(settings), events);
    FleetKeepsSwitches(settled, events);
  }

  /** A snapshot shows every train of the fleet, in order, on its section, with its axles, and with its speed in
      kilometres per hour: a thousand metres in the three thousand six hundred seconds of an hour. */
  lemma SnapshotShowsTrains(tick: nat, f: Fleet)
    ensures var shown := SnapshotOf(tick, f);
            && shown.tick == tick && shown.world == f.world && |shown.trains| == |f.entries|
            && forall i :: 0 <= i < |f.entries| ==>
                 var (t, sim) := (shown.trains[i], f.entries[i].sim);
                 && t.uid == sim.trainUid && t.section == sim.section && t.totalAxles == sim.totalAxles
                 && t.speedKmh * 1000.0 == sim.physics.velocity * 3600.0
  {
  }

  // ---- The code -------------------------------------------------------------------------------------

  class EngineLoop {
    const state: EngineState
    const fleet: TrainFleet
    const pip: PipWriter
    var currentTick: nat
    var snapshot: Option<EngineSnapshot>
    var published: seq<Change>

    constructor (state: EngineState)
      ensures this.state == state && fresh(fleet) && fresh(pip)
      ensures fleet.entries == [] && pip.upserts == [] && currentTick == 0 && snapshot == None && published == []
    {
      this.state := state;
      fleet := new TrainFleet();
      pip := new PipWriter();
      currentTick := 0;
      snapshot := None;
      published := [];
    }

    ghost function Current(): Fleet
      reads state, fleet
    {
      Fleet(state.View(), fleet.entries)
    }

    /** Applying what the control system changed. */
    method ApplySettings(settings: seq<Setting>) returns (changes: seq<Change>)
      modifies state`switches
      ensures Current() == Run(old(Current()), SettingEvents(settings)).result
      ensures changes == SettingChanges(settings)
    {
      hide Apply, Run;
      changes := [];
      RunOfNothing(Current());
      assert SettingEvents(settings[..0]) == [];
      for i := 0 to |settings|
        invariant Current() == Run(old(Current()), SettingEvents(settings[..i])).result
        invariant changes == SettingChanges(settings[..i])
      {
        var s := settings[i];
        ghost var ev := SetSwitch(s.switch, s.position);
        assert SettingEvents(settings[..i + 1]) == SettingEvents(settings[..i]) + [ev];
        RunConcat(old(Current()), SettingEvents(settings[..i]), [ev]);
        RunOne(Current(), ev);
        SettingApplies(Current(), s);
        state.ApplySwitchPosition(s.switch, s.position);
        changes := changes + [SwitchPositionChange(s.switch, s.position)];
      }
      assert settings[..|settings|] == settings;
    }

    /** Draining the runtime fleet commands; a refused command changes nothing. */
    method DrainCommands(commands: seq<FleetCommand>, log: TickLog)
      modifies state`sections, fleet, log
      ensures var t := Run(old(Current()), EventsOf(commands));
              && Current() == t.result
              && log.changes == old(log.changes) + t.changes && log.pips == old(log.pips) + t.pips
    {
      hide Apply, Run;
      RunOfNothing(Current());
      assert EventsOf(commands[..0]) == [];
      for i := 0 to |commands|
        invariant var t := Run(old(Current()), EventsOf(commands[..i]));
                  && Current() == t.result
                  && log.changes == old(log.changes) + t.changes && log.pips == old(log.pips) + t.pips
      {
        var ev := EventOf(commands[i]);
        assert EventsOf(commands[..i + 1]) == EventsOf(commands[..i]) + [ev];
        RunConcat(old(Current()), EventsOf(commands[..i]), [ev]);
        RunOne(Current(), ev);
        ghost var before := Current();
        match commands[i] {
          case SpawnRequest(initial, from) =>
            var error := fleet.Spawn(state, initial, from, log);
            SpawnApplies(before, initial, from);
          case DespawnRequest(train) =>
            var error := fleet.Despawn(state, train, log);
            DespawnApplies(before, train);
        }
      }
      assert commands[..|commands|] == commands;
    }

    method SendPips(pips: seq<PipEvent>)
      modifies pip
      ensures pip.upserts == old(pip.upserts) + RowsOf(pips)
    {
      if pips != [] {
        pip.OnPipEvents(pips);
      }
    }

    /** Ticking the trains, if there are any. */
    method TickFleet(motion: nat -> TrainSim.Motion) returns (changes: seq<Change>)
      modifies state`sections, fleet, pip
      ensures var e := Apply(old(Current()), TickTrains(motion));
              && Current() == e.result && changes == e.changes
              && pip.upserts == old(pip.upserts) + RowsOf(e.pips)
    {
      hide RowsOf, Ticked;
      ghost var before := Current();
      TickApplies(before, motion);
      var log := new TickLog();
      if fleet.entries != [] {
        fleet.TickAll(state, Motions(Fleet(state.View(), fleet.entries), motion), log);
      } else {
        EmptyTick(before, motion);
      }
      assert log.pips == Apply(before, TickTrains(motion)).pips;
      SendPips(log.pips);
      changes := log.changes;
    }

    /** Fleet commands, and then the trains. */
    method RunFleet(commands: seq<FleetCommand>, motion: nat -> TrainSim.Motion) returns (changes: seq<Change>)
      modifies state`sections, fleet, pip
      ensures var t := Run(old(Current()), EventsOf(commands) + [TickTrains(motion)]);
              && Current() == t.result && changes == t.changes
              && pip.upserts == old(pip.upserts) + RowsOf(t.pips)
    {
      hide Apply, Run, RowsOf;
      ghost var start := Current();
      RunConcat(start, EventsOf(commands), [TickTrains(motion)]);
      var log := new TickLog();
      DrainCommands(commands, log);
      ghost var drained := Run(start, EventsOf(commands));
      ghost var last := Apply(drained.result, TickTrains(motion));
      RunOne(drained.result, TickTrains(motion));
      assert log.pips == drained.pips && log.changes == drained.changes;
      SendPips(log.pips);
      var ticked := TickFleet(motion);
      RowsOfConcat(drained.pips, last.pips);
      changes := log.changes + ticked;
    }

    /** A tick: the new state, the snapshot, the published changes and the PIP rows are those of a run of the
        control system's settings, the commands and the trains. Replaying what is published on the track
        before the tick gives the track of the snapshot. */
    method DoTick(settings: seq<Setting>, commands: seq<FleetCommand>, motion: nat -> TrainSim.Motion)
      modifies this, state`sections, state`switches, fleet, pip
      ensures currentTick == old(currentTick) + 1
      ensures var t := Run(old(Current()), TickEvents(settings, commands, motion));
              && Current() == t.result
              && snapshot == Some(SnapshotOf(currentTick, t.result))
              && published == old(published) + (SettingChanges(settings) + t.changes)
              && pip.upserts == old(pip.upserts) + RowsOf(t.pips)
      ensures Replay(old(state.sections), published[|old(published)|..]) == snapshot.value.world.sections
    {
      hide Apply, Run, RowsOf, SettingChanges, SettingEvents, EventsOf, Replay;
      ghost var start := Current();
      RunConcat(start, SettingEvents(settings), EventsOf(commands) + [TickTrains(motion)]);
      SettingsLogNothing(start, settings);
      PublishedLeadsOn(start, settings, commands, motion);
      var changes := ApplySettings(settings);
      var fleetChanges := RunFleet(commands, motion);
      changes := changes + fleetChanges;
      ghost var all := Run(start, TickEvents(settings, commands, motion));
      ghost var part := Run(Run(start, SettingEvents(settings)).result, EventsOf(commands) + [TickTrains(motion)]);
      assert all.changes == [] + part.changes == part.changes && all.pips == [] + part.pips == part.pips;
      currentTick := currentTick + 1;
      snapshot := Some(SnapshotOf(currentTick, Fleet(state.View(), fleet.entries)));
      ghost var before := published;
      published := published + changes;
      assert published[|before|..] == changes;
    }
  }
}
