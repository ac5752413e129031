/** The fleet: spawning, despawning and ticking trains over the shared track state. */
module TrainFleet {
  import opened Wrappers
  import Sequences
  import opened Topology
  import opened TrainSim

  /** `gone` marks a train that has left through the edge of the world in this tick. */
  datatype Entry = Entry(sim: SimState, from: Uid, gone: bool)

  datatype Change =
    | OccupancyChange(uid: Uid, occupancy: Occupancy, axles: int, train: Uid)
    | SwitchControlChange(uid: Uid, lost: bool)
    | SwitchPositionChange(uid: Uid, position: SwitchPosition)

  /** The display number of a train: the low 16 bits of its UID. */
  datatype TrainSlot = TrainSlot(number: nat)

  datatype PipEvent = PipEvent(section: Uid, station: Uid, occupancy: Occupancy, slot: Option<TrainSlot>, edge: bool)

  datatype Refusal = SectionNotFound | SectionNotFree | TrainNotFound

  datatype Fleet = Fleet(world: World, entries: seq<Entry>)

  /** A new state together with what was appended to the change list and the PIP list. */
  datatype Effect<T> = Effect(result: T, changes: seq<Change>, pips: seq<PipEvent>)

  const EDGE_TOLERANCE := 0.001

  // ---- Specification --------------------------------------------------------------------------------

  function SlotOf(train: Uid): TrainSlot
  {
    TrainSlot(train % 65536)
  }

  /** Writing the occupancy of a section; an unknown section is left out. */
  function Occupy(w: World, uid: Uid, occupancy: Occupancy, axles: int): World
  {
    if uid in w.sections
    then w.(sections := w.sections[uid := w.sections[uid].(occupancy := occupancy, axles := axles)])
    else w
  }

  function Freed(uid: Uid): Change
  {
    OccupancyChange(uid, Free, 0, 0)
  }

  function Taken(uid: Uid, axles: int, train: Uid): Change
  {
    OccupancyChange(uid, Occupied, axles, train)
  }

  /** The PIP events of a section that becomes free or is taken: none for an unknown section. */
  function FreedPip(w: World, uid: Uid, edge: bool): seq<PipEvent>
  {
    if uid in w.sections then [PipEvent(uid, w.sections[uid].station, Free, None, edge)] else []
  }

  function TakenPip(w: World, uid: Uid, train: Uid): seq<PipEvent>
  {
    if uid in w.sections then [PipEvent(uid, w.sections[uid].station, Occupied, Some(SlotOf(train)), false)] else []
  }

  function SpawnRefusal(w: World, section: Uid): Option<Refusal>
  {
    if section !in w.sections then Some(SectionNotFound)
    else if w.sections[section].occupancy != Free then Some(SectionNotFree)
    else None
  }

  function Spawned(f: Fleet, initial: SimState, from: Uid): Effect<Fleet>
  {
    if SpawnRefusal(f.world, initial.section).Some? then Effect(f, [], [])
    else
      Effect(Fleet(Occupy(f.world, initial.section, Occupied, initial.totalAxles),
                   f.entries + [Entry(initial, from, false)]),
             [Taken(initial.section, initial.totalAxles, initial.trainUid)],
             TakenPip(f.world, initial.section, initial.trainUid))
  }

  /** The index of the first train with this UID, or the number of trains. */
  function IndexOf(entries: seq<Entry>, train: Uid): (i: nat)
    ensures i <= |entries|
    ensures i < |entries| ==> entries[i].sim.trainUid == train
    ensures forall j :: 0 <= j < i ==> entries[j].sim.trainUid != train
  {
    if entries == [] || entries[0].sim.trainUid == train then 0 else 1 + IndexOf(entries[1..], train)
  }

  function Despawned(f: Fleet, train: Uid): Effect<Fleet>
  {
    var i := IndexOf(f.entries, train);
    if i == |f.entries| then Effect(f, [], [])
    else
      var section := f.entries[i].sim.section;
      Effect(Fleet(Occupy(f.world, section, Free, 0), f.entries[..i] + f.entries[i + 1..]),
             if section in f.world.sections then [Freed(section)] else [],
             FreedPip(f.world, section, false))
  }

  function TrailingDamage(trailed: Option<Uid>): seq<Change>
  {
    match trailed
    case None => []
    case Some(sw) => [SwitchControlChange(sw, true), SwitchPositionChange(sw, TrailedDamaged)]
  }

  /** One train's part of a tick: it may leave at the edge, cross into the next section, or stay. */
  function TickOne(w: World, e: Entry, m: Motion): Effect<(World, Entry)>
  {
    var current := e.sim.section;
    if current !in w.sections then Effect((w, e), [], [])
    else
      var info := ResolveNext(w, current, e.from);
      var length := w.sections[current].length;
      var sim := TickState(e.sim, m, length, info.section);
      var crossing := TickCrossing(e.sim, m, length, info.section);
      if info.boundary && !e.gone && sim.physics.position >= length - EDGE_TOLERANCE then
        Effect((Occupy(w, current, Free, 0), Entry(sim, e.from, true)),
               [Freed(current)], FreedPip(w, current, true))
      else if crossing.Some? then
        var to := crossing.value.to;
        Effect((Occupy(Occupy(w, current, Free, 0), to, Occupied, sim.totalAxles), Entry(sim, info.from, e.gone)),
               TrailingDamage(info.trailed) + [Freed(current), Taken(to, sim.totalAxles, sim.trainUid)],
               FreedPip(w, current, false) + TakenPip(w, to, sim.trainUid))
      else Effect((w, e.(sim := sim)), [], [])
  }

  /** Ticking the trains from index `i` on, in order; each sees the track the earlier ones left. */
  function TickFrom(f: Fleet, i: nat, motions: seq<Motion>): Effect<Fleet>
    requires |motions| == |f.entries|
    decreases |f.entries| - i
  {
    if i >= |f.entries| then Effect(f, [], [])
    else
      var one := TickOne(f.world, f.entries[i], motions[i]);
      var rest := TickFrom(Fleet(one.result.0, f.entries[i := one.result.1]), i + 1, motions);
      Effect(rest.result, one.changes + rest.changes, one.pips + rest.pips)
  }

  /** The trains that have not left. */
  function Remaining(entries: seq<Entry>): seq<Entry>
  {
    if entries == [] then []
    else (if entries[0].gone then [] else [entries[0]]) + Remaining(entries[1..])
  }

  function Ticked(f: Fleet, motions: seq<Motion>): Effect<Fleet>
    requires |motions| == |f.entries|
  {
    var all := TickFrom(f, 0, motions);
    all.(result := Fleet(all.result.world, Remaining(all.result.entries)))
  }

  /** A train at the edge of the world has no next section. */
  lemma EdgeOrNext(w: World, current: Uid, from: Uid)
    ensures ResolveNext(w, current, from).boundary ==> ResolveNext(w, current, from).section.None?
  {
  }

  // ---- What spawning and despawning do --------------------------------------------------------------

  /** A train is let in exactly if its section is known and free; it is then the last of the fleet, and alone
      its section changes. */
  lemma SpawnLetsInIff(f: Fleet, initial: SimState, from: Uid)
    ensures var (g, known) := (Spawned(f, initial, from).result, initial.section in f.world.sections);
            && (g == f <==> !known || f.world.sections[initial.section].occupancy == Occupied)
            && (g != f ==>
                  && g.entries == f.entries + [Entry(initial, from, false)]
                  && g.world.switches == f.world.switches && g.world.sections.Keys == f.world.sections.Keys
                  && (forall s :: s in f.world.sections && s != initial.section ==> g.world.sections[s] == f.world.sections[s])
                  && g.world.sections[initial.section]
                     == f.world.sections[initial.section].(occupancy := Occupied, axles := initial.totalAxles))
  {
    assert |f.entries + [Entry(initial, from, false)]| != |f.entries|;
  }

  /** Despawning takes out one train, the first of this UID, if there is one, and leaves the others in order;
      alone its section changes, and becomes free. */
  lemma DespawnTakesOut(f: Fleet, train: Uid)
    ensures var g := Despawned(f, train).result;
            && (g == f <==> forall j :: 0 <= j < |f.entries| ==> f.entries[j].sim.trainUid != train)
            && (g != f ==>
                  exists i :: 0 <= i < |f.entries| && f.entries[i].sim.trainUid == train
                    && (forall j :: 0 <= j < i ==> f.entries[j].sim.trainUid != train)
                    && g.entries == f.entries[..i] + f.entries[i + 1..]
                    && g.world.switches == f.world.switches && g.world.sections.Keys == f.world.sections.Keys
                    && (forall s :: s in f.world.sections ==>
                          g.world.sections[s] == if s == f.entries[i].sim.section
                                                 then f.world.sections[s].(occupancy := Free, axles := 0)
                                                 else f.world.sections[s]))
  {
    var (i, g) := (IndexOf(f.entries, train), Despawned(f, train).result);
    if i < |f.entries| {
      assert g.entries == f.entries[..i] + f.entries[i + 1..];
      assert |g.entries| != |f.entries|;
    }
  }

  /** Two trains are shown by one number exactly if their UIDs agree in the low 16 bits. */
  lemma SameNumberIff(a: Uid, b: Uid)
    ensures SlotOf(a) == SlotOf(b) <==> (a - b) % 65536 == 0
  {
    var (p, q) := (a % 65536, b % 65536);
    assert a - b == (a / 65536 - b / 65536) * 65536 + (p - q);
  }

  // ---- The code -------------------------------------------------------------------------------------

  function SwitchSet(w: World, uid: Uid, position: SwitchPosition): World
  {
    if uid in w.switches
    then w.(switches := w.switches[uid := w.switches[uid].(position := position)])
    else w
  }

  class EngineState {
    var sections: map<Uid, Section>
    var switches: map<Uid, Switch>
    const boundaries: set<Uid>

    function View(): World
      reads this
    {
      World(sections, switches, boundaries)
    }

    constructor (sections: map<Uid, Section>, switches: map<Uid, Switch>, boundaries: set<Uid>)
      ensures View() == World(sections, switches, boundaries)
    {
      this.sections := sections;
      this.switches := switches;
      this.boundaries := boundaries;
    }

    method ApplyTrackSectionOccupancy(uid: Uid, occupancy: Occupancy, axles: int)
      modifies this`sections
      ensures View() == Occupy(old(View()), uid, occupancy, axles)
    {
      if uid in sections {
        sections := sections[uid := sections[uid].(occupancy := occupancy, axles := axles)];
      }
    }

    method ApplySwitchPosition(uid: Uid, position: SwitchPosition)
      modifies this`switches
      ensures View() == SwitchSet(old(View()), uid, position)
    {
      if uid in switches {
        switches := switches[uid := switches[uid].(position := position)];
      }
    }
  }

  /** The change list and the PIP list of a tick, as the caller passes them around. */
  class TickLog {
    var changes: seq<Change>
    var pips: seq<PipEvent>

    constructor ()
      ensures changes == [] && pips == []
    {
      changes := [];
      pips := [];
    }
  }

  class TrainFleet {
    var entries: seq<Entry>

    constructor ()
      ensures entries == []
    {
      entries := [];
    }

    method Spawn(state: EngineState, initial: SimState, from: Uid, log: TickLog) returns (error: Option<Refusal>)
      modifies this, state`sections, log
      ensures error == SpawnRefusal(old(state.View()), initial.section)
      ensures var e := Spawned(old(Fleet(state.View(), entries)), initial, from);
              && Fleet(state.View(), entries) == e.result
              && log.changes == old(log.changes) + e.changes && log.pips == old(log.pips) + e.pips
    {
      if initial.section !in state.sections {
        return Some(SectionNotFound);
      }
      var section := state.sections[initial.section];
      if section.occupancy != Free {
        return Some(SectionNotFree);
      }
      entries := entries + [Entry(initial, from, false)];
      state.ApplyTrackSectionOccupancy(initial.section, Occupied, initial.totalAxles);
      log.changes := log.changes + [Taken(initial.section, initial.totalAxles, initial.trainUid)];
      log.pips := log.pips + [PipEvent(initial.section, section.station, Occupied, Some(SlotOf(initial.trainUid)), false)];
      return None;
    }

    method Despawn(state: EngineState, train: Uid, log: TickLog) returns (error: Option<Refusal>)
      modifies this, state`sections, log
      ensures error == if IndexOf(old(entries), train) == |old(entries)| then Some(TrainNotFound) else None
      ensures var e := Despawned(old(Fleet(state.View(), entries)), train);
              && Fleet(state.View(), entries) == e.result
              && log.changes == old(log.changes) + e.changes && log.pips == old(log.pips) + e.pips
    {
      var i := 0;
      while i < |entries| && entries[i].sim.trainUid != train
        invariant 0 <= i <= |entries|
        invariant IndexOf(entries, train) == i + IndexOf(entries[i..], train)
      {
        assert entries[i..][1..] == entries[i + 1..];
        i := i + 1;
      }
      if i == |entries| {
        return Some(TrainNotFound);
      }
      var section := entries[i].sim.section;
      if section in state.sections {
        var station := state.sections[section].station;
        state.ApplyTrackSectionOccupancy(section, Free, 0);
        log.changes := log.changes + [Freed(section)];
        log.pips := log.pips + [PipEvent(section, station, Free, None, false)];
      }
      entries := entries[..i] + entries[i + 1..];
      return None;
    }

    /** A train leaves its section for the edge of the world. */
    method LeaveAtEdge(state: EngineState, current: Uid, log: TickLog)
      requires current in state.sections
      modifies state`sections, log
      ensures state.View() == Occupy(old(state.View()), current, Free, 0)
      ensures log.changes == old(log.changes) + [Freed(current)]
      ensures log.pips == old(log.pips) + FreedPip(old(state.View()), current, true)
    {
      var station := state.sections[current].station;
      state.ApplyTrackSectionOccupancy(current, Free, 0);
      log.changes := log.changes + [Freed(current)];
      log.pips := log.pips + [PipEvent(current, station, Free, None, true)];
    }

    /** A train crosses from one section into the next. */
    method CrossSection(state: EngineState, crossing: Crossing, trailed: Option<Uid>, train: SimState, log: TickLog)
      modifies state`sections, log
      ensures state.View() == Occupy(Occupy(old(state.View()), crossing.from, Free, 0), crossing.to, Occupied, train.totalAxles)
      ensures log.changes == old(log.changes) + TrailingDamage(trailed)
                             + [Freed(crossing.from), Taken(crossing.to, train.totalAxles, train.trainUid)]
      ensures log.pips == old(log.pips) + FreedPip(old(state.View()), crossing.from, false)
                          + TakenPip(old(state.View()), crossing.to, train.trainUid)
    {
      if trailed.Some? {
        log.changes := log.changes + [SwitchControlChange(trailed.value, true),
                                      SwitchPositionChange(trailed.value, TrailedDamaged)];
      }
      state.ApplyTrackSectionOccupancy(crossing.from, Free, 0);
      state.ApplyTrackSectionOccupancy(crossing.to, Occupied, train.totalAxles);
      log.changes := log.changes + [Freed(crossing.from), Taken(crossing.to, train.totalAxles, train.trainUid)];
      if crossing.from in state.sections {
        log.pips := log.pips + [PipEvent(crossing.from, state.sections[crossing.from].station, Free, None, false)];
      }
      if crossing.to in state.sections {
        log.pips := log.pips + [PipEvent(crossing.to, state.sections[crossing.to].station, Occupied,
                                         Some(SlotOf(train.trainUid)), false)];
      }
    }

    /** The body of the tick loop for the train at index `i`. */
    method TickEntry(state: EngineState, i: nat, m: Motion, log: TickLog)
      requires i < |entries|
      modifies this, state`sections, log
      ensures var e := TickOne(old(state.View()), old(entries)[i], m);
              && state.View() == e.result.0 && entries == old(entries)[i := e.result.1]
              && log.changes == old(log.changes) + e.changes && log.pips == old(log.pips) + e.pips
    {
      hide Occupy, FreedPip, TakenPip, TrailingDamage, ResolveNext;
      var entry := entries[i];
      var current := entry.sim.section;
      if current !in state.sections {
        return;
      }
      var length := state.sections[current].length;
      var info := ResolveNext(state.View(), current, entry.from);
      EdgeOrNext(state.View(), current, entry.from);
      var sim := new TrainSim(entry.sim);
      var crossing := sim.Tick(m, length, info.section);
      entry := entry.(sim := sim.state);
      if info.boundary && !entry.gone && sim.state.physics.position >= length - EDGE_TOLERANCE {
        LeaveAtEdge(state, current, log);
        entry := entry.(gone := true);
      }
      if crossing.Some? {
        CrossSection(state, crossing.value, info.trailed, sim.state, log);
        entry := entry.(from := info.from);
      }
      entries := entries[i := entry];
    }

    method RemoveGone()
      modifies this
      ensures entries == Remaining(old(entries))
    {
      var all := entries;
      var kept := [];
      assert all[0..] == all;
      for i := 0 to |all|
        invariant kept + Remaining(all[i..]) == Remaining(all)
      {
        assert all[i..][1..] == all[i + 1..];
        Sequences.Regroup(kept, if all[i].gone then [] else [all[i]], Remaining(all[i + 1..]));
        if !all[i].gone {
          kept := kept + [all[i]];
        }
      }
      entries := kept;
    }

    /** Advancing all trains by one tick; the order of the trains is kept. */
    method TickAll(state: EngineState, motions: seq<Motion>, log: TickLog)
      requires |motions| == |entries|
      modifies this, state`sections, log
      ensures var e := Ticked(old(Fleet(state.View(), entries)), motions);
              && Fleet(state.View(), entries) == e.result
              && log.changes == old(log.changes) + e.changes && log.pips == old(log.pips) + e.pips
    {
      hide TickOne, Remaining;
      ghost var all := TickFrom(Fleet(state.View(), entries), 0, motions);
      for i := 0 to |entries|
        invariant |entries| == |motions|
        invariant var rest := TickFrom(Fleet(state.View(), entries), i, motions);
                  && all.result == rest.result
                  && old(log.changes) + all.changes == log.changes + rest.changes
                  && old(log.pips) + all.pips == log.pips + rest.pips
      {
        ghost var one := TickOne(state.View(), entries[i], motions[i]);
        ghost var rest := TickFrom(Fleet(one.result.0, entries[i := one.result.1]), i + 1, motions);
        Sequences.Regroup(log.changes, one.changes, rest.changes);
        Sequences.Regroup(log.pips, one.pips, rest.pips);
        TickEntry(state, i, motions[i], log);
      }
      RemoveGone();
    }
  }
}
