/** What the logs of a run tell: replaying the change list, and the table behind the PIP display. */
module ChangeLog {
  import opened Wrappers
  import opened Topology
  import opened TrainSim
  import opened TrainFleet
  import opened OccupancyRuns

  // ---- Replaying the change list -------------------------------------------------------------------

  function ApplyChange(sections: map<Uid, Section>, c: Change): map<Uid, Section>
  {
    if c.OccupancyChange? && c.uid in sections
    then sections[c.uid := sections[c.uid].(occupancy := c.occupancy, axles := c.axles)]
    else sections
  }

  function Replay(sections: map<Uid, Section>, changes: seq<Change>): map<Uid, Section>
    decreases |changes|
  {
    if changes == [] then sections else Replay(ApplyChange(sections, changes[0]), changes[1..])
  }

  lemma {:induction false} ReplayConcat(sections: map<Uid, Section>, a: seq<Change>, b: seq<Change>)
    ensures Replay(sections, a + b) == Replay(Replay(sections, a), b)
    decreases |a|
  {
    if a == [] {
      assert a + b == b;
    } else {
      assert (a + b)[1..] == a[1..] + b;
      ReplayConcat(ApplyChange(sections, a[0]), a[1..], b);
    }
  }

  lemma ReplayOne(sections: map<Uid, Section>, c: Change)
    ensures Replay(sections, [c]) == ApplyChange(sections, c)
  {
    assert [c][1..] == [];
  }

  lemma ReplayCrossing(w: World, trailed: Option<Uid>, from: Uid, to: Uid, axles: int, train: Uid)
    ensures Replay(w.sections, TrailingDamage(trailed) + [Freed(from), Taken(to, axles, train)])
            == Occupy(Occupy(w, from, Free, 0), to, Occupied, axles).sections
  {
    var damage := TrailingDamage(trailed);
    ReplayConcat(w.sections, damage, [Freed(from), Taken(to, axles, train)]);
    assert Replay(w.sections, damage) == w.sections by {
      if trailed.Some? {
        assert damage[1..] == [damage[1]];
        ReplayOne(w.sections, damage[1]);
      }
    }
    assert [Freed(from), Taken(to, axles, train)] == [Freed(from)] + [Taken(to, axles, train)];
    ReplayConcat(w.sections, [Freed(from)], [Taken(to, axles, train)]);
    ReplayOne(w.sections, Freed(from));
    ReplayOne(Occupy(w, from, Free, 0).sections, Taken(to, axles, train));
  }

  lemma ReplayNothing(sections: map<Uid, Section>)
    ensures Replay(sections, []) == sections
  {
  }

  lemma TickOneReplays(w: World, e: Entry, m: Motion)
    ensures var t := TickOne(w, e, m); Replay(w.sections, t.changes) == t.result.0.sections
  {
    hide ResolveNext, TickState, TickCrossing, Replay, TrailingDamage;
    ReplayNothing(w.sections);
    ReplayOne(w.sections, Freed(e.sim.section));
    var current := e.sim.section;
    if current in w.sections {
      var info := ResolveNext(w, current, e.from);
      var sim := TickState(e.sim, m, w.sections[current].length, info.section);
      var c := TickCrossing(e.sim, m, w.sections[current].length, info.section);
      if c.Some? {
        ReplayCrossing(w, info.trailed, current, c.value.to, sim.totalAxles, sim.trainUid);
      }
    }
  }

  lemma {:induction false} TickFromReplays(f: Fleet, i: nat, motions: seq<Motion>)
    requires |motions| == |f.entries|
    ensures var t := TickFrom(f, i, motions); Replay(f.world.sections, t.changes) == t.result.world.sections
    decreases |f.entries| - i
  {
    hide TickOne, Replay;
    ReplayNothing(f.world.sections);
    if i < |f.entries| {
      var one := TickOne(f.world, f.entries[i], motions[i]);
      var g := Fleet(one.result.0, f.entries[i := one.result.1]);
      TickOneReplays(f.world, f.entries[i], motions[i]);
      TickFromReplays(g, i + 1, motions);
      ReplayConcat(f.world.sections, one.changes, TickFrom(g, i + 1, motions).changes);
    }
  }

  lemma ApplyReplays(f: Fleet, ev: Event)
    ensures var t := Apply(f, ev); Replay(f.world.sections, t.changes) == t.result.world.sections
  {
    hide TickFrom, Replay, Remaining, IndexOf;
    ReplayNothing(f.world.sections);
    match ev {
      case SpawnTrain(initial, from) =>
        ReplayOne(f.world.sections, Taken(initial.section, initial.totalAxles, initial.trainUid));
      case DespawnTrain(train) =>
        var i := IndexOf(f.entries, train);
        if i < |f.entries| {
          ReplayOne(f.world.sections, Freed(f.entries[i].sim.section));
        }
      case TickTrains(motion) =>
        TickFromReplays(f, 0, Motions(f, motion));
      case SetSwitch(uid, position) =>
    }
  }

  /** Replaying the changes a run reported, in order, on the old track gives the new track. */
  lemma {:induction false} RunReplays(f: Fleet, events: seq<Event>)
    ensures var t := Run(f, events); Replay(f.world.sections, t.changes) == t.result.world.sections
    decreases |events|
  {
    hide Apply, Replay;
    ReplayNothing(f.world.sections);
    if events != [] {
      var first := Apply(f, events[0]);
      ApplyReplays(f, events[0]);
      RunReplays(first.result, events[1..]);
      ReplayConcat(f.world.sections, first.changes, Run(first.result, events[1..]).changes);
    }
  }

  // ---- The PIP events are the change list, restricted to known sections -------------------------------

  /** The supervising station of every known section: fixed during a run. */
  function Stations(w: World): map<Uid, Uid>
  {
    map s | s in w.sections :: w.sections[s].station
  }

  /** The event that reports a change, edge flag aside: none for a switch or an unknown section. */
  function PipOf(stations: map<Uid, Uid>, c: Change): seq<PipEvent>
  {
    if c.OccupancyChange? && c.uid in stations
    then [PipEvent(c.uid, stations[c.uid], c.occupancy, if c.occupancy == Occupied then Some(SlotOf(c.train)) else None, false)]
    else []
  }

  function PipsOf(stations: map<Uid, Uid>, changes: seq<Change>): seq<PipEvent>
  {
    if changes == [] then [] else PipOf(stations, changes[0]) + PipsOf(stations, changes[1..])
  }

  function EdgeAside(pips: seq<PipEvent>): seq<PipEvent>
  {
    seq(|pips|, i requires 0 <= i < |pips| => pips[i].(edge := false))
  }

  lemma {:induction false} PipsOfConcat(stations: map<Uid, Uid>, a: seq<Change>, b: seq<Change>)
    ensures PipsOf(stations, a + b) == PipsOf(stations, a) + PipsOf(stations, b)
  {
    hide PipOf;
    if a == [] {
      assert a + b == b;
    } else {
      assert (a + b)[1..] == a[1..] + b;
      PipsOfConcat(stations, a[1..], b);
    }
  }

  lemma PipsOfOne(stations: map<Uid, Uid>, c: Change)
    ensures PipsOf(stations, [c]) == PipOf(stations, c)
  {
    hide PipOf;
    assert [c][1..] == [];
    assert PipOf(stations, c) + [] == PipOf(stations, c);
  }

  lemma StationsFixed(w: World, uid: Uid, occupancy: Occupancy, axles: int)
    ensures Stations(Occupy(w, uid, occupancy, axles)) == Stations(w)
  {
  }

  lemma PipsOfDamage(stations: map<Uid, Uid>, trailed: Option<Uid>)
    ensures PipsOf(stations, TrailingDamage(trailed)) == []
  {
    if trailed.Some? {
      var damage := TrailingDamage(trailed);
      assert damage == [damage[0]] + [damage[1]];
      PipsOfConcat(stations, [damage[0]], [damage[1]]);
      PipsOfOne(stations, damage[0]);
      PipsOfOne(stations, damage[1]);
    }
  }

  lemma PipOfFreed(w: World, uid: Uid)
    ensures PipOf(Stations(w), Freed(uid)) == FreedPip(w, uid, false)
  {
  }

  lemma PipOfTaken(w: World, uid: Uid, axles: int, train: Uid)
    ensures PipOf(Stations(w), Taken(uid, axles, train)) == TakenPip(w, uid, train)
  {
  }

  lemma PipsOfCrossing(w: World, trailed: Option<Uid>, from: Uid, to: Uid, axles: int, train: Uid)
    ensures PipsOf(Stations(w), TrailingDamage(trailed) + [Freed(from), Taken(to, axles, train)])
            == FreedPip(w, from, false) + TakenPip(w, to, train)
  {
    var (freed, taken) := (Freed(from), Taken(to, axles, train));
    PipOfFreed(w, from);
    PipOfTaken(w, to, axles, train);
    hide Stations, PipOf, PipsOf, TrailingDamage, FreedPip, TakenPip;
    var stations := Stations(w);
    PipsOfConcat(stations, TrailingDamage(trailed), [freed, taken]);
    PipsOfDamage(stations, trailed);
    assert [freed, taken] == [freed] + [taken];
    PipsOfConcat(stations, [freed], [taken]);
    PipsOfOne(stations, freed);
    PipsOfOne(stations, taken);
  }

  lemma StationOf(w: World, s: Uid)
    requires s in w.sections
    ensures s in Stations(w) && Stations(w)[s] == w.sections[s].station
  {
  }

  lemma PipsOfNothing(stations: map<Uid, Uid>)
    ensures PipsOf(stations, []) == []
  {
  }

  lemma TickOnePips(w: World, e: Entry, m: Motion)
    ensures var t := TickOne(w, e, m);
            EdgeAside(t.pips) == PipsOf(Stations(w), t.changes) && Stations(t.result.0) == Stations(w)
  {
    hide ResolveNext, TickState, TickCrossing, PipsOf, TrailingDamage, Occupy, Stations;
    var current := e.sim.section;
    PipsOfNothing(Stations(w));
    if current in w.sections {
      var info := ResolveNext(w, current, e.from);
      var sim := TickState(e.sim, m, w.sections[current].length, info.section);
      var c := TickCrossing(e.sim, m, w.sections[current].length, info.section);
      StationsFixed(w, current, Free, 0);
      PipsOfOne(Stations(w), Freed(current));
      StationOf(w, current);
      if c.Some? {
        PipsOfCrossing(w, info.trailed, current, c.value.to, sim.totalAxles, sim.trainUid);
        StationsFixed(Occupy(w, current, Free, 0), c.value.to, Occupied, sim.totalAxles);
      }
    }
  }

  lemma EdgeAsideConcat(a: seq<PipEvent>, b: seq<PipEvent>)
    ensures EdgeAside(a + b) == EdgeAside(a) + EdgeAside(b)
  {
  }

  lemma NothingLogged(stations: map<Uid, Uid>)
    ensures EdgeAside([]) == PipsOf(stations, [])
  {
  }

  lemma {:induction false} TickFromPips(f: Fleet, i: nat, motions: seq<Motion>)
    requires |motions| == |f.entries|
    ensures var t := TickFrom(f, i, motions);
            EdgeAside(t.pips) == PipsOf(Stations(f.world), t.changes) && Stations(t.result.world) == Stations(f.world)
    decreases |f.entries| - i
  {
    hide TickOne, PipsOf, Stations, EdgeAside;
    if i < |f.entries| {
      var one := TickOne(f.world, f.entries[i], motions[i]);
      var g := Fleet(one.result.0, f.entries[i := one.result.1]);
      TickOnePips(f.world, f.entries[i], motions[i]);
      TickFromPips(g, i + 1, motions);
      var rest := TickFrom(g, i + 1, motions);
      PipsOfConcat(Stations(f.world), one.changes, rest.changes);
      EdgeAsideConcat(one.pips, rest.pips);
    } else {
      NothingLogged(Stations(f.world));
    }
  }

  lemma StationsOfSections(v: World, w: World)
    requires v.sections == w.sections
    ensures Stations(v) == Stations(w)
  {
  }

  lemma ApplyPips(f: Fleet, ev: Event)
    ensures var t := Apply(f, ev);
            EdgeAside(t.pips) == PipsOf(Stations(f.world), t.changes) && Stations(t.result.world) == Stations(f.world)
  {
    hide TickFrom, PipsOf, Remaining, IndexOf, Occupy, Stations;
    var st := Stations(f.world);
    NothingLogged(st);
    match ev {
      case SpawnTrain(initial, from) =>
        PipsOfOne(st, Taken(initial.section, initial.totalAxles, initial.trainUid));
        StationsFixed(f.world, initial.section, Occupied, initial.totalAxles);
        if initial.section in f.world.sections {
          StationOf(f.world, initial.section);
        }
      case DespawnTrain(train) =>
        var i := IndexOf(f.entries, train);
        if i < |f.entries| {
          var s := f.entries[i].sim.section;
          PipsOfOne(st, Freed(s));
          StationsFixed(f.world, s, Free, 0);
          if s in f.world.sections {
            StationOf(f.world, s);
          }
        }
      case TickTrains(motion) =>
        TickFromPips(f, 0, Motions(f, motion));
      case SetSwitch(uid, position) =>
        StationsOfSections(f.world, SwitchSet(f.world, uid, position));
    }
  }

  /** The PIP events of a run are exactly its change list restricted to known sections. */
  lemma {:induction false} RunPips(f: Fleet, events: seq<Event>)
    ensures var t := Run(f, events);
            EdgeAside(t.pips) == PipsOf(Stations(f.world), t.changes) && Stations(t.result.world) == Stations(f.world)
    decreases |events|
  {
    hide Apply, PipsOf, Stations, EdgeAside;
    if events == [] {
      NothingLogged(Stations(f.world));
    } else {
      var first := Apply(f, events[0]);
      ApplyPips(f, events[0]);
      RunPips(first.result, events[1..]);
      var rest := Run(first.result, events[1..]);
      PipsOfConcat(Stations(f.world), first.changes, rest.changes);
      EdgeAsideConcat(first.pips, rest.pips);
    }
  }

  // ---- The PIP table ------------------------------------------------------------------------------------

  datatype PipRow = PipRow(section: Uid, trains: seq<TrainSlot>)

  function RowOf(ev: PipEvent): PipRow
  {
    PipRow(ev.section, if ev.occupancy == Occupied && ev.slot.Some? then [ev.slot.value] else [])
  }

  /** The table after upserting rows in order: one row per section. */
  function Upserted(table: map<Uid, seq<TrainSlot>>, rows: seq<PipRow>): map<Uid, seq<TrainSlot>>
    decreases |rows|
  {
    if rows == [] then table else Upserted(table[rows[0].section := rows[0].trains], rows[1..])
  }

  function RowsOf(pips: seq<PipEvent>): seq<PipRow>
  {
    seq(|pips|, i requires 0 <= i < |pips| => RowOf(pips[i]))
  }

  function Table(pips: seq<PipEvent>): map<Uid, seq<TrainSlot>>
  {
    Upserted(map[], RowsOf(pips))
  }

  lemma {:induction false} UpsertedConcat(table: map<Uid, seq<TrainSlot>>, a: seq<PipRow>, b: seq<PipRow>)
    ensures Upserted(table, a + b) == Upserted(Upserted(table, a), b)
    decreases |a|
  {
    if a == [] {
      assert a + b == b;
    } else {
      assert (a + b)[1..] == a[1..] + b;
      UpsertedConcat(table[a[0].section := a[0].trains], a[1..], b);
    }
  }

  /** The display numbers of the live trains on a section, in fleet order. */
  function SlotsOn(entries: seq<Entry>, s: Uid): (r: seq<TrainSlot>)
    ensures |r| == TrainsOn(entries, s)
  {
    if entries == [] then []
    else (if On(entries[0], s) then [SlotOf(entries[0].sim.trainUid)] else []) + SlotsOn(entries[1..], s)
  }

  /** A section without a row shows no train. */
  function Shown(table: map<Uid, seq<TrainSlot>>, s: Uid): seq<TrainSlot>
  {
    if s in table then table[s] else []
  }

  /** The table shows, for every known section, the trains that are on it. */
  predicate Truthful(table: map<Uid, seq<TrainSlot>>, f: Fleet)
  {
    forall s :: s in f.world.sections ==> Shown(table, s) == SlotsOn(f.entries, s)
  }

  lemma {:induction false} SlotsConcat(a: seq<Entry>, b: seq<Entry>, s: Uid)
    ensures SlotsOn(a + b, s) == SlotsOn(a, s) + SlotsOn(b, s)
  {
    if a == [] {
      assert a + b == b;
    } else {
      assert (a + b)[1..] == a[1..] + b;
      SlotsConcat(a[1..], b, s);
    }
  }

  function SlotShare(e: Entry, s: Uid): seq<TrainSlot> { if On(e, s) then [SlotOf(e.sim.trainUid)] else [] }

  lemma SlotsSplit(entries: seq<Entry>, i: nat, s: Uid)
    requires i < |entries|
    ensures SlotsOn(entries, s) == SlotsOn(entries[..i], s) + SlotShare(entries[i], s) + SlotsOn(entries[i + 1..], s)
    ensures TrainsOn(entries, s) == TrainsOn(entries[..i], s) + Share(entries[i], s) + TrainsOn(entries[i + 1..], s)
  {
    assert entries == entries[..i] + ([entries[i]] + entries[i + 1..]);
    SlotsConcat(entries[..i], [entries[i]] + entries[i + 1..], s);
    SlotsConcat([entries[i]], entries[i + 1..], s);
    assert [entries[i]][1..] == [];
    CountSplit(entries, i, s);
  }

  /** Replacing a train changes what is on a section only by that train, if it holds no other. */
  lemma SlotsUpdate(entries: seq<Entry>, i: nat, e: Entry, s: Uid)
    requires i < |entries|
    ensures !On(entries[i], s) && !On(e, s) ==> SlotsOn(entries[i := e], s) == SlotsOn(entries, s)
    ensures TrainsOn(entries, s) == Share(entries[i], s) ==> SlotsOn(entries[i := e], s) == SlotShare(e, s)
    ensures e.sim.trainUid == entries[i].sim.trainUid && On(e, s) == On(entries[i], s) ==> SlotsOn(entries[i := e], s) == SlotsOn(entries, s)
  {
    SlotsSplit(entries, i, s);
    SlotsSplit(entries[i := e], i, s);
    assert entries[i := e][..i] == entries[..i] && entries[i := e][i + 1..] == entries[i + 1..];
  }

  lemma UpsertNone(table: map<Uid, seq<TrainSlot>>, s: Uid)
    ensures Shown(Upserted(table, []), s) == Shown(table, s)
  {
  }

  lemma UpsertOne(table: map<Uid, seq<TrainSlot>>, ev: PipEvent, s: Uid)
    ensures Shown(Upserted(table, RowsOf([ev])), s) == if s == ev.section then RowOf(ev).trains else Shown(table, s)
  {
    assert RowsOf([ev]) == [RowOf(ev)] && [RowOf(ev)][1..] == [];
  }

  lemma RowsOfNothing()
    ensures RowsOf([]) == []
  {
  }

  /** What a section shows after it became free or was taken. */
  lemma ShownAfterFreed(table: map<Uid, seq<TrainSlot>>, w: World, uid: Uid, edge: bool, s: Uid)
    requires s in w.sections
    ensures Shown(Upserted(table, RowsOf(FreedPip(w, uid, edge))), s) == if s == uid then [] else Shown(table, s)
  {
    hide Upserted, RowsOf;
    if uid in w.sections {
      UpsertOne(table, PipEvent(uid, w.sections[uid].station, Free, None, edge), s);
    } else {
      UpsertNone(table, s);
      RowsOfNothing();
    }
  }

  lemma ShownAfterTaken(table: map<Uid, seq<TrainSlot>>, w: World, uid: Uid, train: Uid, s: Uid)
    requires s in w.sections
    ensures Shown(Upserted(table, RowsOf(TakenPip(w, uid, train))), s) == if s == uid then [SlotOf(train)] else Shown(table, s)
  {
    hide Upserted, RowsOf;
    if uid in w.sections {
      UpsertOne(table, PipEvent(uid, w.sections[uid].station, Occupied, Some(SlotOf(train)), false), s);
    } else {
      UpsertNone(table, s);
      RowsOfNothing();
    }
  }

  lemma RowsOfConcat(a: seq<PipEvent>, b: seq<PipEvent>)
    ensures RowsOf(a + b) == RowsOf(a) + RowsOf(b)
  {
  }

  lemma UpsertTwice(table: map<Uid, seq<TrainSlot>>, a: seq<PipEvent>, b: seq<PipEvent>)
    ensures Upserted(table, RowsOf(a + b)) == Upserted(Upserted(table, RowsOf(a)), RowsOf(b))
  {
    RowsOfConcat(a, b);
    UpsertedConcat(table, RowsOf(a), RowsOf(b));
  }

  /** The PIP events of one train's part of a tick. */
  lemma TickOnePipCases(w: World, e: Entry, m: Motion)
    ensures TickOne(w, e, m).pips ==
            match Entering(w, e, m)
            case Some(to) => FreedPip(w, e.sim.section, false) + TakenPip(w, to, e.sim.trainUid)
            case None => if Leaves(w, e, m) then FreedPip(w, e.sim.section, true) else []
  {
    hide ResolveNext, Occupy, FreedPip, TakenPip;
    EdgeOrNext(w, e.sim.section, e.from);
  }

  lemma LeavesGone(w: World, e: Entry, m: Motion)
    ensures Leaves(w, e, m) ==> TickOne(w, e, m).result.1.gone
  {
  }

  lemma TickOneTruthful(table: map<Uid, seq<TrainSlot>>, f: Fleet, i: nat, m: Motion)
    requires Truthful(table, f) && Exact(f) && i < |f.entries| && !f.entries[i].gone && Clear(f.world, f.entries[i], m)
    ensures Truthful(Upserted(table, RowsOf(TickOne(f.world, f.entries[i], m).pips)), NextFleet(f, i, m))
  {
    hide TickOne, Entering, Leaves, Upserted, RowsOf, FreedPip, TakenPip, SlotsOn;
    var e := f.entries[i];
    var g := NextFleet(f, i, m);
    TickOneCases(f.world, e, m);
    TickOnePipCases(f.world, e, m);
    LeavesGone(f.world, e, m);
    forall s | s in g.world.sections
      ensures Shown(Upserted(table, RowsOf(TickOne(f.world, e, m).pips)), s) == SlotsOn(g.entries, s)
    {
      assert ExactSection(f.world.sections[s], f.entries, s);
      SlotsUpdate(f.entries, i, g.entries[i], s);
      CountSplit(f.entries, i, s);
      match Entering(f.world, e, m) {
        case Some(to) =>
          var freed := FreedPip(f.world, e.sim.section, false);
          UpsertTwice(table, freed, TakenPip(f.world, to, e.sim.trainUid));
          ShownAfterFreed(table, f.world, e.sim.section, false, s);
          ShownAfterTaken(Upserted(table, RowsOf(freed)), f.world, to, e.sim.trainUid, s);
        case None =>
          ShownAfterFreed(table, f.world, e.sim.section, true, s);
          RowsOfNothing();
          UpsertNone(table, s);
      }
    }
  }

  lemma NothingUpserted(table: map<Uid, seq<TrainSlot>>)
    ensures Upserted(table, RowsOf([])) == table
  {
  }

  lemma {:induction false} TickFromTruthful(table: map<Uid, seq<TrainSlot>>, f: Fleet, i: nat, motions: seq<Motion>)
    requires |motions| == |f.entries| && Truthful(table, f) && Exact(f) && NoneGone(f.entries, i) && AllClear(f, i, motions)
    ensures var t := TickFrom(f, i, motions); Truthful(Upserted(table, RowsOf(t.pips)), t.result)
    decreases |f.entries| - i
  {
    hide TickOne, Exact, Clear, Truthful, Upserted, RowsOf;
    if i < |f.entries| {
      var one := TickOne(f.world, f.entries[i], motions[i]);
      var g := NextFleet(f, i, motions[i]);
      ClearKeepsExact(f, i, motions[i]);
      TickOneTruthful(table, f, i, motions[i]);
      TickFromTruthful(Upserted(table, RowsOf(one.pips)), g, i + 1, motions);
      UpsertTwice(table, one.pips, TickFrom(g, i + 1, motions).pips);
    } else {
      NothingUpserted(table);
    }
  }

  lemma {:induction false} SlotsRemaining(entries: seq<Entry>, s: Uid)
    ensures SlotsOn(Remaining(entries), s) == SlotsOn(entries, s)
  {
    if entries != [] {
      SlotsRemaining(entries[1..], s);
      if !entries[0].gone {
        SlotsConcat([entries[0]], Remaining(entries[1..]), s);
        assert [entries[0]][1..] == [];
      } else {
        assert [] + Remaining(entries[1..]) == Remaining(entries[1..]);
      }
    }
  }

  lemma SlotsOfOne(e: Entry, s: Uid)
    ensures SlotsOn([e], s) == SlotShare(e, s)
  {
    assert [e][1..] == [];
  }

  lemma SpawnTruthful(table: map<Uid, seq<TrainSlot>>, f: Fleet, initial: SimState, from: Uid)
    requires Truthful(table, f) && Exact(f)
    ensures var t := Spawned(f, initial, from); Truthful(Upserted(table, RowsOf(t.pips)), t.result)
  {
    hide Upserted, RowsOf, TakenPip, SlotsOn, AxlesOn;
    NothingUpserted(table);
    var t := Spawned(f, initial, from);
    if SpawnRefusal(f.world, initial.section).None? {
      var e := Entry(initial, from, false);
      forall s | s in t.result.world.sections
        ensures Shown(Upserted(table, RowsOf(t.pips)), s) == SlotsOn(t.result.entries, s)
      {
        assert ExactSection(f.world.sections[s], f.entries, s);
        ShownAfterTaken(table, f.world, initial.section, initial.trainUid, s);
        SlotsConcat(f.entries, [e], s);
        SlotsOfOne(e, s);
      }
    }
  }

  lemma DespawnTruthful(table: map<Uid, seq<TrainSlot>>, f: Fleet, train: Uid)
    requires Truthful(table, f) && Exact(f) && NoneGone(f.entries, 0)
    ensures var t := Despawned(f, train); Truthful(Upserted(table, RowsOf(t.pips)), t.result)
  {
    hide Upserted, RowsOf, FreedPip, SlotsOn, IndexOf, AxlesOn;
    NothingUpserted(table);
    var t := Despawned(f, train);
    var i := IndexOf(f.entries, train);
    if i < |f.entries| {
      var e := f.entries[i];
      forall s | s in t.result.world.sections
        ensures Shown(Upserted(table, RowsOf(t.pips)), s) == SlotsOn(t.result.entries, s)
      {
        assert ExactSection(f.world.sections[s], f.entries, s);
        ShownAfterFreed(table, f.world, e.sim.section, false, s);
        SlotsSplit(f.entries, i, s);
        SlotsConcat(f.entries[..i], f.entries[i + 1..], s);
      }
    }
  }

  lemma TickTruthful(table: map<Uid, seq<TrainSlot>>, f: Fleet, motions: seq<Motion>)
    requires Truthful(table, f) && Exact(f) && NoneGone(f.entries, 0)
    requires |motions| == |f.entries| && AllClear(f, 0, motions)
    ensures var t := Ticked(f, motions); Truthful(Upserted(table, RowsOf(t.pips)), t.result)
  {
    hide TickFrom, AllClear, Remaining, Upserted, RowsOf, SlotsOn, Exact;
    TickFromTruthful(table, f, 0, motions);
    var all := TickFrom(f, 0, motions).result;
    forall s
      ensures SlotsOn(Remaining(all.entries), s) == SlotsOn(all.entries, s)
    {
      SlotsRemaining(all.entries, s);
    }
  }

  lemma ApplyTruthful(table: map<Uid, seq<TrainSlot>>, f: Fleet, ev: Event)
    requires Truthful(table, f) && Exact(f) && NoneGone(f.entries, 0)
    requires ev.TickTrains? ==> AllClear(f, 0, Motions(f, ev.motion))
    ensures var t := Apply(f, ev); Truthful(Upserted(table, RowsOf(t.pips)), t.result)
  {
    NothingUpserted(table);
    hide Spawned, Despawned, Ticked, AllClear, Upserted, RowsOf, SlotsOn, Exact;
    match ev {
      case SpawnTrain(initial, from) => SpawnTruthful(table, f, initial, from);
      case DespawnTrain(train) => DespawnTruthful(table, f, train);
      case TickTrains(motion) => TickTruthful(table, f, Motions(f, motion));
      case SetSwitch(uid, position) =>
    }
  }

  lemma {:induction false} RunTruthful(table: map<Uid, seq<TrainSlot>>, f: Fleet, events: seq<Event>)
    requires Truthful(table, f) && Exact(f) && NoneGone(f.entries, 0) && ClearRun(f, events)
    ensures var t := Run(f, events); Truthful(Upserted(table, RowsOf(t.pips)), t.result) && Exact(t.result)
    decreases |events|
  {
    hide Exact, NoneGone, Truthful, Upserted, RowsOf, Apply, AllClear;
    if events == [] {
      NothingUpserted(table);
    } else {
      var first := Apply(f, events[0]);
      ApplyTruthful(table, f, events[0]);
      ApplyExact(f, events[0]);
      RunTruthful(Upserted(table, RowsOf(first.pips)), first.result, events[1..]);
      UpsertTwice(table, first.pips, Run(first.result, events[1..]).pips);
    }
  }

  /** After any run from rest in which every crossing enters a free section, the PIP table shows on
      every known section exactly the trains that are on it. */
  lemma PipTableTruthful(f: Fleet, events: seq<Event>)
    requires AtRest(f) && ClearRun(f, events)
    ensures Truthful(Table(Run(f, events).pips), Run(f, events).result)
  {
    assert Exact(f);
    RunTruthful(map[], f, events);
  }

  /** A row tells whether its section is occupied; a section without one is as it was at `start`. */
  predicate Agrees(table: map<Uid, seq<TrainSlot>>, sections: map<Uid, Section>, start: map<Uid, Section>)
    requires sections.Keys == start.Keys
  {
    forall s :: s in sections ==>
      if s in table then (table[s] != [] <==> sections[s].occupancy == Occupied)
      else sections[s].occupancy == start[s].occupancy
  }

  lemma ReplayFirst(sections: map<Uid, Section>, changes: seq<Change>)
    requires changes != []
    ensures Replay(sections, changes) == Replay(ApplyChange(sections, changes[0]), changes[1..])
  {
  }

  lemma UpsertPip(table: map<Uid, seq<TrainSlot>>, stations: map<Uid, Uid>, c: Change)
    ensures Upserted(table, RowsOf(PipOf(stations, c)))
            == if c.OccupancyChange? && c.uid in stations
               then table[c.uid := if c.occupancy == Occupied then [SlotOf(c.train)] else []] else table
  {
    var pips := PipOf(stations, c);
    if pips != [] {
      assert RowsOf(pips) == [RowOf(pips[0])] && [RowOf(pips[0])][1..] == [];
    }
  }

  lemma {:induction false} RowsAgree(table: map<Uid, seq<TrainSlot>>, sections: map<Uid, Section>,
                                     start: map<Uid, Section>, stations: map<Uid, Uid>, changes: seq<Change>)
    requires sections.Keys == start.Keys == stations.Keys && Agrees(table, sections, start)
    ensures Replay(sections, changes).Keys == start.Keys
    ensures Agrees(Upserted(table, RowsOf(PipsOf(stations, changes))), Replay(sections, changes), start)
    decreases |changes|
  {
    hide RowsOf, Upserted, Replay;
    if changes == [] {
      RowsOfNothing();
      NothingUpserted(table);
      ReplayNothing(sections);
    } else {
      var c := changes[0];
      var table' := Upserted(table, RowsOf(PipOf(stations, c)));
      UpsertTwice(table, PipOf(stations, c), PipsOf(stations, changes[1..]));
      assert Replay(sections, changes) == Replay(ApplyChange(sections, c), changes[1..]) by { ReplayFirst(sections, changes); }
      UpsertPip(table, stations, c);
      RowsAgree(table', ApplyChange(sections, c), start, stations, changes[1..]);
    }
  }

  lemma RowsIgnoreEdge(pips: seq<PipEvent>)
    ensures RowsOf(EdgeAside(pips)) == RowsOf(pips)
  {
  }

  /** After any run of fleet steps, whatever its crossings, the PIP row of each touched section
      agrees with the engine about whether it is occupied. */
  lemma PipTableAgrees(f: Fleet, events: seq<Event>)
    ensures var t := Run(f, events);
            t.result.world.sections.Keys == f.world.sections.Keys
            && Agrees(Table(t.pips), t.result.world.sections, f.world.sections)
  {
    hide Run, Replay, PipsOf, Upserted, RowsOf, EdgeAside;
    var t := Run(f, events);
    RunReplays(f, events);
    RunPips(f, events);
    RowsIgnoreEdge(t.pips);
    RowsAgree(map[], f.world.sections, f.world.sections, Stations(f.world), t.changes);
  }

  // ---- The code -----------------------------------------------------------------------------------------

  class PipWriter {
    var upserts: seq<PipRow>

    constructor ()
      ensures upserts == []
    {
      upserts := [];
    }

    method OnPipEvents(events: seq<PipEvent>)
      modifies this
      ensures upserts == old(upserts) + RowsOf(events)
    {
      for i := 0 to |events|
        invariant upserts == old(upserts) + RowsOf(events[..i])
      {
        var ev := events[i];
        var trains := [];
        if ev.occupancy == Occupied && ev.slot.Some? {
          trains := [ev.slot.value];
        }
        upserts := upserts + [PipRow(ev.section, trains)];
        assert RowsOf(events[..i + 1]) == RowsOf(events[..i]) + [RowOf(ev)];
      }
      assert events[..|events|] == events;
    }
  }
}
