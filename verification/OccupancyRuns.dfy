/** Runs of the fleet, and when track occupancy tells exactly where the trains are. */
module OccupancyRuns {
  import opened Wrappers
  import opened Topology
  import opened TrainSim
  import opened TrainFleet

  // ---- Counting trains on a section -------------------------------------------------------------

  predicate On(e: Entry, s: Uid)
  {
    !e.gone && e.sim.section == s
  }

  function TrainsOn(entries: seq<Entry>, s: Uid): nat
  {
    if entries == [] then 0 else (if On(entries[0], s) then 1 else 0) + TrainsOn(entries[1..], s)
  }

  function AxlesOn(entries: seq<Entry>, s: Uid): int
  {
    if entries == [] then 0 else (if On(entries[0], s) then entries[0].sim.totalAxles else 0) + AxlesOn(entries[1..], s)
  }

  /** A section is occupied when one train is on it and free when none is, and its axle counter
      shows the axles of the trains on it. */
  predicate ExactSection(section: Section, entries: seq<Entry>, s: Uid)
  {
    && TrainsOn(entries, s) == (if section.occupancy == Occupied then 1 else 0)
    && section.axles == AxlesOn(entries, s)
  }

  predicate Exact(f: Fleet)
  {
    forall s :: s in f.world.sections ==> ExactSection(f.world.sections[s], f.entries, s)
  }

  predicate NoneGone(entries: seq<Entry>, i: nat)
  {
    forall j :: i <= j < |entries| ==> !entries[j].gone
  }

  function Share(e: Entry, s: Uid): nat { if On(e, s) then 1 else 0 }
  function AxleShare(e: Entry, s: Uid): int { if On(e, s) then e.sim.totalAxles else 0 }

  lemma {:induction false} CountConcat(a: seq<Entry>, b: seq<Entry>, s: Uid)
    ensures TrainsOn(a + b, s) == TrainsOn(a, s) + TrainsOn(b, s)
    ensures AxlesOn(a + b, s) == AxlesOn(a, s) + AxlesOn(b, s)
  {
    if a == [] {
      assert a + b == b;
    } else {
      assert (a + b)[1..] == a[1..] + b;
      CountConcat(a[1..], b, s);
    }
  }

  lemma CountOne(e: Entry, s: Uid)
    ensures TrainsOn([e], s) == Share(e, s) && AxlesOn([e], s) == AxleShare(e, s)
  {
    assert [e][1..] == [];
  }

  lemma CountSplit(entries: seq<Entry>, i: nat, s: Uid)
    requires i < |entries|
    ensures TrainsOn(entries, s) == TrainsOn(entries[..i], s) + Share(entries[i], s) + TrainsOn(entries[i + 1..], s)
    ensures AxlesOn(entries, s) == AxlesOn(entries[..i], s) + AxleShare(entries[i], s) + AxlesOn(entries[i + 1..], s)
  {
    assert entries == entries[..i] + ([entries[i]] + entries[i + 1..]);
    CountConcat(entries[..i], [entries[i]] + entries[i + 1..], s);
    CountConcat([entries[i]], entries[i + 1..], s);
    CountOne(entries[i], s);
  }

  lemma CountUpdate(entries: seq<Entry>, i: nat, e: Entry, s: Uid)
    requires i < |entries|
    ensures TrainsOn(entries[i := e], s) == TrainsOn(entries, s) - Share(entries[i], s) + Share(e, s)
    ensures AxlesOn(entries[i := e], s) == AxlesOn(entries, s) - AxleShare(entries[i], s) + AxleShare(e, s)
  {
    CountSplit(entries, i, s);
    CountSplit(entries[i := e], i, s);
    assert entries[i := e][..i] == entries[..i] && entries[i := e][i + 1..] == entries[i + 1..];
  }

  lemma CountRemove(entries: seq<Entry>, i: nat, s: Uid)
    requires i < |entries|
    ensures TrainsOn(entries[..i] + entries[i + 1..], s) == TrainsOn(entries, s) - Share(entries[i], s)
    ensures AxlesOn(entries[..i] + entries[i + 1..], s) == AxlesOn(entries, s) - AxleShare(entries[i], s)
  {
    CountSplit(entries, i, s);
    CountConcat(entries[..i], entries[i + 1..], s);
  }

  lemma CountTwo(entries: seq<Entry>, i: nat, j: nat, s: Uid)
    requires i < |entries| && j < |entries| && i != j && On(entries[i], s) && On(entries[j], s)
    ensures TrainsOn(entries, s) >= 2
  {
    var lo, hi := if i < j then i else j, if i < j then j else i;
    CountSplit(entries, lo, s);
    CountSplit(entries[lo + 1..], hi - lo - 1, s);
  }

  lemma {:induction false} CountRemaining(entries: seq<Entry>, s: Uid)
    ensures TrainsOn(Remaining(entries), s) == TrainsOn(entries, s)
    ensures AxlesOn(Remaining(entries), s) == AxlesOn(entries, s)
  {
    if entries != [] {
      CountRemaining(entries[1..], s);
      if !entries[0].gone {
        CountConcat([entries[0]], Remaining(entries[1..]), s);
        CountOne(entries[0], s);
      } else {
        assert [] + Remaining(entries[1..]) == Remaining(entries[1..]);
      }
    }
  }

  lemma {:induction false} RemainingNotGone(entries: seq<Entry>)
    ensures NoneGone(Remaining(entries), 0)
  {
    if entries != [] {
      RemainingNotGone(entries[1..]);
    }
  }

  lemma {:induction false} AxlesOfNone(entries: seq<Entry>, s: Uid)
    requires TrainsOn(entries, s) == 0
    ensures AxlesOn(entries, s) == 0
  {
    if entries != [] {
      AxlesOfNone(entries[1..], s);
    }
  }

  /** In an exact state, the section of a live train is occupied, counts that train's axles, and
      holds no other train. */
  lemma SoleOccupant(f: Fleet, i: nat)
    requires Exact(f) && i < |f.entries| && !f.entries[i].gone && f.entries[i].sim.section in f.world.sections
    ensures var e := f.entries[i].sim;
            && f.world.sections[e.section].occupancy == Occupied
            && f.world.sections[e.section].axles == e.totalAxles
            && forall j :: 0 <= j < |f.entries| && j != i ==> !On(f.entries[j], e.section)
  {
    var s := f.entries[i].sim.section;
    assert ExactSection(f.world.sections[s], f.entries, s);
    forall j | 0 <= j < |f.entries| && j != i
      ensures !On(f.entries[j], s)
    {
      if On(f.entries[j], s) {
        CountTwo(f.entries, i, j, s);
      }
    }
    CountSplit(f.entries, i, s);
    AxlesOfNone(f.entries[..i], s);
    AxlesOfNone(f.entries[i + 1..], s);
  }

  // ---- One train's part of a tick -----------------------------------------------------------------

  /** The section a train crosses into in its part of the tick, if it does. */
  function Entering(w: World, e: Entry, m: Motion): Option<Uid>
  {
    if e.sim.section !in w.sections then None
    else
      var c := TickCrossing(e.sim, m, w.sections[e.sim.section].length, ResolveNext(w, e.sim.section, e.from).section);
      if c.Some? then Some(c.value.to) else None
  }

  function Leaves(w: World, e: Entry, m: Motion): bool
  {
    !e.gone && TickOne(w, e, m).result.1.gone
  }

  /** The section entered, if it is a known one, is free at that moment, or is the one left. */
  predicate Clear(w: World, e: Entry, m: Motion)
  {
    match Entering(w, e, m)
    case None => true
    case Some(to) => to !in w.sections || to == e.sim.section || w.sections[to].occupancy == Free
  }

  /** What one train's part of a tick amounts to. */
  lemma TickOneCases(w: World, e: Entry, m: Motion)
    ensures var r := TickOne(w, e, m).result;
            && r.1.sim.totalAxles == e.sim.totalAxles && r.1.sim.trainUid == e.sim.trainUid
            && match Entering(w, e, m)
               case Some(to) =>
                 && r.0 == Occupy(Occupy(w, e.sim.section, Free, 0), to, Occupied, e.sim.totalAxles)
                 && r.1.sim.section == to && r.1.gone == e.gone && e.sim.section in w.sections
               case None =>
                 && r.1.sim.section == e.sim.section
                 && (if Leaves(w, e, m) then r.0 == Occupy(w, e.sim.section, Free, 0) && e.sim.section in w.sections
                     else r.0 == w && r.1.gone == e.gone)
  {
    hide ResolveNext, Occupy;
    EdgeOrNext(w, e.sim.section, e.from);
  }

  function NextFleet(f: Fleet, i: nat, m: Motion): Fleet
    requires i < |f.entries|
  {
    var r := TickOne(f.world, f.entries[i], m).result;
    Fleet(r.0, f.entries[i := r.1])
  }

  /** A train that enters no occupied section keeps the occupancy exact. */
  lemma ClearKeepsExact(f: Fleet, i: nat, m: Motion)
    requires Exact(f) && i < |f.entries| && !f.entries[i].gone && Clear(f.world, f.entries[i], m)
    ensures Exact(NextFleet(f, i, m))
  {
    hide TickOne, Entering;
    var e := f.entries[i];
    var g := NextFleet(f, i, m);
    TickOneCases(f.world, e, m);
    if e.sim.section in f.world.sections {
      SoleOccupant(f, i);
    }
    forall s | s in g.world.sections
      ensures ExactSection(g.world.sections[s], g.entries, s)
    {
      assert ExactSection(f.world.sections[s], f.entries, s);
      CountUpdate(f.entries, i, g.entries[i], s);
      assert s == e.sim.section ==> AxlesOn(f.entries, s) == e.sim.totalAxles;
      if TrainsOn(f.entries, s) == 0 {
        AxlesOfNone(f.entries, s);
      }
    }
  }

  /** Train `i` is on a known section that is marked free or holds a second train. */
  predicate Clash(f: Fleet, i: nat, s: Uid)
  {
    && i < |f.entries| && On(f.entries[i], s) && s in f.world.sections
    && (f.world.sections[s].occupancy == Free || TrainsOn(f.entries, s) >= 2)
  }

  lemma ClashIsInexact(f: Fleet, i: nat, s: Uid)
    requires Clash(f, i, s)
    ensures !Exact(f)
  {
    CountSplit(f.entries, i, s);
    assert !ExactSection(f.world.sections[s], f.entries, s);
  }

  lemma EnteringOccupiedClashes(f: Fleet, i: nat, m: Motion)
    requires Exact(f) && i < |f.entries| && !f.entries[i].gone && !Clear(f.world, f.entries[i], m)
    ensures var to := Entering(f.world, f.entries[i], m); to.Some? && Clash(NextFleet(f, i, m), i, to.value)
  {
    hide TickOne, Entering;
    var e := f.entries[i];
    var s := Entering(f.world, e, m).value;
    TickOneCases(f.world, e, m);
    assert ExactSection(f.world.sections[s], f.entries, s);
    CountUpdate(f.entries, i, NextFleet(f, i, m).entries[i], s);
  }

  /** What another train does in the same tick cannot repair a clash. */
  lemma ClashStays(f: Fleet, i: nat, s: Uid, k: nat, m: Motion)
    requires Clash(f, i, s) && k < |f.entries| && k != i && !f.entries[k].gone
    ensures Clash(NextFleet(f, k, m), i, s)
  {
    hide TickOne, Entering;
    var e := f.entries[k];
    var g := NextFleet(f, k, m);
    TickOneCases(f.world, e, m);
    CountUpdate(f.entries, k, g.entries[k], s);
    if On(g.entries[k], s) {
      CountTwo(g.entries, i, k, s);
    }
  }

  // ---- A whole tick ---------------------------------------------------------------------------------

  predicate AllClear(f: Fleet, i: nat, motions: seq<Motion>)
    requires |motions| == |f.entries|
    decreases |f.entries| - i
  {
    i >= |f.entries|
    || (Clear(f.world, f.entries[i], motions[i]) && AllClear(NextFleet(f, i, motions[i]), i + 1, motions))
  }

  lemma {:induction false} ClashLasts(f: Fleet, i: nat, s: Uid, k: nat, motions: seq<Motion>)
    requires |motions| == |f.entries| && Clash(f, i, s) && i < k && NoneGone(f.entries, k)
    ensures Clash(TickFrom(f, k, motions).result, i, s)
    decreases |f.entries| - k
  {
    hide TickOne, Clash;
    if k < |f.entries| {
      ClashStays(f, i, s, k, motions[k]);
      ClashLasts(NextFleet(f, k, motions[k]), i, s, k + 1, motions);
    }
  }

  lemma {:induction false} TickFromExactIff(f: Fleet, i: nat, motions: seq<Motion>)
    requires |motions| == |f.entries| && Exact(f) && NoneGone(f.entries, i)
    ensures Exact(TickFrom(f, i, motions).result) <==> AllClear(f, i, motions)
    decreases |f.entries| - i
  {
    hide TickOne, Exact, Clear, Clash;
    if i < |f.entries| {
      var g := NextFleet(f, i, motions[i]);
      if Clear(f.world, f.entries[i], motions[i]) {
        ClearKeepsExact(f, i, motions[i]);
        TickFromExactIff(g, i + 1, motions);
      } else {
        EnteringOccupiedClashes(f, i, motions[i]);
        var s := Entering(f.world, f.entries[i], motions[i]).value;
        ClashLasts(g, i, s, i + 1, motions);
        ClashIsInexact(TickFrom(g, i + 1, motions).result, i, s);
      }
    }
  }

  lemma RemainingExact(w: World, entries: seq<Entry>)
    ensures Exact(Fleet(w, Remaining(entries))) <==> Exact(Fleet(w, entries))
  {
    forall s
      ensures TrainsOn(Remaining(entries), s) == TrainsOn(entries, s) && AxlesOn(Remaining(entries), s) == AxlesOn(entries, s)
    {
      CountRemaining(entries, s);
    }
    assert forall s :: s in w.sections ==>
      (ExactSection(w.sections[s], Remaining(entries), s) <==> ExactSection(w.sections[s], entries, s));
  }

  /** A tick keeps the occupancy exact exactly when every crossing in it enters a section that is
      free at that moment. The crossings of one tick cannot make up for each other. */
  lemma TickExactIff(f: Fleet, motions: seq<Motion>)
    requires |motions| == |f.entries| && Exact(f) && NoneGone(f.entries, 0)
    ensures Exact(Ticked(f, motions).result) <==> AllClear(f, 0, motions)
    ensures NoneGone(Ticked(f, motions).result.entries, 0)
  {
    hide Exact, AllClear, TickFrom;
    TickFromExactIff(f, 0, motions);
    var all := TickFrom(f, 0, motions).result;
    RemainingExact(all.world, all.entries);
    RemainingNotGone(all.entries);
  }

  lemma SpawnKeepsExact(f: Fleet, initial: SimState, from: Uid)
    requires Exact(f) && NoneGone(f.entries, 0)
    ensures var g := Spawned(f, initial, from).result; Exact(g) && NoneGone(g.entries, 0)
  {
    var g := Spawned(f, initial, from).result;
    var e := Entry(initial, from, false);
    if SpawnRefusal(f.world, initial.section).None? {
      forall s | s in g.world.sections
        ensures ExactSection(g.world.sections[s], g.entries, s)
      {
        assert ExactSection(f.world.sections[s], f.entries, s);
        CountConcat(f.entries, [e], s);
        CountOne(e, s);
        if TrainsOn(f.entries, s) == 0 {
          AxlesOfNone(f.entries, s);
        }
      }
    }
  }

  lemma DespawnKeepsExact(f: Fleet, train: Uid)
    requires Exact(f) && NoneGone(f.entries, 0)
    ensures var g := Despawned(f, train).result; Exact(g) && NoneGone(g.entries, 0)
  {
    var g := Despawned(f, train).result;
    var i := IndexOf(f.entries, train);
    if i < |f.entries| {
      var e := f.entries[i];
      if e.sim.section in f.world.sections {
        SoleOccupant(f, i);
      }
      forall s | s in g.world.sections
        ensures ExactSection(g.world.sections[s], g.entries, s)
      {
        assert ExactSection(f.world.sections[s], f.entries, s);
        CountRemove(f.entries, i, s);
      }
    }
  }

  // ---- Runs -------------------------------------------------------------------------------------------

  /** Steps of a run. Between ticks the interlocking may set switches. A tick moves the train at
      each index as `motion` says. */
  datatype Event =
    | SpawnTrain(initial: SimState, from: Uid)
    | DespawnTrain(train: Uid)
    | TickTrains(motion: nat -> Motion)
    | SetSwitch(uid: Uid, position: SwitchPosition)

  function Motions(f: Fleet, motion: nat -> Motion): (ms: seq<Motion>)
    ensures |ms| == |f.entries| && forall j :: 0 <= j < |ms| ==> ms[j] == motion(j)
  {
    seq(|f.entries|, j requires 0 <= j < |f.entries| => motion(j))
  }

  function Apply(f: Fleet, ev: Event): Effect<Fleet>
  {
    match ev
    case SpawnTrain(initial, from) => Spawned(f, initial, from)
    case DespawnTrain(train) => Despawned(f, train)
    case TickTrains(motion) => Ticked(f, Motions(f, motion))
    case SetSwitch(uid, position) => Effect(Fleet(SwitchSet(f.world, uid, position), f.entries), [], [])
  }

  /** The state after a run, with everything it logged, in order. */
  function Run(f: Fleet, events: seq<Event>): Effect<Fleet>
    decreases |events|
  {
    if events == [] then Effect(f, [], [])
    else
      var first := Apply(f, events[0]);
      var rest := Run(first.result, events[1..]);
      Effect(rest.result, first.changes + rest.changes, first.pips + rest.pips)
  }

  /** Every crossing in every tick of the run enters a section that is free at that moment. */
  predicate ClearRun(f: Fleet, events: seq<Event>)
    decreases |events|
  {
    events == []
    || ((events[0].TickTrains? ==> AllClear(f, 0, Motions(f, events[0].motion)))
        && ClearRun(Apply(f, events[0]).result, events[1..]))
  }

  /** No trains, and every section free with its counter at zero. */
  predicate AtRest(f: Fleet)
  {
    f.entries == []
    && forall s :: s in f.world.sections ==> f.world.sections[s].occupancy == Free && f.world.sections[s].axles == 0
  }

  lemma ApplyExact(f: Fleet, ev: Event)
    requires Exact(f) && NoneGone(f.entries, 0)
    ensures var g := Apply(f, ev).result;
            && NoneGone(g.entries, 0)
            && (Exact(g) <==> (ev.TickTrains? ==> AllClear(f, 0, Motions(f, ev.motion))))
  {
    hide AllClear, Ticked, Spawned, Despawned;
    match ev {
      case SpawnTrain(initial, from) =>
        hide Exact;
        SpawnKeepsExact(f, initial, from);
      case DespawnTrain(train) =>
        hide Exact;
        DespawnKeepsExact(f, train);
      case TickTrains(motion) =>
        hide Exact;
        TickExactIff(f, Motions(f, motion));
      case SetSwitch(uid, position) =>
        assert SwitchSet(f.world, uid, position).sections == f.world.sections;
    }
  }

  lemma {:induction false} RunExactIff(f: Fleet, events: seq<Event>)
    requires Exact(f) && NoneGone(f.entries, 0)
    ensures (forall k :: 0 <= k <= |events| ==> Exact(Run(f, events[..k]).result)) <==> ClearRun(f, events)
    decreases |events|
  {
    hide Exact, AllClear, NoneGone, Apply;
    if events == [] {
      assert events[..0] == [];
    } else {
      var g := Apply(f, events[0]).result;
      ApplyExact(f, events[0]);
      forall k | 0 < k <= |events|
        ensures Run(f, events[..k]).result == Run(g, events[1..][..k - 1]).result
      {
        assert events[..k][1..] == events[1..][..k - 1];
      }
      assert Run(g, events[1..][..0]).result == g;
      assert Run(f, events[..0]).result == f;
      if Exact(g) {
        RunExactIff(g, events[1..]);
        if ClearRun(f, events) {
          forall k | 0 <= k <= |events|
            ensures Exact(Run(f, events[..k]).result)
          {
          }
        } else {
          var k :| 0 <= k <= |events[1..]| && !Exact(Run(g, events[1..][..k]).result);
          assert !Exact(Run(f, events[..k + 1]).result);
        }
      } else {
        assert !Exact(Run(f, events[..1]).result);
      }
    }
  }

  /** Occupancy: in every run from an empty fleet on free track, every reachable state is exact
      exactly when every crossing enters a section that is free at that moment. */
  lemma OccupancyExactIff(f: Fleet, events: seq<Event>)
    requires AtRest(f)
    ensures (forall k :: 0 <= k <= |events| ==> Exact(Run(f, events[..k]).result)) <==> ClearRun(f, events)
  {
    assert Exact(f);
    RunExactIff(f, events);
  }

  // ---- A run that is not clear ------------------------------------------------------------------------

  const AT_START := Physics(0.0, 0.0, 0.0, 0.0, 0.0)

  function TrainAt(uid: Uid, section: Uid): SimState
  {
    SimState(uid, section, AT_START, Stopped, 0.0, 4)
  }

  /** Two sections of ten metres in a row, between the boundaries 8 and 9. */
  const TWO_SECTIONS := World(map[1 := Section(0, 8, 2, 10.0, Free, 0), 2 := Section(0, 1, 9, 10.0, Free, 0)], map[], {8, 9})

  const REAR_ENDING :=
    [SpawnTrain(TrainAt(100, 1), 8), SpawnTrain(TrainAt(200, 2), 1),
     TickTrains(i => Motion(Physics(if i == 0 then 10.0 else 0.0, 0.0, 0.0, 0.0, 0.0), Stopped))]

  /** Two trains, one behind the other; the rear one comes to the end of its section. The fleet sends it on
      into the section of the other. */
  lemma RearEnding()
    ensures var f := Fleet(TWO_SECTIONS, []); AtRest(f) && !ClearRun(f, REAR_ENDING)
  {
    var f := Fleet(TWO_SECTIONS, []);
    var (spawnRear, spawnFront, tick) := (REAR_ENDING[0], REAR_ENDING[1], REAR_ENDING[2]);
    var g := Apply(f, spawnRear).result;
    var h := Apply(g, spawnFront).result;
    assert g.world.sections[2].occupancy == Free;
    assert h.world.sections[2].occupancy == Occupied;
    assert h.entries == [Entry(TrainAt(100, 1), 8, false), Entry(TrainAt(200, 2), 1, false)];
    var m := Motions(h, tick.motion)[0];
    assert Entering(h.world, h.entries[0], m) == Some(2);
    assert !Clear(h.world, h.entries[0], m);
    assert REAR_ENDING[1..][0] == spawnFront && REAR_ENDING[1..][1..][0] == tick;
    assert !ClearRun(h, REAR_ENDING[1..][1..]);
  }
}
