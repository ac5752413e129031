/** Journeys: where trains can be in any run, how far they have come, and where they get lost. */
module Journeys {
  import opened Wrappers
  import opened Topology
  import opened TrainSim
  import opened TrainFleet
  import opened OccupancyRuns

  function Pos(e: Entry): Position
  {
    Position(e.sim.section, e.from)
  }

  // ---- One train follows the topology -----------------------------------------------------------------

  /** In one tick a train either stays where it is, facing the same way, or makes exactly one step
      of the topology; it makes one exactly when it reaches the end of a known section that has a
      next section. However far it overshoots, no section is skipped. */
  lemma TickIsOneStep(w: World, e: Entry, m: Motion)
    ensures var e' := TickOne(w, e, m).result.1;
            var crosses := e.sim.section in w.sections && ReachesEnd(m, w.sections[e.sim.section].length)
                           && Step(w, Pos(e)).Some?;
            if crosses then Step(w, Pos(e)) == Some(Pos(e')) && e'.gone == e.gone else Pos(e') == Pos(e)
  {
    hide ResolveNext, Occupy;
    EdgeOrNext(w, e.sim.section, e.from);
  }

  /** The fixed part of the topology is the same. */
  ghost predicate SameLayout(v: World, w: World)
  {
    && v.sections.Keys == w.sections.Keys && v.switches.Keys == w.switches.Keys
    && (forall s :: s in v.sections ==>
          v.sections[s].sideA == w.sections[s].sideA && v.sections[s].sideB == w.sections[s].sideB
          && v.sections[s].length == w.sections[s].length)
    && (forall s :: s in v.switches ==>
          v.switches[s].trunk == w.switches[s].trunk && v.switches[s].straight == w.switches[s].straight
          && v.switches[s].divergent == w.switches[s].divergent)
  }

  lemma WellFormedIsLayout(v: World, w: World)
    requires WellFormed(v) && SameLayout(v, w)
    ensures WellFormed(w)
  {
    forall s | s in w.sections
      ensures SectionWellFormed(w, s)
    {
      assert SectionWellFormed(v, s);
      assert forall n :: HasSide(w.sections[s], n) ==> HasSide(v.sections[s], n);
    }
    forall s | s in w.switches
      ensures SwitchWellFormed(w, s)
    {
      assert SwitchWellFormed(v, s);
      assert forall n :: IsLeg(w.switches[s], n) ==> IsLeg(v.switches[s], n);
    }
  }

  lemma TickOneLayout(w: World, e: Entry, m: Motion)
    ensures SameLayout(w, TickOne(w, e, m).result.0)
  {
    hide ResolveNext;
  }

  lemma {:induction false} TickFromLayout(f: Fleet, i: nat, motions: seq<Motion>)
    requires |motions| == |f.entries|
    ensures SameLayout(f.world, TickFrom(f, i, motions).result.world)
    decreases |f.entries| - i
  {
    hide TickOne;
    if i < |f.entries| {
      TickOneLayout(f.world, f.entries[i], motions[i]);
      TickFromLayout(NextFleet(f, i, motions[i]), i + 1, motions);
    }
  }

  lemma ApplyLayout(f: Fleet, ev: Event)
    ensures SameLayout(f.world, Apply(f, ev).result.world)
  {
    hide TickFrom, Remaining, IndexOf;
    if ev.TickTrains? {
      TickFromLayout(f, 0, Motions(f, ev.motion));
    }
  }

  // ---- No train turns back ------------------------------------------------------------------------------

  /** The train is on a known section, came from a neighbour of it, and what lies ahead is the
      neighbour at the other end. */
  predicate UnderWay(w: World, e: Entry)
  {
    Located(w, Pos(e)) && (var ahead := Ahead(w.sections[e.sim.section], e.from); ahead != e.from || ahead == 0)
  }

  predicate AllUnderWay(f: Fleet)
  {
    forall i :: 0 <= i < |f.entries| ==> UnderWay(f.world, f.entries[i])
  }

  lemma UnderWayIsLayout(v: World, w: World, e: Entry)
    requires SameLayout(v, w) && UnderWay(v, e)
    ensures UnderWay(w, e)
  {
  }

  lemma TickOneUnderWay(w: World, e: Entry, m: Motion)
    requires WellFormed(w) && UnderWay(w, e)
    ensures UnderWay(TickOne(w, e, m).result.0, TickOne(w, e, m).result.1)
  {
    hide TickOne, Step, ResolveNext, WellFormed;
    TickIsOneStep(w, e, m);
    TickOneLayout(w, e, m);
    if Step(w, Pos(e)).Some? {
      StepStaysLocated(w, Pos(e));
    }
    UnderWayIsLayout(w, TickOne(w, e, m).result.0, TickOne(w, e, m).result.1);
  }

  lemma {:induction false} TickFromUnderWay(f: Fleet, i: nat, motions: seq<Motion>)
    requires |motions| == |f.entries| && WellFormed(f.world) && AllUnderWay(f)
    ensures AllUnderWay(TickFrom(f, i, motions).result)
    decreases |f.entries| - i
  {
    hide TickOne, UnderWay, WellFormed, SameLayout;
    if i < |f.entries| {
      var g := NextFleet(f, i, motions[i]);
      TickOneUnderWay(f.world, f.entries[i], motions[i]);
      TickOneLayout(f.world, f.entries[i], motions[i]);
      WellFormedIsLayout(f.world, g.world);
      forall j | 0 <= j < |g.entries|
        ensures UnderWay(g.world, g.entries[j])
      {
        if j != i {
          UnderWayIsLayout(f.world, g.world, f.entries[j]);
        }
      }
      TickFromUnderWay(g, i + 1, motions);
    }
  }

  lemma {:induction false} RemainingAmong(entries: seq<Entry>)
    ensures forall i :: 0 <= i < |Remaining(entries)| ==> Remaining(entries)[i] in entries
  {
    if entries != [] {
      RemainingAmong(entries[1..]);
    }
  }

  /** Trains enter the track facing away from a neighbour of their first section. */
  predicate SpawnsAtSide(w: World, ev: Event)
  {
    ev.SpawnTrain? ==> Located(w, Position(ev.initial.section, ev.from))
  }

  lemma SpawnUnderWay(w: World, e: Entry)
    requires WellFormed(w) && Located(w, Pos(e))
    ensures UnderWay(w, e)
  {
    assert SectionWellFormed(w, e.sim.section);
  }

  lemma ApplyUnderWay(f: Fleet, ev: Event)
    requires WellFormed(f.world) && AllUnderWay(f) && SpawnsAtSide(f.world, ev)
    ensures AllUnderWay(Apply(f, ev).result)
  {
    hide TickFrom, Remaining, IndexOf, SameLayout, UnderWay;
    ApplyLayout(f, ev);
    var g := Apply(f, ev).result;
    match ev {
      case TickTrains(motion) =>
        var all := TickFrom(f, 0, Motions(f, motion)).result;
        TickFromUnderWay(f, 0, Motions(f, motion));
        RemainingAmong(all.entries);
      case SpawnTrain(initial, from) =>
        SpawnUnderWay(f.world, Entry(initial, from, false));
        forall j | 0 <= j < |g.entries|
          ensures UnderWay(g.world, g.entries[j])
        {
          assert UnderWay(f.world, g.entries[j]);
          UnderWayIsLayout(f.world, g.world, g.entries[j]);
        }
      case _ =>
        forall j | 0 <= j < |g.entries|
          ensures UnderWay(g.world, g.entries[j])
        {
          assert g.entries[j] in f.entries;
          UnderWayIsLayout(f.world, g.world, g.entries[j]);
        }
    }
  }

  /** No train ever makes a U-turn: in every run over a well-formed layout whose trains spawn at a
      side of their section, with the switches set at will, every train of every reachable state
      came from a neighbour of its section and has the other neighbour ahead. */
  lemma {:induction false} RunUnderWay(f: Fleet, events: seq<Event>)
    requires WellFormed(f.world) && AllUnderWay(f)
    requires forall k :: 0 <= k < |events| ==> SpawnsAtSide(f.world, events[k])
    ensures AllUnderWay(Run(f, events).result)
    decreases |events|
  {
    hide Apply, WellFormed, AllUnderWay;
    if events != [] {
      var g := Apply(f, events[0]).result;
      ApplyUnderWay(f, events[0]);
      ApplyLayout(f, events[0]);
      WellFormedIsLayout(f.world, g.world);
      RunUnderWay(g, events[1..]);
    }
  }

  // ---- Leaving at the edge ------------------------------------------------------------------------------------

  /** The train has the edge of the world next to its section, and comes within a millimetre of it. */
  predicate AtEdge(w: World, e: Entry, m: Motion)
  {
    && e.sim.section in w.sections
    && var n := Ahead(w.sections[e.sim.section], e.from);
       && n != 0 && n !in w.sections && n !in w.switches
       && m.physics.position >= w.sections[e.sim.section].length - 0.001
  }

  /** A train leaves in a tick exactly at the edge of the world, and its section is then free; the PIP events
      of the tick say so, and say so only then. */
  lemma LeavesExactlyAtEdge(w: World, e: Entry, m: Motion)
    requires !e.gone
    ensures var t := TickOne(w, e, m);
            && (t.result.1.gone <==> AtEdge(w, e, m))
            && (t.result.1.gone ==> t.result.0.sections[e.sim.section].occupancy == Free && t.pips != [])
            && forall p :: p in t.pips ==> (p.edge <==> t.result.1.gone)
  {
    if e.sim.section in w.sections {
      var n := Ahead(w.sections[e.sim.section], e.from);
      EdgeOrNext(w, e.sim.section, e.from);
      assert ResolveNext(w, e.sim.section, e.from).boundary <==> n != 0 && n !in w.sections && n !in w.switches;
      hide ResolveNext;
    }
  }

  /** A tick reports damage to a switch exactly if the train crosses it by a leg that is not the set one. */
  lemma DamageReportedIff(w: World, e: Entry, m: Motion)
    requires !e.gone && e.sim.section in w.sections
    ensures var (t, s) := (TickOne(w, e, m), w.sections[e.sim.section]);
            var n := Ahead(s, e.from);
            var damaging :=
              && s.length > 0.0 && m.physics.position >= s.length
              && n != 0 && n !in w.sections && n in w.switches
              && var sw := w.switches[n];
                 && sw.position != Moving && sw.trunk != 0 && sw.trunk != e.sim.section
                 && ((sw.straight == e.sim.section && sw.position != Straight)
                     || (sw.divergent == e.sim.section && sw.position != Divergent));
            && (damaging ==> |t.changes| == 4 && t.changes[..2] == [SwitchControlChange(n, true), SwitchPositionChange(n, TrailedDamaged)])
            && (!damaging ==> forall c :: c in t.changes ==> c.OccupancyChange?)
  {
    hide Occupy;
    EdgeOrNext(w, e.sim.section, e.from);
  }

  // ---- Waiting for a switch -----------------------------------------------------------------------------------

  /** The train has a moving switch ahead. */
  predicate Held(w: World, e: Entry, sw: Uid)
  {
    && !e.gone && e.sim.section in w.sections && Ahead(w.sections[e.sim.section], e.from) == sw
    && sw != 0 && sw !in w.sections && sw in w.switches && w.switches[sw].position == Moving
  }

  lemma HeldIsLayout(v: World, w: World, e: Entry, sw: Uid)
    requires SameLayout(v, w) && v.switches == w.switches && Held(v, e, sw)
    ensures Held(w, e, sw)
  {
  }

  lemma TickOneSwitches(w: World, e: Entry, m: Motion)
    ensures TickOne(w, e, m).result.0.switches == w.switches
  {
    hide ResolveNext;
  }

  /** Whatever it does in a tick, it stays where it is. */
  lemma TickOneHeld(w: World, e: Entry, m: Motion, sw: Uid)
    requires Held(w, e, sw)
    ensures var r := TickOne(w, e, m).result; r.0 == w && Held(w, r.1, sw) && Pos(r.1) == Pos(e)
  {
    hide Occupy;
  }

  // ---- The edge of the world behind a switch --------------------------------------------------------------

  /** The node a train on `section` runs towards: the neighbour ahead, or what a switch ahead, at
      rest, leads to; 0 if the way is blocked. */
  function Beyond(w: World, section: Uid, from: Uid): Uid
    requires section in w.sections
  {
    var ahead := Ahead(w.sections[section], from);
    if ahead == 0 || ahead in w.sections || ahead !in w.switches then ahead
    else
      var exit := ThroughSwitch(w.switches[ahead], ahead, section).section;
      if exit.Some? then exit.value else 0
  }

  predicate Lost(w: World, e: Entry)
  {
    !e.gone && e.sim.section !in w.sections
  }

  /** A train that reaches the end of its section where the track ends ahead leaves the fleet in
      this tick exactly when the track ends next to its section; behind a switch it is lost. */
  lemma EdgeLeavesIff(w: World, e: Entry, m: Motion)
    requires !e.gone && e.sim.section in w.sections && ReachesEnd(m, w.sections[e.sim.section].length)
    requires var b := Beyond(w, e.sim.section, e.from); b != 0 && b !in w.sections
    ensures var r := TickOne(w, e, m).result;
            && (r.1.gone <==> Ahead(w.sections[e.sim.section], e.from) !in w.switches)
            && (Lost(r.0, r.1) <==> Ahead(w.sections[e.sim.section], e.from) in w.switches)
  {
    EdgeOrNext(w, e.sim.section, e.from);
    TickOneLayout(w, e, m);
  }

  /** A section that ends at the trunk of a switch, of which the straight leg leads to a boundary. */
  const EDGE_BEHIND_SWITCH :=
    World(map[1 := Section(0, 8, 50, 10.0, Occupied, 4)], map[50 := Switch(1, 77, 0, Straight)], {8, 77})

  /** A train that comes to its end is lost. */
  lemma LostBehindSwitch()
    ensures var (e, m) := (Entry(TrainAt(100, 1), 8, false), Motion(Physics(10.0, 0.0, 0.0, 0.0, 0.0), Stopped));
            var r := TickOne(EDGE_BEHIND_SWITCH, e, m).result;
            Lost(r.0, r.1) && 77 in EDGE_BEHIND_SWITCH.boundaries
  {
    var (e, m) := (Entry(TrainAt(100, 1), 8, false), Motion(Physics(10.0, 0.0, 0.0, 0.0, 0.0), Stopped));
    assert Beyond(EDGE_BEHIND_SWITCH, 1, 8) == 77;
    EdgeLeavesIff(EDGE_BEHIND_SWITCH, e, m);
  }

  lemma {:induction false} TickFromKeepsLost(f: Fleet, i: nat, motions: seq<Motion>, j: nat)
    requires |motions| == |f.entries| && j < |f.entries| && Lost(f.world, f.entries[j])
    ensures var after := TickFrom(f, i, motions).result.entries; |after| == |f.entries| && after[j] == f.entries[j]
    decreases |f.entries| - i
  {
    if i < |f.entries| {
      TickOneLayout(f.world, f.entries[i], motions[i]);
      TickFromKeepsLost(NextFleet(f, i, motions[i]), i + 1, motions, j);
    }
  }

  lemma {:induction false} InRemaining(entries: seq<Entry>, e: Entry)
    requires e in entries && !e.gone
    ensures e in Remaining(entries)
  {
    if entries[0] != e {
      InRemaining(entries[1..], e);
    }
  }

  lemma ApplyKeepsLost(f: Fleet, ev: Event, e: Entry)
    requires e in f.entries && Lost(f.world, e) && ev != DespawnTrain(e.sim.trainUid)
    ensures var g := Apply(f, ev).result; e in g.entries && Lost(g.world, e)
  {
    hide TickFrom, Remaining;
    ApplyLayout(f, ev);
    var j :| 0 <= j < |f.entries| && f.entries[j] == e;
    match ev {
      case TickTrains(motion) =>
        var all := TickFrom(f, 0, Motions(f, motion)).result.entries;
        TickFromKeepsLost(f, 0, Motions(f, motion), j);
        InRemaining(all, e);
      case DespawnTrain(train) =>
        var i := IndexOf(f.entries, train);
        if i < |f.entries| {
          assert j != i;
          var rest := f.entries[..i] + f.entries[i + 1..];
          assert rest[if j < i then j else j - 1] == e;
        }
      case SpawnTrain(initial, from) =>
        assert (f.entries + [Entry(initial, from, false)])[j] == e;
      case SetSwitch(uid, position) =>
    }
  }

  /** A lost train stays as it is, and in the fleet, in every run that does not despawn it. */
  lemma {:induction false} LostTrainStays(f: Fleet, events: seq<Event>, e: Entry)
    requires e in f.entries && Lost(f.world, e)
    requires forall k :: 0 <= k < |events| ==> events[k] != DespawnTrain(e.sim.trainUid)
    ensures e in Run(f, events).result.entries
    decreases |events|
  {
    hide Apply, Lost;
    if events != [] {
      ApplyKeepsLost(f, events[0], e);
      LostTrainStays(Apply(f, events[0]).result, events[1..], e);
    }
  }

  // ---- Distance -----------------------------------------------------------------------------------------------

  /** One tick of a journey: the track as the train finds it, and how it moves. */
  datatype Moment = Moment(world: World, motion: Motion)

  /** The journey of one train; it ends when the train leaves at the edge. */
  function Journey(e: Entry, moments: seq<Moment>): Entry
    decreases |moments|
  {
    if moments == [] || e.gone then e
    else Journey(TickOne(moments[0].world, e, moments[0].motion).result.1, moments[1..])
  }

  /** Metres the integrator added in one tick. */
  function Advance(e: Entry, t: Moment): real
  {
    if e.sim.section in t.world.sections then t.motion.physics.position - e.sim.physics.position else 0.0
  }

  /** The length of the section left in one tick, if one was. */
  function LeftBehind(e: Entry, t: Moment): real
  {
    if Entering(t.world, e, t.motion).Some? then t.world.sections[e.sim.section].length else 0.0
  }

  /** Metres a dead end took away in one tick. */
  function TakenAway(e: Entry, t: Moment): (d: real)
    ensures d >= 0.0
  {
    if e.sim.section in t.world.sections
    then Clamped(t.motion, t.world.sections[e.sim.section].length, ResolveNext(t.world, e.sim.section, e.from).section)
    else 0.0
  }

  function Total(e: Entry, moments: seq<Moment>, amount: (Entry, Moment) -> real): real
    decreases |moments|
  {
    if moments == [] || e.gone then 0.0
    else amount(e, moments[0])
         + Total(TickOne(moments[0].world, e, moments[0].motion).result.1, moments[1..], amount)
  }

  lemma DistanceOneTick(e: Entry, t: Moment)
    requires !e.gone
    ensures var e' := TickOne(t.world, e, t.motion).result.1;
            LeftBehind(e, t) + e'.sim.physics.position + TakenAway(e, t) == e.sim.physics.position + Advance(e, t)
  {
    hide ResolveNext, Occupy;
    EdgeOrNext(t.world, e.sim.section, e.from);
  }

  /** Distance is conserved: over any journey the lengths of the sections left, the position on
      the current one and what dead ends took away add up to the starting position and all the
      distance the integrator added, whatever the section lengths and the switches did. */
  lemma {:induction false} DistanceConserved(e: Entry, moments: seq<Moment>)
    ensures Total(e, moments, LeftBehind) + Journey(e, moments).sim.physics.position + Total(e, moments, TakenAway)
            == e.sim.physics.position + Total(e, moments, Advance)
    decreases |moments|
  {
    hide TickOne, LeftBehind, TakenAway, Advance;
    if moments != [] && !e.gone {
      DistanceOneTick(e, moments[0]);
      DistanceConserved(TickOne(moments[0].world, e, moments[0].motion).result.1, moments[1..]);
    }
  }

  // ---- Every train of a run makes a journey -------------------------------------------------------------------

  /** The track as the train at index j finds it in a tick that has come to index i. */
  function TrackFor(f: Fleet, i: nat, motions: seq<Motion>, j: nat): World
    requires |motions| == |f.entries| && i <= j < |f.entries|
    decreases j - i
  {
    if i == j then f.world else TrackFor(NextFleet(f, i, motions[i]), i + 1, motions, j)
  }

  lemma {:induction false} TickFromIsTickOne(f: Fleet, i: nat, motions: seq<Motion>, j: nat)
    requires |motions| == |f.entries| && j < |f.entries|
    ensures var after := TickFrom(f, i, motions).result.entries;
            && |after| == |f.entries|
            && after[j] == if j < i then f.entries[j]
                           else TickOne(TrackFor(f, i, motions, j), f.entries[j], motions[j]).result.1
    decreases |f.entries| - i
  {
    hide TickOne;
    if i < |f.entries| {
      TickFromIsTickOne(NextFleet(f, i, motions[i]), i + 1, motions, j);
    }
  }

  lemma {:induction false} RemainingAt(entries: seq<Entry>, j: nat)
    requires j < |entries| && !entries[j].gone
    ensures var at := |Remaining(entries[..j])|; at < |Remaining(entries)| && Remaining(entries)[at] == entries[j]
  {
    if j > 0 {
      RemainingAt(entries[1..], j - 1);
      assert entries[..j][1..] == entries[1..][..j - 1];
    } else {
      assert entries[..0] == [];
    }
  }

  /** The moment a step of a run is for the train at index j, if it is a tick. */
  function MomentsOf(f: Fleet, ev: Event, j: nat): seq<Moment>
    requires j < |f.entries|
  {
    if ev.TickTrains? then [Moment(TrackFor(f, 0, Motions(f, ev.motion), j), ev.motion(j))] else []
  }

  /** The index of that train after the step, unless it is despawned or leaves at the edge. */
  function IndexAfter(f: Fleet, ev: Event, j: nat): Option<nat>
    requires j < |f.entries|
  {
    match ev
    case SpawnTrain(_, _) => Some(j)
    case SetSwitch(_, _) => Some(j)
    case DespawnTrain(train) =>
      var i := IndexOf(f.entries, train);
      if j == i then None else if j < i then Some(j) else Some(j - 1)
    case TickTrains(motion) =>
      TickFromIsTickOne(f, 0, Motions(f, motion), j);
      var after := TickFrom(f, 0, Motions(f, motion)).result.entries;
      if after[j].gone then None else Some(|Remaining(after[..j])|)
  }

  lemma JourneyOfOne(e: Entry, t: Moment)
    requires !e.gone
    ensures Journey(e, [t]) == TickOne(t.world, e, t.motion).result.1
  {
    hide TickOne;
    assert [t][1..] == [];
  }

  /** In one step the train goes on by what its moment says. */
  lemma ApplyFollows(f: Fleet, ev: Event, j: nat)
    requires j < |f.entries| && !f.entries[j].gone
    ensures var (g, k, e) := (Apply(f, ev).result, IndexAfter(f, ev, j), Journey(f.entries[j], MomentsOf(f, ev, j)));
            && (k.Some? ==> k.value < |g.entries| && g.entries[k.value] == e && !e.gone)
            && (k.None? ==> e.gone || ev == DespawnTrain(f.entries[j].sim.trainUid))
  {
    hide TickOne, TickFrom, Remaining, TrackFor;
    match ev {
      case TickTrains(motion) =>
        var motions := Motions(f, motion);
        var after := TickFrom(f, 0, motions).result.entries;
        TickFromIsTickOne(f, 0, motions, j);
        var t := Moment(TrackFor(f, 0, motions, j), motions[j]);
        JourneyOfOne(f.entries[j], t);
        assert motions[j] == motion(j);
        assert MomentsOf(f, ev, j) == [Moment(TrackFor(f, 0, motions, j), motion(j))];
        assert Journey(f.entries[j], MomentsOf(f, ev, j)) == after[j];
        if !after[j].gone {
          RemainingAt(after, j);
        }
      case _ =>
    }
  }

  lemma {:induction false} JourneyGoesOn(e: Entry, a: seq<Moment>, b: seq<Moment>)
    ensures Journey(e, a + b) == Journey(Journey(e, a), b)
    decreases |a|
  {
    hide TickOne;
    if a == [] {
      assert a + b == b;
    } else if !e.gone {
      assert (a + b)[1..] == a[1..] + b;
      JourneyGoesOn(TickOne(a[0].world, e, a[0].motion).result.1, a[1..], b);
    }
  }

  /** A train of a run: the moments it lives through, and its index at the end if it is still there. */
  datatype Life = Life(moments: seq<Moment>, index: Option<nat>)

  function LifeOf(f: Fleet, events: seq<Event>, j: nat): Life
    requires j < |f.entries|
    decreases |events|
  {
    if events == [] then Life([], Some(j))
    else
      var (g, k) := (Apply(f, events[0]).result, IndexAfter(f, events[0], j));
      if k.None? || k.value >= |g.entries| then Life(MomentsOf(f, events[0], j), None)
      else
        var rest := LifeOf(g, events[1..], k.value);
        Life(MomentsOf(f, events[0], j) + rest.moments, rest.index)
  }

  lemma {:induction false} JourneyKeepsUid(e: Entry, moments: seq<Moment>)
    ensures Journey(e, moments).sim.trainUid == e.sim.trainUid
    decreases |moments|
  {
    if moments != [] && !e.gone {
      hide ResolveNext, Occupy;
      JourneyKeepsUid(TickOne(moments[0].world, e, moments[0].motion).result.1, moments[1..]);
    }
  }

  /** In every run, a train that is still there at the end is where its journey through the moments of the
      run has taken it; any other has left at the edge or been despawned. */
  lemma {:induction false} RunFollowsJourneys(f: Fleet, events: seq<Event>, j: nat)
    requires j < |f.entries| && !f.entries[j].gone
    ensures var (last, life) := (Run(f, events).result.entries, LifeOf(f, events, j));
            var e := Journey(f.entries[j], life.moments);
            && (life.index.Some? ==> life.index.value < |last| && last[life.index.value] == e)
            && (life.index.None? ==> e.gone || DespawnTrain(f.entries[j].sim.trainUid) in events)
    decreases |events|
  {
    hide Apply, MomentsOf, IndexAfter;
    if events != [] {
      var (g, k) := (Apply(f, events[0]).result, IndexAfter(f, events[0], j));
      ApplyFollows(f, events[0], j);
      if k.Some? {
        var first := MomentsOf(f, events[0], j);
        RunFollowsJourneys(g, events[1..], k.value);
        JourneyGoesOn(f.entries[j], first, LifeOf(g, events[1..], k.value).moments);
        JourneyKeepsUid(f.entries[j], first);
      }
    }
  }

  /** So distance is conserved for every train of every run that is still there at the end. */
  lemma RunConservesDistance(f: Fleet, events: seq<Event>, j: nat)
    requires j < |f.entries| && !f.entries[j].gone && LifeOf(f, events, j).index.Some?
    ensures var (e, moments, k) := (f.entries[j], LifeOf(f, events, j).moments, LifeOf(f, events, j).index.value);
            var last := Run(f, events).result.entries;
            && k < |last| && last[k].sim.trainUid == e.sim.trainUid
            && Total(e, moments, LeftBehind) + last[k].sim.physics.position + Total(e, moments, TakenAway)
               == e.sim.physics.position + Total(e, moments, Advance)
  {
    hide LifeOf, Run, Journey, Total;
    RunFollowsJourneys(f, events, j);
    JourneyKeepsUid(f.entries[j], LifeOf(f, events, j).moments);
    DistanceConserved(f.entries[j], LifeOf(f, events, j).moments);
  }

  // ---- How a train of a run leaves, or waits -------------------------------------------------------------------

  lemma {:induction false} TrackForLayout(f: Fleet, i: nat, motions: seq<Motion>, j: nat)
    requires |motions| == |f.entries| && i <= j < |f.entries|
    ensures SameLayout(f.world, TrackFor(f, i, motions, j)) && TrackFor(f, i, motions, j).switches == f.world.switches
    decreases j - i
  {
    hide TickOne;
    if i < j {
      TickOneLayout(f.world, f.entries[i], motions[i]);
      TickOneSwitches(f.world, f.entries[i], motions[i]);
      TrackForLayout(NextFleet(f, i, motions[i]), i + 1, motions, j);
    }
  }

  lemma {:induction false} TickFromSwitches(f: Fleet, i: nat, motions: seq<Motion>)
    requires |motions| == |f.entries|
    ensures TickFrom(f, i, motions).result.world.switches == f.world.switches
    decreases |f.entries| - i
  {
    hide TickOne;
    if i < |f.entries| {
      TickOneSwitches(f.world, f.entries[i], motions[i]);
      TickFromSwitches(NextFleet(f, i, motions[i]), i + 1, motions);
    }
  }

  lemma TickHeld(f: Fleet, motion: nat -> Motion, j: nat, sw: Uid)
    requires j < |f.entries| && Held(f.world, f.entries[j], sw)
    ensures var (g, k) := (Apply(f, TickTrains(motion)).result, IndexAfter(f, TickTrains(motion), j));
            && k.Some? && k.value < |g.entries|
            && Held(g.world, g.entries[k.value], sw) && Pos(g.entries[k.value]) == Pos(f.entries[j])
  {
    var motions := Motions(f, motion);
    var (track, all) := (TrackFor(f, 0, motions, j), TickFrom(f, 0, motions).result);
    TrackForLayout(f, 0, motions, j);
    HeldIsLayout(f.world, track, f.entries[j], sw);
    TickOneHeld(track, f.entries[j], motions[j], sw);
    TickFromIsTickOne(f, 0, motions, j);
    RemainingAt(all.entries, j);
    TickFromLayout(f, 0, motions);
    TickFromSwitches(f, 0, motions);
    hide TickOne, TickFrom, Remaining, TrackFor;
    HeldIsLayout(f.world, all.world, f.entries[j], sw);
  }

  lemma ApplyHeld(f: Fleet, ev: Event, j: nat, sw: Uid)
    requires j < |f.entries| && Held(f.world, f.entries[j], sw)
    requires !(ev.SetSwitch? && ev.uid == sw)
    ensures var (g, k) := (Apply(f, ev).result, IndexAfter(f, ev, j));
            && (k.None? ==> ev == DespawnTrain(f.entries[j].sim.trainUid))
            && (k.Some? ==> k.value < |g.entries|
                            && Held(g.world, g.entries[k.value], sw) && Pos(g.entries[k.value]) == Pos(f.entries[j])
                            && g.entries[k.value].sim.trainUid == f.entries[j].sim.trainUid)
  {
    ApplyFollows(f, ev, j);
    JourneyKeepsUid(f.entries[j], MomentsOf(f, ev, j));
    if ev.TickTrains? {
      TickHeld(f, ev.motion, j, sw);
    } else {
      ApplyLayout(f, ev);
    }
    hide Journey, MomentsOf, TickFrom, Remaining, TickOne, TrackFor;
  }

  /** A train with a moving switch ahead stays on its section, facing the same way, in every run in which that
      switch is not set, until it is despawned. */
  lemma {:induction false} HeldUntilSet(f: Fleet, events: seq<Event>, j: nat, sw: Uid)
    requires j < |f.entries| && Held(f.world, f.entries[j], sw)
    requires forall k :: 0 <= k < |events| ==> !(events[k].SetSwitch? && events[k].uid == sw)
    ensures var (life, last) := (LifeOf(f, events, j), Run(f, events).result.entries);
            && (life.index.None? ==> DespawnTrain(f.entries[j].sim.trainUid) in events)
            && (life.index.Some? ==> life.index.value < |last| && Pos(last[life.index.value]) == Pos(f.entries[j]))
    decreases |events|
  {
    hide Apply, MomentsOf, IndexAfter, Held;
    if events != [] {
      var (g, k) := (Apply(f, events[0]).result, IndexAfter(f, events[0], j));
      ApplyHeld(f, events[0], j, sw);
      if k.Some? {
        assert g.entries[k.value].sim.trainUid == f.entries[j].sim.trainUid;
        HeldUntilSet(g, events[1..], k.value, sw);
      }
    }
  }

  /** In a step the train leaves, other than by being despawned, exactly at the edge. */
  lemma ApplyLeaves(f: Fleet, ev: Event, j: nat)
    requires j < |f.entries| && !f.entries[j].gone
    requires IndexAfter(f, ev, j).None? && ev != DespawnTrain(f.entries[j].sim.trainUid)
    ensures var moments := MomentsOf(f, ev, j);
            |moments| == 1 && AtEdge(moments[0].world, f.entries[j], moments[0].motion)
  {
    hide TickOne, TickFrom, Remaining, TrackFor, AtEdge;
    ApplyFollows(f, ev, j);
    if ev.TickTrains? {
      var t := MomentsOf(f, ev, j)[0];
      LeavesExactlyAtEdge(t.world, f.entries[j], t.motion);
      JourneyOfOne(f.entries[j], t);
    }
  }

  lemma JourneyOfNone(e: Entry)
    ensures Journey(e, []) == e
  {
  }

  /** A train that leaves a run and is not despawned leaves at the edge: in its last tick it was on a section
      next to the edge, and came within a millimetre of its end. */
  lemma {:induction false} RunLeavesAtEdge(f: Fleet, events: seq<Event>, j: nat)
    requires j < |f.entries| && !f.entries[j].gone
    requires LifeOf(f, events, j).index.None? && DespawnTrain(f.entries[j].sim.trainUid) !in events
    ensures var moments := LifeOf(f, events, j).moments;
            && moments != []
            && var (before, t) := (Journey(f.entries[j], moments[..|moments| - 1]), moments[|moments| - 1]);
               !before.gone && AtEdge(t.world, before, t.motion)
    decreases |events|
  {
    hide Apply, MomentsOf, IndexAfter, AtEdge, Journey;
    if events != [] {
      var (g, k, first) := (Apply(f, events[0]).result, IndexAfter(f, events[0], j), MomentsOf(f, events[0], j));
      ApplyFollows(f, events[0], j);
      JourneyKeepsUid(f.entries[j], first);
      if k.None? {
        ApplyLeaves(f, events[0], j);
        JourneyOfNone(f.entries[j]);
        assert first[..0] == [];
      } else {
        RunLeavesAtEdge(g, events[1..], k.value);
        var rest := LifeOf(g, events[1..], k.value).moments;
        var all := first + rest;
        assert all[..|all| - 1] == first + rest[..|rest| - 1];
        JourneyGoesOn(f.entries[j], first, rest[..|rest| - 1]);
      }
    }
  }
}
