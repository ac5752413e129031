/** Finding the section behind a boundary node, where a train can be spawned. */
module SpawnResolver {
  import opened Wrappers
  import opened Topology
  import TrainSim
  import TrainFleet
  import OccupancyRuns
  import Journeys

  datatype Resolution =
    | SpawnPoint(section: Uid, from: Uid)
    | UnknownBoundary
    | NoAdjacentSection
    | Ambiguous
    | SectionOccupied

  /** The sections with an end at this node. */
  function Adjacent(w: World, node: Uid): set<Uid>
  {
    set s | s in w.sections && HasSide(w.sections[s], node)
  }

  /** What a resolution says about the track. */
  predicate Explains(w: World, boundary: Uid, r: Resolution)
  {
    match r
    case UnknownBoundary => boundary !in w.boundaries
    case NoAdjacentSection => boundary in w.boundaries && Adjacent(w, boundary) == {}
    case Ambiguous => boundary in w.boundaries && |Adjacent(w, boundary)| > 1
    case SectionOccupied =>
      boundary in w.boundaries
      && exists s :: s in w.sections && Adjacent(w, boundary) == {s} && w.sections[s].occupancy != Free
    case SpawnPoint(section, from) =>
      boundary in w.boundaries && from == boundary
      && section in w.sections && Adjacent(w, boundary) == {section} && w.sections[section].occupancy == Free
  }

  /** The track determines the resolution. */
  lemma ExplanationUnique(w: World, boundary: Uid, r: Resolution, r': Resolution)
    requires Explains(w, boundary, r) && Explains(w, boundary, r')
    ensures r == r'
  {
    var adjacent := Adjacent(w, boundary);
    forall s, t | adjacent == {s} && adjacent == {t}
      ensures s == t
    {
      assert s in {t};
    }
  }

  lemma SingletonOf(s: set<Uid>, x: Uid)
    requires x in s && |s| == 1
    ensures s == {x}
  {
    assert |s - {x}| == 0;
  }

  lemma Larger(s: set<Uid>, t: set<Uid>)
    requires s <= t
    ensures |s| <= |t|
  {
    assert t == s + (t - s);
  }

  lemma OneOrTwo(s: set<Uid>)
    ensures |s| > 1 <==> exists x, y :: x in s && y in s && x != y
    ensures |s| == 1 <==> exists x :: s == {x}
  {
    if s != {} {
      var x :| x in s;
      assert s == {x} + (s - {x});
      if s - {x} != {} {
        var y :| y in s - {x};
        assert |{x, y}| == 2 && {x, y} <= s;
        Larger({x, y}, s);
      }
    }
  }

  /** The resolution, by the sections that have an end at the boundary. */
  lemma ResolvedIff(w: World, boundary: Uid, r: Resolution)
    requires Explains(w, boundary, r)
    ensures r == UnknownBoundary <==> boundary !in w.boundaries
    ensures r == NoAdjacentSection <==>
              boundary in w.boundaries
              && forall s :: s in w.sections ==> w.sections[s].sideA != boundary && w.sections[s].sideB != boundary
    ensures r == Ambiguous <==>
              boundary in w.boundaries
              && exists s, t :: s in w.sections && t in w.sections && s != t
                                && HasSide(w.sections[s], boundary) && HasSide(w.sections[t], boundary)
    ensures r == SectionOccupied ==>
              exists s :: s in w.sections && HasSide(w.sections[s], boundary) && w.sections[s].occupancy == Occupied
    ensures r.SpawnPoint? ==>
              && r.from == boundary && r.section in w.sections && w.sections[r.section].occupancy == Free
              && (w.sections[r.section].sideA == boundary || w.sections[r.section].sideB == boundary)
  {
    var adjacent := Adjacent(w, boundary);
    OneOrTwo(adjacent);
    assert forall s :: s in adjacent <==> s in w.sections && HasSide(w.sections[s], boundary);
    hide Adjacent;
  }

  method ResolveSpawnAtBoundary(state: TrainFleet.EngineState, boundary: Uid) returns (r: Resolution)
    ensures Explains(state.View(), boundary, r)
  {
    if boundary !in state.boundaries {
      return UnknownBoundary;
    }
    var adjacent: Uid := 0;
    var matches := 0;
    var todo := state.sections.Keys;
    ghost var found: set<Uid> := {};
    while todo != {}
      invariant todo <= state.sections.Keys
      invariant found == set s | s in state.sections && s !in todo && HasSide(state.sections[s], boundary)
      invariant matches == |found| && (matches > 0 ==> adjacent in found)
      decreases todo
    {
      var s :| s in todo;
      todo := todo - {s};
      if HasSide(state.sections[s], boundary) {
        found := found + {s};
        adjacent := s;
        matches := matches + 1;
      }
    }
    assert found == Adjacent(state.View(), boundary);
    if matches == 0 {
      return NoAdjacentSection;
    }
    if matches > 1 {
      return Ambiguous;
    }
    assert found == {adjacent} by { SingletonOf(found, adjacent); }
    if state.sections[adjacent].occupancy != Free {
      return SectionOccupied;
    }
    return SpawnPoint(adjacent, boundary);
  }

  /** A train spawned where the resolver says, on the track it looked at, is accepted, stands at a
      side of its section, and heads away from the boundary. */
  lemma ResolvedSpawn(f: TrainFleet.Fleet, boundary: Uid, r: Resolution, initial: TrainSim.SimState)
    requires WellFormed(f.world) && Explains(f.world, boundary, r) && r.SpawnPoint?
    requires initial.section == r.section && boundary != 0
    ensures TrainFleet.SpawnRefusal(f.world, initial.section).None?
    ensures Journeys.SpawnsAtSide(f.world, OccupancyRuns.SpawnTrain(initial, r.from))
    ensures Ahead(f.world.sections[initial.section], r.from) != boundary
  {
    assert r.section in Adjacent(f.world, boundary);
    assert SectionWellFormed(f.world, r.section);
  }
}
