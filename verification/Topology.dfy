/** Track topology: sections and switches, and which section lies ahead of a train. */
module Topology {
  import opened Wrappers

  /** UID 0 means that nothing is connected. */
  type Uid = nat

  datatype Occupancy = Free | Occupied

  datatype SwitchPosition = Straight | Divergent | Moving | TrailedDamaged

  datatype Section = Section(station: Uid, sideA: Uid, sideB: Uid, length: real, occupancy: Occupancy, axles: int)

  datatype Switch = Switch(trunk: Uid, straight: Uid, divergent: Uid, position: SwitchPosition)

  datatype World = World(sections: map<Uid, Section>, switches: map<Uid, Switch>, boundaries: set<Uid>)

  /** What lies ahead: `section` is None for a blocked train and at the edge of the world. */
  datatype NextSection = NextSection(section: Option<Uid>, from: Uid, boundary: bool, trailed: Option<Uid>)

  const BLOCKED := NextSection(None, 0, false, None)
  const EDGE := NextSection(None, 0, true, None)

  /** The neighbour ahead of a train on `section` that came from `from`. */
  function Ahead(section: Section, from: Uid): Uid
  {
    if section.sideA == from then section.sideB else section.sideA
  }

  /** The leg a train entering by the trunk leaves by. */
  function SelectedLeg(sw: Switch): Uid
  {
    if sw.position == Straight then sw.straight else sw.divergent
  }

  function ThroughSwitch(sw: Switch, swUid: Uid, current: Uid): NextSection
  {
    if sw.position == Moving then BLOCKED
    else
      var exit := if sw.trunk == current then SelectedLeg(sw) else sw.trunk;
      var trailing := sw.trunk != current
                      && ((sw.straight == current && sw.position != Straight)
                          || (sw.divergent == current && sw.position != Divergent));
      if exit == 0 then BLOCKED
      else NextSection(Some(exit), swUid, false, if trailing then Some(swUid) else None)
  }

  function ResolveNext(w: World, current: Uid, from: Uid): NextSection
  {
    if current !in w.sections then BLOCKED
    else
      var next := Ahead(w.sections[current], from);
      if next == 0 then BLOCKED
      else if next in w.sections then NextSection(Some(next), current, false, None)
      else if next in w.switches then ThroughSwitch(w.switches[next], next, current)
      else EDGE
  }

  // ---- Where a step leads, by the fields alone ------------------------------------------------------

  /** A train runs towards the end that it did not come in by; one that came by neither runs towards side A. */
  lemma AheadIsOtherEnd(section: Section, from: Uid)
    ensures section.sideA == from ==> Ahead(section, from) == section.sideB
    ensures section.sideA != from ==> Ahead(section, from) == section.sideA
  {
  }

  /** Without a switch ahead: on to the next section; against a dead end; or to the edge, for any neighbour
      that is not known. */
  lemma WithoutSwitchAhead(w: World, current: Uid, from: Uid)
    requires current in w.sections
    requires var n := Ahead(w.sections[current], from); n == 0 || n in w.sections || n !in w.switches
    ensures var (n, next) := (Ahead(w.sections[current], from), ResolveNext(w, current, from));
            && (next.section == Some(n) <==> n != 0 && n in w.sections)
            && (next.section == None <==> n == 0 || n !in w.sections)
            && (next.boundary <==> n != 0 && n !in w.sections)
            && (next.section.Some? ==> next.from == current)
            && next.trailed == None
  {
  }

  /** With a switch ahead, in each of its positions: while it moves the train waits. Else, from the trunk, the
      way leads to the straight leg if the switch is set straight and to the divergent one if not, and from
      a leg it leads to the trunk, in any position. The switch is trailed exactly if the train comes by
      a leg that is not the set one. There is no way where the exit is not connected. */
  lemma ThroughSwitchAhead(w: World, current: Uid, from: Uid)
    requires current in w.sections
    requires var n := Ahead(w.sections[current], from); n != 0 && n !in w.sections && n in w.switches
    ensures var n := Ahead(w.sections[current], from);
            var (sw, next) := (w.switches[n], ResolveNext(w, current, from));
            && (next.section.Some? <==>
                  && sw.position != Moving
                  && (sw.trunk == current && sw.position == Straight ==> sw.straight != 0)
                  && (sw.trunk == current && sw.position != Straight ==> sw.divergent != 0)
                  && (sw.trunk != current ==> sw.trunk != 0))
            && (next.section.Some? && sw.trunk == current && sw.position == Straight ==> next.section.value == sw.straight)
            && (next.section.Some? && sw.trunk == current && sw.position != Straight ==> next.section.value == sw.divergent)
            && (next.section.Some? && sw.trunk != current ==> next.section.value == sw.trunk)
            && (next.section.Some? ==> next.from == n)
            && (next.trailed.Some? <==>
                  && next.section.Some? && sw.trunk != current
                  && ((sw.straight == current && sw.position != Straight) || (sw.divergent == current && sw.position != Divergent)))
            && (next.trailed.Some? ==> next.trailed.value == n)
            && !next.boundary
  {
  }

  // ---- Well-formed, symmetric topology --------------------------------------------------------

  predicate HasSide(s: Section, n: Uid)
  {
    s.sideA == n || s.sideB == n
  }

  predicate IsLeg(sw: Switch, n: Uid)
  {
    sw.trunk == n || sw.straight == n || sw.divergent == n
  }

  /** The two ends of a section lead to different neighbours, and every neighbouring section or
      switch leads back. */
  ghost predicate SectionWellFormed(w: World, uid: Uid)
    requires uid in w.sections
  {
    var s := w.sections[uid];
    && (s.sideA == s.sideB ==> s.sideA == 0)
    && (forall n :: HasSide(s, n) && n in w.sections ==> HasSide(w.sections[n], uid))
    && (forall n :: HasSide(s, n) && n in w.switches ==> IsLeg(w.switches[n], uid))
  }

  /** The legs of a switch are different; each is unconnected or leads to a section that leads back. */
  ghost predicate SwitchWellFormed(w: World, uid: Uid)
    requires uid in w.switches
  {
    var sw := w.switches[uid];
    && (forall n :: IsLeg(sw, n) && n != 0 ==> n in w.sections && HasSide(w.sections[n], uid))
    && (sw.trunk == sw.straight ==> sw.trunk == 0)
    && (sw.trunk == sw.divergent ==> sw.trunk == 0)
    && (sw.straight == sw.divergent ==> sw.straight == 0)
  }

  ghost predicate WellFormed(w: World)
  {
    && 0 !in w.sections && 0 !in w.switches && w.sections.Keys !! w.switches.Keys
    && (forall s :: s in w.sections ==> SectionWellFormed(w, s))
    && (forall s :: s in w.switches ==> SwitchWellFormed(w, s))
  }

  /** Where a train is and where it came from. */
  datatype Position = Position(section: Uid, from: Uid)

  /** The train came from a neighbour of its section. */
  predicate Located(w: World, p: Position)
  {
    p.section in w.sections && HasSide(w.sections[p.section], p.from)
  }

  function Turned(w: World, p: Position): Position
    requires p.section in w.sections
  {
    Position(p.section, Ahead(w.sections[p.section], p.from))
  }

  function Step(w: World, p: Position): Option<Position>
  {
    var next := ResolveNext(w, p.section, p.from);
    if next.section.Some? then Some(Position(next.section.value, next.from)) else None
  }

  /** The step ahead does not enter a switch by a leg that a train from the trunk would not take. */
  predicate OnSelectedLeg(w: World, p: Position)
    requires p.section in w.sections
  {
    var next := Ahead(w.sections[p.section], p.from);
    next in w.sections || next !in w.switches
    || w.switches[next].trunk == p.section || SelectedLeg(w.switches[next]) == p.section
  }

  // ---- One step ----------------------------------------------------------------------------------

  lemma TurnedTwice(w: World, p: Position)
    requires WellFormed(w) && Located(w, p)
    ensures Located(w, Turned(w, p)) && Turned(w, Turned(w, p)) == p
  {
    assert SectionWellFormed(w, p.section);
  }

  /** A train never turns back through the end it came in by: after a crossing it came from a
      neighbour of its new section, and the neighbour ahead is the one at the other end. */
  lemma StepStaysLocated(w: World, p: Position)
    requires WellFormed(w) && Located(w, p) && Step(w, p).Some?
    ensures var q := Step(w, p).value; Located(w, q) && (Ahead(w.sections[q.section], q.from) != q.from)
  {
    assert SectionWellFormed(w, p.section);
    var s := w.sections[p.section];
    var next := Ahead(s, p.from);
    assert HasSide(s, next);
    var q := Step(w, p).value;
    if next !in w.sections {
      assert SwitchWellFormed(w, next);
      assert IsLeg(w.switches[next], q.section);
    }
    assert SectionWellFormed(w, q.section);
  }

  /** Turning round after a step and stepping again leads back, exactly when the step did not
      enter a switch by a leg set against it. */
  lemma StepReversibleIff(w: World, p: Position)
    requires WellFormed(w) && Located(w, p) && Step(w, p).Some?
    ensures var q := Step(w, p).value;
            q.section in w.sections && (Step(w, Turned(w, q)) == Some(Turned(w, p)) <==> OnSelectedLeg(w, p))
  {
    assert SectionWellFormed(w, p.section);
    var s := w.sections[p.section];
    var next := Ahead(s, p.from);
    assert HasSide(s, next);
    var q := Step(w, p).value;
    StepStaysLocated(w, p);
    assert SectionWellFormed(w, q.section);
    assert Turned(w, q).from == Ahead(w.sections[q.section], q.from);
    assert Ahead(w.sections[q.section], Turned(w, q).from) == q.from;
    if next in w.sections {
      assert Step(w, Turned(w, q)) == Some(Position(p.section, q.section));
    } else {
      assert SwitchWellFormed(w, next);
      var sw := w.switches[next];
      assert IsLeg(sw, p.section);
      assert IsLeg(sw, q.section);
      var back := ThroughSwitch(sw, next, q.section);
      assert ResolveNext(w, q.section, Turned(w, q).from) == back;
    }
  }

  /** Where a switch rests at STRAIGHT or DIVERGENT, a leg set against the train is one it
      trails. */
  lemma TrailedIff(w: World, p: Position)
    requires WellFormed(w) && Located(w, p) && Step(w, p).Some?
    requires forall s :: s in w.switches ==> w.switches[s].position == Straight || w.switches[s].position == Divergent
    ensures OnSelectedLeg(w, p) <==> ResolveNext(w, p.section, p.from).trailed.None?
  {
    assert SectionWellFormed(w, p.section);
    var next := Ahead(w.sections[p.section], p.from);
    assert HasSide(w.sections[p.section], next);
    if next !in w.sections {
      assert SwitchWellFormed(w, next);
    }
  }

  // ---- Paths ----------------------------------------------------------------------------------------

  function Path(w: World, p: Position, n: nat): Option<Position>
    decreases n
  {
    if n == 0 then Some(p)
    else match Step(w, p)
      case None => None
      case Some(q) => Path(w, q, n - 1)
  }

  /** No step of the path is set against the train. */
  predicate Selected(w: World, p: Position, n: nat)
    decreases n
  {
    n == 0 || (p.section in w.sections && OnSelectedLeg(w, p)
               && Step(w, p).Some? && Selected(w, Step(w, p).value, n - 1))
  }

  lemma {:induction false} PathStaysLocated(w: World, p: Position, n: nat)
    requires WellFormed(w) && Located(w, p) && Path(w, p, n).Some?
    ensures Located(w, Path(w, p, n).value)
    decreases n
  {
    if n > 0 {
      StepStaysLocated(w, p);
      PathStaysLocated(w, Step(w, p).value, n - 1);
    }
  }

  lemma {:induction false} PathExtends(w: World, p: Position, n: nat)
    ensures Path(w, p, n + 1) == match Path(w, p, n) case None => None case Some(q) => Step(w, q)
    decreases n
  {
    if n > 0 && Step(w, p).Some? {
      PathExtends(w, Step(w, p).value, n - 1);
    }
  }

  /** Reversibility: following any path that trails no switch, turning round and following as
      many steps leads back to the start, turned round. */
  lemma {:induction false} PathReversible(w: World, p: Position, n: nat)
    requires WellFormed(w) && Located(w, p) && Path(w, p, n).Some? && Selected(w, p, n)
    ensures var q := Path(w, p, n).value;
            Located(w, q) && Path(w, Turned(w, q), n) == Some(Turned(w, p))
    decreases n
  {
    hide Step, OnSelectedLeg, WellFormed;
    PathStaysLocated(w, p, n);
    if n > 0 {
      var m := Step(w, p).value;
      StepStaysLocated(w, p);
      StepReversibleIff(w, p);
      PathReversible(w, m, n - 1);
      PathExtends(w, Turned(w, Path(w, p, n).value), n - 1);
    }
  }

  /** Two trains that follow n steps without trailing a switch and end in the same place, coming
      from the same side, started in the same place. */
  lemma PathInjective(w: World, p: Position, p': Position, n: nat)
    requires WellFormed(w) && Located(w, p) && Located(w, p')
    requires Selected(w, p, n) && Selected(w, p', n)
    requires Path(w, p, n).Some? && Path(w, p, n) == Path(w, p', n)
    ensures p == p'
  {
    hide Path, Selected, WellFormed;
    PathReversible(w, p, n);
    PathReversible(w, p', n);
    TurnedTwice(w, p);
    TurnedTwice(w, p');
  }
}
