/** Track layouts: their validation against the known infrastructure, and the render model built from them. */
module Layout {
  import opened Wrappers
  import opened PathAttachment

  datatype Spot = Spot(x: Number, y: Number)

  datatype Facing = TowardsA | TowardsB

  datatype Element =
    | Track(id: nat, path: seq<Spot>)
    | Switch(id: nat, trunk: Spot, straight: Spot, divergent: Spot)
    | Signal(id: nat, track: nat, attachment: Attachment, facing: Facing)

  datatype Label = Label(text: string, anchor: Spot)

  datatype TrackLayout = TrackLayout(schemaVersion: int, layoutId: string, stationSid: string,
                                     width: Number, height: Number, elements: seq<Element>, labels: seq<Label>)

  // ---- The engine, as catalog and as runtime state --------------------------------------------------

  datatype Occupancy = Free | Occupied
  datatype SwitchPosition = Straight | Divergent | Moving
  datatype Indication = Stop | Proceed

  datatype SwitchRecord = SwitchRecord(occupancy: Occupancy, position: SwitchPosition)
  datatype SignalRecord = SignalRecord(indication: Indication, governs: nat)

  /** The one source behind both views. */
  datatype Source = Source(tracks: map<nat, Occupancy>, switches: map<nat, SwitchRecord>, signals: map<nat, SignalRecord>)

  predicate SignalGoverns(source: Source, signal: nat, track: nat)
  {
    signal in source.signals && source.signals[signal].governs == track
  }

  // ---- Validation -----------------------------------------------------------------------------------

  datatype Rule = Lay001 | Lay002 | Lay003 | Lay101 | Lay102 | Lay103 | Lay104 | Lay201 | Lay202
                | Lay301 | Lay302 | Lay303 | Lay304 | Lay305 | Lay306 | Lay307 | Lay401

  datatype Diagnostic = Diagnostic(rule: Rule, id: Option<nat>)

  predicate IsFinite(spot: Spot) { spot.x.Finite? && spot.y.Finite? }

  predicate PositiveSize(n: Number) { n.Finite? && n.value > 0.0 }

  predicate InRange(n: Number) { n.Finite? && 0.0 <= n.value <= 1.0 }

  function Only(flag: bool, rule: Rule, id: Option<nat>): seq<Diagnostic>
  {
    if flag then [Diagnostic(rule, id)] else []
  }

  function HeaderDiagnoses(layout: TrackLayout): seq<Diagnostic>
  {
    Only(layout.schemaVersion != 1, Lay001, None)
    + Only(layout.layoutId == "" || layout.stationSid == "", Lay002, None)
    + Only(!PositiveSize(layout.width) || !PositiveSize(layout.height), Lay003, None)
  }

  function PathDiagnoses(path: seq<Spot>, id: nat): seq<Diagnostic>
  {
    if path == [] then []
    else PathDiagnoses(path[..|path| - 1], id) + Only(!IsFinite(path[|path| - 1]), Lay103, Some(id))
  }

  function TrackIds(elements: seq<Element>): set<nat>
  {
    set e | e in elements && e.Track? :: e.id
  }

  function TopologyIds(elements: seq<Element>): set<nat>
  {
    set e | e in elements && !e.Signal? :: e.id
  }

  function SignalIds(elements: seq<Element>): set<nat>
  {
    set e | e in elements && e.Signal? :: e.id
  }

  function ReferenceDiagnoses(source: Source, id: nat, track: nat): seq<Diagnostic>
  {
    Only(id !in source.signals, Lay301, Some(id))
    + (if track !in source.tracks then [Diagnostic(Lay302, Some(track))]
       else Only(id in source.signals && !SignalGoverns(source, id, track), Lay303, Some(id)))
  }

  function AttachmentDiagnoses(id: nat, attachment: Attachment): seq<Diagnostic>
  {
    Only(!InRange(attachment.offset), Lay304, Some(id)) + Only(!attachment.lateral.Finite?, Lay305, Some(id))
  }

  /** The diagnostics of an element, given the ids met before it and those of all tracks. */
  function Diagnoses(source: Source, e: Element, topology: set<nat>, signals: set<nat>, tracks: set<nat>): seq<Diagnostic>
  {
    match e
    case Track(id, path) =>
      Only(id !in source.tracks, Lay101, Some(id))
      + Only(|path| < 2, Lay102, Some(id))
      + PathDiagnoses(path, id)
      + Only(id in topology, Lay104, Some(id))
    case Switch(id, trunk, straight, divergent) =>
      Only(id !in source.switches, Lay201, Some(id))
      + Only(!IsFinite(trunk) || !IsFinite(straight) || !IsFinite(divergent), Lay202, Some(id))
      + Only(id in topology, Lay104, Some(id))
    case Signal(id, track, attachment, facing) =>
      ReferenceDiagnoses(source, id, track) + AttachmentDiagnoses(id, attachment)
      + Only(id in signals, Lay306, Some(id))
      + Only(track !in tracks, Lay307, Some(id))
  }

  function ElementDiagnoses(source: Source, elements: seq<Element>, n: nat): seq<Diagnostic>
    requires n <= |elements|
  {
    if n == 0 then []
    else
      ElementDiagnoses(source, elements, n - 1)
      + Diagnoses(source, elements[n - 1], TopologyIds(elements[..n - 1]), SignalIds(elements[..n - 1]), TrackIds(elements))
  }

  predicate GoodLabel(l: Label)
  {
    l.text != "" && IsFinite(l.anchor)
  }

  function LabelDiagnoses(labels: seq<Label>): seq<Diagnostic>
  {
    if labels == [] then []
    else LabelDiagnoses(labels[..|labels| - 1]) + Only(!GoodLabel(labels[|labels| - 1]), Lay401, None)
  }

  function AllDiagnoses(source: Source, layout: TrackLayout): seq<Diagnostic>
  {
    HeaderDiagnoses(layout) + ElementDiagnoses(source, layout.elements, |layout.elements|) + LabelDiagnoses(layout.labels)
  }

  // ---- What a layout without diagnostics is ---------------------------------------------------------

  predicate SoundElement(source: Source, e: Element)
  {
    match e
    case Track(id, path) => id in source.tracks && |path| >= 2 && forall k :: 0 <= k < |path| ==> IsFinite(path[k])
    case Switch(id, trunk, straight, divergent) =>
      id in source.switches && IsFinite(trunk) && IsFinite(straight) && IsFinite(divergent)
    case Signal(id, track, attachment, facing) =>
      SignalGoverns(source, id, track) && track in source.tracks && Usable(attachment)
  }

  /** Two elements must differ in id if both are signals or neither is. */
  predicate Apart(e: Element, f: Element)
  {
    e.Signal? == f.Signal? ==> e.id != f.id
  }

  ghost predicate SoundUpTo(source: Source, elements: seq<Element>, n: nat)
    requires n <= |elements|
  {
    && (forall i :: 0 <= i < n ==> SoundElement(source, elements[i]))
    && (forall i, j :: 0 <= i < j < n ==> Apart(elements[i], elements[j]))
    && (forall i :: 0 <= i < n && elements[i].Signal? ==> elements[i].track in TrackIds(elements))
  }

  ghost predicate Sound(source: Source, layout: TrackLayout)
  {
    && layout.schemaVersion == 1 && layout.layoutId != "" && layout.stationSid != ""
    && PositiveSize(layout.width) && PositiveSize(layout.height)
    && SoundUpTo(source, layout.elements, |layout.elements|)
    && (forall i :: 0 <= i < |layout.labels| ==> GoodLabel(layout.labels[i]))
  }

  lemma {:induction false} PathDiagnosesNone(path: seq<Spot>, id: nat)
    ensures PathDiagnoses(path, id) == [] <==> forall k :: 0 <= k < |path| ==> IsFinite(path[k])
  {
    if path != [] {
      var front := path[..|path| - 1];
      PathDiagnosesNone(front, id);
      assert forall k :: 0 <= k < |front| ==> front[k] == path[k];
      assert forall k :: 0 <= k < |path| ==> k == |front| || path[k] == front[k];
      hide IsFinite;
    }
  }

  lemma {:induction false} LabelDiagnosesNone(labels: seq<Label>)
    ensures LabelDiagnoses(labels) == [] <==> forall i :: 0 <= i < |labels| ==> GoodLabel(labels[i])
  {
    if labels != [] {
      var front := labels[..|labels| - 1];
      LabelDiagnosesNone(front);
      assert forall k :: 0 <= k < |front| ==> front[k] == labels[k];
      assert forall k :: 0 <= k < |labels| ==> k == |front| || labels[k] == front[k];
      hide GoodLabel;
    }
  }

  lemma DiagnosesNone(source: Source, elements: seq<Element>, n: nat)
    requires n < |elements|
    ensures var e := elements[n];
            Diagnoses(source, e, TopologyIds(elements[..n]), SignalIds(elements[..n]), TrackIds(elements)) == []
            <==> && SoundElement(source, e)
                 && (forall i :: 0 <= i < n ==> Apart(elements[i], e))
                 && (e.Signal? ==> e.track in TrackIds(elements))
  {
    var e := elements[n];
    if e.Track? {
      PathDiagnosesNone(e.path, e.id);
    }
    assert forall f :: f in elements[..n] <==> exists i :: 0 <= i < n && elements[i] == f;
    assert (forall i :: 0 <= i < n ==> Apart(elements[i], e))
           <==> e.id !in if e.Signal? then SignalIds(elements[..n]) else TopologyIds(elements[..n]);
    hide PathDiagnoses, TrackIds, TopologyIds, SignalIds, Apart;
  }

  lemma SoundNext(source: Source, elements: seq<Element>, n: nat)
    requires 0 < n <= |elements|
    ensures SoundUpTo(source, elements, n)
            <==> && SoundUpTo(source, elements, n - 1)
                 && SoundElement(source, elements[n - 1])
                 && (forall i :: 0 <= i < n - 1 ==> Apart(elements[i], elements[n - 1]))
                 && (elements[n - 1].Signal? ==> elements[n - 1].track in TrackIds(elements))
  {
    hide SoundElement, Apart, TrackIds;
  }

  lemma SoundAtFirst(source: Source, elements: seq<Element>)
    ensures SoundUpTo(source, elements, 0)
  {
    hide SoundElement, Apart, TrackIds;
  }

  lemma {:induction false} ElementDiagnosesNone(source: Source, elements: seq<Element>, n: nat)
    requires n <= |elements|
    ensures ElementDiagnoses(source, elements, n) == [] <==> SoundUpTo(source, elements, n)
  {
    hide Diagnoses, SoundElement, Apart, TrackIds, TopologyIds, SignalIds, SoundUpTo;
    if n == 0 {
      SoundAtFirst(source, elements);
    } else {
      ElementDiagnosesNone(source, elements, n - 1);
      DiagnosesNone(source, elements, n - 1);
      SoundNext(source, elements, n);
    }
  }

  /** The validator is silent exactly on sound layouts. */
  lemma SilentIffSound(source: Source, layout: TrackLayout)
    ensures AllDiagnoses(source, layout) == [] <==> Sound(source, layout)
  {
    ElementDiagnosesNone(source, layout.elements, |layout.elements|);
    LabelDiagnosesNone(layout.labels);
    hide ElementDiagnoses, LabelDiagnoses, SoundElement, Apart, TrackIds, GoodLabel;
  }

  // ---- Which rules are reported ---------------------------------------------------------------------

  /** Element i breaks a rule, and the report names this id. */
  ghost predicate Breaks(source: Source, elements: seq<Element>, i: nat, rule: Rule, id: nat)
  {
    && i < |elements|
    && var e := elements[i];
       match rule
       case Lay101 => e.Track? && e.id == id && id !in source.tracks
       case Lay102 => e.Track? && e.id == id && |e.path| < 2
       case Lay103 => e.Track? && e.id == id && exists k :: 0 <= k < |e.path| && !IsFinite(e.path[k])
       case Lay104 => !e.Signal? && e.id == id && exists j :: 0 <= j < i && !elements[j].Signal? && elements[j].id == id
       case Lay201 => e.Switch? && e.id == id && id !in source.switches
       case Lay202 => e.Switch? && e.id == id && !(IsFinite(e.trunk) && IsFinite(e.straight) && IsFinite(e.divergent))
       case Lay301 => e.Signal? && e.id == id && id !in source.signals
       case Lay302 => e.Signal? && e.track == id && id !in source.tracks
       case Lay303 => e.Signal? && e.id == id && id in source.signals && e.track in source.tracks && source.signals[id].governs != e.track
       case Lay304 => e.Signal? && e.id == id && !(e.attachment.offset.Finite? && 0.0 <= e.attachment.offset.value <= 1.0)
       case Lay305 => e.Signal? && e.id == id && e.attachment.lateral == NonFinite
       case Lay306 => e.Signal? && e.id == id && exists j :: 0 <= j < i && elements[j].Signal? && elements[j].id == id
       case Lay307 => e.Signal? && e.id == id && forall j :: 0 <= j < |elements| && elements[j].Track? ==> elements[j].id != e.track
       case _ => false
  }

  lemma {:induction false} PathReported(path: seq<Spot>, id: nat, d: Diagnostic)
    ensures d in PathDiagnoses(path, id) <==> d == Diagnostic(Lay103, Some(id)) && exists k :: 0 <= k < |path| && !IsFinite(path[k])
  {
    if path != [] {
      var front := path[..|path| - 1];
      PathReported(front, id, d);
      assert forall k :: 0 <= k < |path| ==> k == |front| || path[k] == front[k];
      assert forall k :: 0 <= k < |front| ==> front[k] == path[k];
      hide IsFinite;
    }
  }

  lemma MetAre(elements: seq<Element>, n: nat, id: nat)
    requires n <= |elements|
    ensures id in TopologyIds(elements[..n]) <==> exists j :: 0 <= j < n && !elements[j].Signal? && elements[j].id == id
    ensures id in SignalIds(elements[..n]) <==> exists j :: 0 <= j < n && elements[j].Signal? && elements[j].id == id
    ensures id in TrackIds(elements[..n]) <==> exists j :: 0 <= j < n && elements[j].Track? && elements[j].id == id
  {
    assert forall f :: f in elements[..n] <==> exists i :: 0 <= i < n && elements[i] == f;
  }

  lemma TrackReported(source: Source, elements: seq<Element>, i: nat, d: Diagnostic)
    requires i < |elements| && elements[i].Track?
    ensures d in Diagnoses(source, elements[i], TopologyIds(elements[..i]), SignalIds(elements[..i]), TrackIds(elements))
            <==> d.id.Some? && Breaks(source, elements, i, d.rule, d.id.value)
  {
    MetAre(elements, i, elements[i].id);
    PathReported(elements[i].path, elements[i].id, d);
    hide TopologyIds, SignalIds, TrackIds, PathDiagnoses, IsFinite;
  }

  lemma SwitchReported(source: Source, elements: seq<Element>, i: nat, d: Diagnostic)
    requires i < |elements| && elements[i].Switch?
    ensures d in Diagnoses(source, elements[i], TopologyIds(elements[..i]), SignalIds(elements[..i]), TrackIds(elements))
            <==> d.id.Some? && Breaks(source, elements, i, d.rule, d.id.value)
  {
    MetAre(elements, i, elements[i].id);
    hide TopologyIds, SignalIds, TrackIds, PathDiagnoses, IsFinite;
  }

  lemma ReferenceReported(source: Source, id: nat, track: nat, d: Diagnostic)
    ensures d in ReferenceDiagnoses(source, id, track) <==>
              || (d == Diagnostic(Lay301, Some(id)) && id !in source.signals)
              || (d == Diagnostic(Lay302, Some(track)) && track !in source.tracks)
              || (d == Diagnostic(Lay303, Some(id)) && id in source.signals && track in source.tracks
                  && source.signals[id].governs != track)
  {
  }

  lemma AttachmentReported(id: nat, a: Attachment, d: Diagnostic)
    ensures d in AttachmentDiagnoses(id, a) <==>
              || (d == Diagnostic(Lay304, Some(id)) && !(a.offset.Finite? && 0.0 <= a.offset.value <= 1.0))
              || (d == Diagnostic(Lay305, Some(id)) && a.lateral == NonFinite)
  {
  }

  /** The rules that a signal can break, one by one. */
  lemma SignalBreaks(source: Source, elements: seq<Element>, i: nat, d: Diagnostic)
    requires i < |elements| && elements[i].Signal?
    ensures var (e, id) := (elements[i], Some(elements[i].id));
            d.id.Some? && Breaks(source, elements, i, d.rule, d.id.value) <==>
              || d in ReferenceDiagnoses(source, e.id, e.track)
              || d in AttachmentDiagnoses(e.id, e.attachment)
              || (d == Diagnostic(Lay306, id) && e.id in SignalIds(elements[..i]))
              || (d == Diagnostic(Lay307, id) && e.track !in TrackIds(elements))
  {
    hide TopologyIds, SignalIds, TrackIds, IsFinite, ReferenceDiagnoses, AttachmentDiagnoses;
    var e := elements[i];
    ReferenceReported(source, e.id, e.track, d);
    AttachmentReported(e.id, e.attachment, d);
    if d.rule == Lay306 {
      MetAre(elements, i, e.id);
    } else if d.rule == Lay307 {
      MetAre(elements, |elements|, e.track);
      assert elements[..|elements|] == elements;
    }
  }

  lemma SignalReported(source: Source, elements: seq<Element>, i: nat, d: Diagnostic)
    requires i < |elements| && elements[i].Signal?
    ensures d in Diagnoses(source, elements[i], TopologyIds(elements[..i]), SignalIds(elements[..i]), TrackIds(elements))
            <==> d.id.Some? && Breaks(source, elements, i, d.rule, d.id.value)
  {
    SignalBreaks(source, elements, i, d);
    hide Breaks, TopologyIds, SignalIds, TrackIds, ReferenceDiagnoses, AttachmentDiagnoses;
  }

  lemma ElementReported(source: Source, elements: seq<Element>, i: nat, d: Diagnostic)
    requires i < |elements|
    ensures d in Diagnoses(source, elements[i], TopologyIds(elements[..i]), SignalIds(elements[..i]), TrackIds(elements))
            <==> d.id.Some? && Breaks(source, elements, i, d.rule, d.id.value)
  {
    hide Diagnoses, Breaks, TopologyIds, SignalIds, TrackIds;
    match elements[i] {
      case Track(_, _) => TrackReported(source, elements, i, d);
      case Switch(_, _, _, _) => SwitchReported(source, elements, i, d);
      case Signal(_, _, _, _) => SignalReported(source, elements, i, d);
    }
  }

  lemma {:induction false} ElementsReported(source: Source, elements: seq<Element>, n: nat, d: Diagnostic)
    requires n <= |elements|
    ensures d in ElementDiagnoses(source, elements, n) <==>
              d.id.Some? && exists i :: 0 <= i < n && Breaks(source, elements, i, d.rule, d.id.value)
  {
    hide Breaks, Diagnoses, TopologyIds, SignalIds, TrackIds;
    if n > 0 {
      ElementsReported(source, elements, n - 1, d);
      ElementReported(source, elements, n - 1, d);
    }
  }

  lemma {:induction false} LabelsReported(labels: seq<Label>, d: Diagnostic)
    ensures d in LabelDiagnoses(labels) <==>
              d == Diagnostic(Lay401, None) && exists k :: 0 <= k < |labels| && !(labels[k].text != "" && IsFinite(labels[k].anchor))
  {
    if labels != [] {
      var front := labels[..|labels| - 1];
      LabelsReported(front, d);
      assert forall k :: 0 <= k < |labels| ==> k == |front| || labels[k] == front[k];
      assert forall k :: 0 <= k < |front| ==> front[k] == labels[k];
      hide IsFinite;
    }
  }

  /** A diagnostic is in the list exactly if what it says is the case: about the header, about the labels, or
      about an element with the id it names. */
  lemma ReportedIff(source: Source, layout: TrackLayout, d: Diagnostic)
    ensures d in AllDiagnoses(source, layout) <==>
              || (d == Diagnostic(Lay001, None) && layout.schemaVersion != 1)
              || (d == Diagnostic(Lay002, None) && (layout.layoutId == "" || layout.stationSid == ""))
              || (d == Diagnostic(Lay003, None)
                  && !(layout.width.Finite? && layout.width.value > 0.0 && layout.height.Finite? && layout.height.value > 0.0))
              || (d.id.Some? && exists i :: 0 <= i < |layout.elements| && Breaks(source, layout.elements, i, d.rule, d.id.value))
              || (d == Diagnostic(Lay401, None)
                  && exists k :: 0 <= k < |layout.labels| && !(layout.labels[k].text != "" && IsFinite(layout.labels[k].anchor)))
  {
    ElementsReported(source, layout.elements, |layout.elements|, d);
    LabelsReported(layout.labels, d);
    hide ElementDiagnoses, LabelDiagnoses, Breaks, IsFinite;
  }

  // ---- Building -------------------------------------------------------------------------------------

  /** The path of a track: that of its first geometry. */
  function PathOf(elements: seq<Element>, n: nat, track: nat): Option<seq<Spot>>
    requires n <= |elements|
  {
    if n == 0 then None
    else
      var earlier := PathOf(elements, n - 1, track);
      if earlier.None? && elements[n - 1].Track? && elements[n - 1].id == track then Some(elements[n - 1].path)
      else earlier
  }

  predicate AllFinite(path: seq<Spot>)
  {
    forall k :: 0 <= k < |path| ==> IsFinite(path[k])
  }

  function Points(path: seq<Spot>): (points: Path)
    requires AllFinite(path)
    ensures |points| == |path|
  {
    seq(|path|, k requires 0 <= k < |path| && AllFinite(path) => Point(path[k].x.value, path[k].y.value))
  }

  /** What resolving gives on paths with infinite coordinates is not told here. */
  type Beyond = (seq<Spot>, Attachment) -> Resolution

  /** The attachment has a point on the path. */
  ghost predicate Placeable(hypot: Hypot, beyond: Beyond, path: seq<Spot>, a: Attachment)
  {
    if AllFinite(path) then |path| >= 2 && Usable(a) && Total(hypot, Points(path)) != 0.0
    else beyond(path, a).At?
  }

  ghost predicate Placed(hypot: Hypot, beyond: Beyond, path: seq<Spot>, a: Attachment, point: Point)
  {
    if AllFinite(path) then
      |path| >= 2 && Usable(a) && exists i, ratio :: Resolves(hypot, Points(path), a, i, ratio, point)
    else beyond(path, a) == At(point)
  }

  ghost predicate Buildable(hypot: Hypot, beyond: Beyond, source: Source, elements: seq<Element>, e: Element)
  {
    match e
    case Track(id, _) => id in source.tracks
    case Switch(id, _, _, _) => id in source.switches
    case Signal(id, track, attachment, _) =>
      var path := PathOf(elements, |elements|, track);
      id in source.signals && path.Some? && Placeable(hypot, beyond, path.value, attachment)
  }

  /** The path of a track is that of the first element that is this track. */
  lemma {:induction false} PathOfFirst(elements: seq<Element>, n: nat, track: nat)
    requires n <= |elements|
    ensures var path := PathOf(elements, n, track);
            if path.Some? then
              exists i :: 0 <= i < n && elements[i] == Track(track, path.value)
                          && forall j :: 0 <= j < i && elements[j].Track? ==> elements[j].id != track
            else forall i :: 0 <= i < n && elements[i].Track? ==> elements[i].id != track
  {
    if n > 0 {
      PathOfFirst(elements, n - 1, track);
      var path := PathOf(elements, n, track);
      if PathOf(elements, n - 1, track).None? && path.Some? {
        assert elements[n - 1] == Track(track, path.value);
      }
    }
  }

  lemma {:induction false} PathOfMember(elements: seq<Element>, n: nat, track: nat)
    requires n <= |elements|
    ensures var path := PathOf(elements, n, track);
            if path.Some? then Track(track, path.value) in elements[..n]
            else forall i :: 0 <= i < n && elements[i].Track? ==> elements[i].id != track
  {
    if n > 0 {
      PathOfMember(elements, n - 1, track);
      assert elements[..n] == elements[..n - 1] + [elements[n - 1]];
    }
  }

  /** A track of no length at all that a signal is attached to. */
  ghost predicate PointTrack(hypot: Hypot, elements: seq<Element>, e: Element)
  {
    && e.Signal?
    && var path := PathOf(elements, |elements|, e.track);
       path.Some? && AllFinite(path.value) && path.value != [] && Total(hypot, Points(path.value)) == 0.0
  }

  lemma SoundBuildsIff(hypot: Hypot, beyond: Beyond, source: Source, layout: TrackLayout, e: Element)
    requires Sound(source, layout) && e in layout.elements
    ensures Buildable(hypot, beyond, source, layout.elements, e) <==> !PointTrack(hypot, layout.elements, e)
  {
    var elements := layout.elements;
    assert SoundElement(source, e);
    if e.Signal? {
      assert e.track in TrackIds(elements);
      PathOfMember(elements, |elements|, e.track);
      assert elements[..|elements|] == elements;
      var path := PathOf(elements, |elements|, e.track);
      assert SoundElement(source, Track(e.track, path.value));
      hide PathOf, Sound;
    }
  }

  /** A layout that passes validation builds, unless a signal is attached to a track without length; such
      a track passes validation, and makes building fail. */
  lemma ValidBuildsIff(hypot: Hypot, beyond: Beyond, source: Source, layout: TrackLayout)
    requires AllDiagnoses(source, layout) == []
    ensures (forall e :: e in layout.elements ==> Buildable(hypot, beyond, source, layout.elements, e))
            <==> (forall e :: e in layout.elements ==> !PointTrack(hypot, layout.elements, e))
  {
    SilentIffSound(source, layout);
    hide AllDiagnoses;
    forall e | e in layout.elements
      ensures Buildable(hypot, beyond, source, layout.elements, e) <==> !PointTrack(hypot, layout.elements, e)
    {
      SoundBuildsIff(hypot, beyond, source, layout, e);
    }
    hide Sound, Buildable, PointTrack;
  }

  /** A layout of one track, whose two points coincide, and a signal on it. */
  function PointLayout(): TrackLayout
  {
    var origin := Spot(Finite(0.0), Finite(0.0));
    TrackLayout(1, "layout", "station", Finite(1.0), Finite(1.0),
                [Track(1, [origin, origin]), Signal(2, 1, Attachment(A, Finite(0.0), Finite(0.0)), TowardsA)], [])
  }

  lemma ZeroLength(hypot: Hypot, path: Path)
    requires Metric(hypot) && |path| == 2 && path[0] == path[1]
    ensures Total(hypot, path) == 0.0
  {
    SquareSign(hypot(0.0, 0.0));
    SquareSign(0.0);
    assert Square(hypot(0.0, 0.0)) == Square(0.0) + Square(0.0);
    hide Square;
    assert UpTo(hypot, path, 0) == 0.0;
    assert Total(hypot, path) == UpTo(hypot, path, 0) + Len(hypot, path, 0);
  }

  /** It passes validation and cannot be built. */
  lemma ValidButNotBuildable(hypot: Hypot, beyond: Beyond)
    requires Metric(hypot)
    ensures var source := Source(map[1 := Free], map[], map[2 := SignalRecord(Stop, 1)]);
            && AllDiagnoses(source, PointLayout()) == []
            && !Buildable(hypot, beyond, source, PointLayout().elements, PointLayout().elements[1])
  {
    var (source, layout) := (Source(map[1 := Free], map[], map[2 := SignalRecord(Stop, 1)]), PointLayout());
    var e := layout.elements[1];
    assert layout.elements[0].id in TrackIds(layout.elements);
    SilentIffSound(source, layout);
    var path := layout.elements[0].path;
    assert PathOf(layout.elements, 1, 1) == Some(path);
    assert PathOf(layout.elements, 2, 1) == Some(path);
    assert AllFinite(path);
    hide AllDiagnoses, Sound, PathOf;
    ZeroLength(hypot, Points(path));
  }

  // ---- What is rendered -----------------------------------------------------------------------------

  datatype RenderTrack = RenderTrack(id: nat, path: seq<Spot>, state: Occupancy)
  datatype RenderSwitch = RenderSwitch(id: nat, trunk: Spot, straight: Spot, divergent: Spot, state: SwitchRecord)
  datatype RenderSignal = RenderSignal(id: nat, position: Point, facing: Facing, indication: Indication)

  datatype RenderModel = RenderModel(width: Number, height: Number, tracks: seq<RenderTrack>,
                                     switches: seq<RenderSwitch>, signals: seq<RenderSignal>, labels: seq<Label>)

  datatype Kind = TrackKind | SwitchKind | SignalKind

  function KindOf(e: Element): Kind
  {
    match e case Track(_, _) => TrackKind case Switch(_, _, _, _) => SwitchKind case Signal(_, _, _, _) => SignalKind
  }

  /** How many of the first n elements are of a kind. */
  function Rank(elements: seq<Element>, n: nat, kind: Kind): (r: nat)
    requires n <= |elements|
    ensures r <= n
  {
    if n == 0 then 0 else Rank(elements, n - 1, kind) + if KindOf(elements[n - 1]) == kind then 1 else 0
  }

  /** The item of element i, at its rank among the elements of its kind. */
  ghost predicate ItemOf(hypot: Hypot, beyond: Beyond, source: Source, elements: seq<Element>, model: RenderModel, i: nat)
    requires i < |elements|
  {
    match elements[i]
    case Track(id, path) =>
      var k := Rank(elements, i, TrackKind);
      id in source.tracks && k < |model.tracks| && model.tracks[k] == RenderTrack(id, path, source.tracks[id])
    case Switch(id, trunk, straight, divergent) =>
      var k := Rank(elements, i, SwitchKind);
      id in source.switches && k < |model.switches|
      && model.switches[k] == RenderSwitch(id, trunk, straight, divergent, source.switches[id])
    case Signal(id, track, attachment, facing) =>
      var (k, path) := (Rank(elements, i, SignalKind), PathOf(elements, |elements|, track));
      id in source.signals && path.Some? && k < |model.signals|
      && model.signals[k] == RenderSignal(id, model.signals[k].position, facing, source.signals[id].indication)
      && Placed(hypot, beyond, path.value, attachment, model.signals[k].position)
  }

  /** One item for each of the first n elements and no more, in order within each kind. */
  ghost predicate Rendered(hypot: Hypot, beyond: Beyond, source: Source, elements: seq<Element>, model: RenderModel, n: nat)
    requires n <= |elements|
  {
    && |model.tracks| == Rank(elements, n, TrackKind)
    && |model.switches| == Rank(elements, n, SwitchKind)
    && |model.signals| == Rank(elements, n, SignalKind)
    && forall i :: 0 <= i < n ==> ItemOf(hypot, beyond, source, elements, model, i)
  }

  // ---- The code -------------------------------------------------------------------------------------

  method DiagnosePath(path: seq<Spot>, id: nat) returns (diagnostics: seq<Diagnostic>)
    ensures diagnostics == PathDiagnoses(path, id)
  {
    diagnostics := [];
    for k := 0 to |path|
      invariant diagnostics == PathDiagnoses(path[..k], id)
    {
      assert path[..k + 1][..k] == path[..k];
      if !IsFinite(path[k]) {
        diagnostics := diagnostics + [Diagnostic(Lay103, Some(id))];
      }
    }
    assert path[..|path|] == path;
  }

  method DiagnoseTrack(source: Source, id: nat, path: seq<Spot>, topology: set<nat>) returns (diagnostics: seq<Diagnostic>)
    ensures forall signals, tracks :: diagnostics == Diagnoses(source, Track(id, path), topology, signals, tracks)
  {
    diagnostics := [];
    if id !in source.tracks {
      diagnostics := diagnostics + [Diagnostic(Lay101, Some(id))];
    }
    if |path| < 2 {
      diagnostics := diagnostics + [Diagnostic(Lay102, Some(id))];
    }
    var points := DiagnosePath(path, id);
    diagnostics := diagnostics + points;
    if id in topology {
      diagnostics := diagnostics + [Diagnostic(Lay104, Some(id))];
    }
  }

  method DiagnoseSwitch(source: Source, e: Element, topology: set<nat>) returns (diagnostics: seq<Diagnostic>)
    requires e.Switch?
    ensures forall signals, tracks :: diagnostics == Diagnoses(source, e, topology, signals, tracks)
  {
    diagnostics := [];
    if e.id !in source.switches {
      diagnostics := diagnostics + [Diagnostic(Lay201, Some(e.id))];
    }
    if !IsFinite(e.trunk) || !IsFinite(e.straight) || !IsFinite(e.divergent) {
      diagnostics := diagnostics + [Diagnostic(Lay202, Some(e.id))];
    }
    if e.id in topology {
      diagnostics := diagnostics + [Diagnostic(Lay104, Some(e.id))];
    }
  }

  method DiagnoseReferences(source: Source, id: nat, track: nat) returns (diagnostics: seq<Diagnostic>)
    ensures diagnostics == ReferenceDiagnoses(source, id, track)
  {
    diagnostics := [];
    if id !in source.signals {
      diagnostics := diagnostics + [Diagnostic(Lay301, Some(id))];
    }
    if track !in source.tracks {
      diagnostics := diagnostics + [Diagnostic(Lay302, Some(track))];
    } else if id in source.signals && !SignalGoverns(source, id, track) {
      diagnostics := diagnostics + [Diagnostic(Lay303, Some(id))];
    }
  }

  method DiagnoseAttachment(id: nat, attachment: Attachment) returns (diagnostics: seq<Diagnostic>)
    ensures diagnostics == AttachmentDiagnoses(id, attachment)
  {
    diagnostics := [];
    if !attachment.offset.Finite? || attachment.offset.value < 0.0 || attachment.offset.value > 1.0 {
      diagnostics := diagnostics + [Diagnostic(Lay304, Some(id))];
    }
    if !attachment.lateral.Finite? {
      diagnostics := diagnostics + [Diagnostic(Lay305, Some(id))];
    }
  }

  method DiagnoseSignal(source: Source, e: Element, signals: set<nat>, tracks: set<nat>) returns (diagnostics: seq<Diagnostic>)
    requires e.Signal?
    ensures forall topology :: diagnostics == Diagnoses(source, e, topology, signals, tracks)
  {
    hide ReferenceDiagnoses, AttachmentDiagnoses;
    diagnostics := DiagnoseReferences(source, e.id, e.track);
    var more := DiagnoseAttachment(e.id, e.attachment);
    diagnostics := diagnostics + more;
    if e.id in signals {
      diagnostics := diagnostics + [Diagnostic(Lay306, Some(e.id))];
    }
    if e.track !in tracks {
      diagnostics := diagnostics + [Diagnostic(Lay307, Some(e.id))];
    }
  }

  method DiagnoseElement(source: Source, e: Element, topology: set<nat>, signals: set<nat>, tracks: set<nat>)
    returns (diagnostics: seq<Diagnostic>)
    ensures diagnostics == Diagnoses(source, e, topology, signals, tracks)
  {
    hide Diagnoses;
    match e {
      case Track(id, path) => diagnostics := DiagnoseTrack(source, id, path, topology);
      case Switch(_, _, _, _) => diagnostics := DiagnoseSwitch(source, e, topology);
      case Signal(_, _, _, _) => diagnostics := DiagnoseSignal(source, e, signals, tracks);
    }
  }

  method CollectTracks(elements: seq<Element>) returns (tracks: set<nat>)
    ensures tracks == TrackIds(elements)
  {
    tracks := {};
    for i := 0 to |elements|
      invariant tracks == TrackIds(elements[..i])
    {
      assert elements[..i + 1] == elements[..i] + [elements[i]];
      if elements[i].Track? {
        tracks := tracks + {elements[i].id};
      }
    }
    assert elements[..|elements|] == elements;
  }

  /** One element more among those already met. */
  lemma MetNext(elements: seq<Element>, i: nat)
    requires i < |elements|
    ensures var (e, met, met') := (elements[i], elements[..i], elements[..i + 1]);
            && TopologyIds(met') == TopologyIds(met) + (if e.Signal? then {} else {e.id})
            && SignalIds(met') == SignalIds(met) + (if e.Signal? then {e.id} else {})
  {
    assert elements[..i + 1] == elements[..i] + [elements[i]];
  }

  method DiagnoseElements(source: Source, elements: seq<Element>) returns (diagnostics: seq<Diagnostic>)
    ensures diagnostics == ElementDiagnoses(source, elements, |elements|)
  {
    var tracks := CollectTracks(elements);
    diagnostics := [];
    var topology: set<nat> := {};
    var signals: set<nat> := {};
    assert TopologyIds(elements[..0]) == {} && SignalIds(elements[..0]) == {};
    hide Diagnoses, TrackIds, TopologyIds, SignalIds;
    for i := 0 to |elements|
      invariant topology == TopologyIds(elements[..i]) && signals == SignalIds(elements[..i])
      invariant diagnostics == ElementDiagnoses(source, elements, i)
    {
      var e := elements[i];
      var more := DiagnoseElement(source, e, topology, signals, tracks);
      MetNext(elements, i);
      if e.Signal? {
        signals := signals + {e.id};
      } else {
        topology := topology + {e.id};
      }
      diagnostics := diagnostics + more;
    }
  }

  method DiagnoseHeader(layout: TrackLayout) returns (diagnostics: seq<Diagnostic>)
    ensures diagnostics == HeaderDiagnoses(layout)
  {
    diagnostics := [];
    if layout.schemaVersion != 1 {
      diagnostics := diagnostics + [Diagnostic(Lay001, None)];
    }
    if layout.layoutId == "" || layout.stationSid == "" {
      diagnostics := diagnostics + [Diagnostic(Lay002, None)];
    }
    if !PositiveSize(layout.width) || !PositiveSize(layout.height) {
      diagnostics := diagnostics + [Diagnostic(Lay003, None)];
    }
  }

  method DiagnoseLabels(labels: seq<Label>) returns (diagnostics: seq<Diagnostic>)
    ensures diagnostics == LabelDiagnoses(labels)
  {
    diagnostics := [];
    for i := 0 to |labels|
      invariant diagnostics == LabelDiagnoses(labels[..i])
    {
      assert labels[..i + 1][..i] == labels[..i];
      if labels[i].text == "" || !IsFinite(labels[i].anchor) {
        diagnostics := diagnostics + [Diagnostic(Lay401, None)];
      }
    }
    assert labels[..|labels|] == labels;
  }

  /** Silent exactly on sound layouts. */
  method Validate(source: Source, layout: TrackLayout) returns (diagnostics: seq<Diagnostic>)
    ensures diagnostics == AllDiagnoses(source, layout)
    ensures diagnostics == [] <==> Sound(source, layout)
  {
    SilentIffSound(source, layout);
    hide Sound, HeaderDiagnoses, ElementDiagnoses, LabelDiagnoses;
    diagnostics := DiagnoseHeader(layout);
    var more := DiagnoseElements(source, layout.elements);
    diagnostics := diagnostics + more;
    more := DiagnoseLabels(layout.labels);
    diagnostics := diagnostics + more;
  }

  /** One item more, of one kind. */
  ghost predicate Longer(model: RenderModel, longer: RenderModel, kind: Kind)
  {
    && longer.width == model.width && longer.height == model.height && longer.labels == model.labels
    && model.tracks <= longer.tracks && |longer.tracks| == |model.tracks| + (if kind == TrackKind then 1 else 0)
    && model.switches <= longer.switches && |longer.switches| == |model.switches| + (if kind == SwitchKind then 1 else 0)
    && model.signals <= longer.signals && |longer.signals| == |model.signals| + (if kind == SignalKind then 1 else 0)
  }

  lemma ItemsKept(hypot: Hypot, beyond: Beyond, source: Source, elements: seq<Element>, model: RenderModel,
                  longer: RenderModel, i: nat)
    requires i < |elements| && Rendered(hypot, beyond, source, elements, model, i)
    requires Longer(model, longer, KindOf(elements[i])) && ItemOf(hypot, beyond, source, elements, longer, i)
    ensures Rendered(hypot, beyond, source, elements, longer, i + 1)
  {
    hide Placed, PathOf;
    forall k | 0 <= k < i
      ensures ItemOf(hypot, beyond, source, elements, longer, k)
    {
      assert ItemOf(hypot, beyond, source, elements, model, k);
    }
    hide ItemOf;
  }

  class RenderModelBuilder {
    const hypot: Hypot
    const beyond: Beyond

    constructor (hypot: Hypot, beyond: Beyond)
      ensures this.hypot == hypot && this.beyond == beyond
    {
      this.hypot := hypot;
      this.beyond := beyond;
    }

    method TrackPaths(elements: seq<Element>) returns (paths: map<nat, seq<Spot>>)
      ensures forall t :: t in paths <==> PathOf(elements, |elements|, t).Some?
      ensures forall t :: t in paths ==> PathOf(elements, |elements|, t) == Some(paths[t])
    {
      paths := map[];
      for i := 0 to |elements|
        invariant forall t :: t in paths <==> PathOf(elements, i, t).Some?
        invariant forall t :: t in paths ==> PathOf(elements, i, t) == Some(paths[t])
      {
        if elements[i].Track? && elements[i].id !in paths {
          paths := paths[elements[i].id := elements[i].path];
        }
      }
    }

    method Place(path: seq<Spot>, attachment: Attachment) returns (resolution: Resolution)
      requires Metric(hypot)
      ensures resolution.At? <==> Placeable(hypot, beyond, path, attachment)
      ensures resolution.At? ==> Placed(hypot, beyond, path, attachment, resolution.point)
    {
      hide Resolves, Metric, Points;
      if AllFinite(path) {
        ghost var segment, part;
        resolution, segment, part := Resolve(hypot, Points(path), attachment);
      } else {
        resolution := beyond(path, attachment);
      }
    }

    /** The model with one more item, or a failure if the element cannot be built. */
    method RenderElement(source: Source, elements: seq<Element>, paths: map<nat, seq<Spot>>, model: RenderModel, i: nat)
      returns (r: Result<RenderModel>)
      requires Metric(hypot) && i < |elements|
      requires forall t :: t in paths <==> PathOf(elements, |elements|, t).Some?
      requires forall t :: t in paths ==> PathOf(elements, |elements|, t) == Some(paths[t])
      requires Rendered(hypot, beyond, source, elements, model, i)
      ensures r.Success? <==> Buildable(hypot, beyond, source, elements, elements[i])
      ensures r.Success? ==> Longer(model, r.value, KindOf(elements[i]))
                             && ItemOf(hypot, beyond, source, elements, r.value, i)
    {
      hide Metric, PathOf, Placed, Placeable;
      var e := elements[i];
      match e {
        case Track(id, path) =>
          if id !in source.tracks {
            return Failure("missing track state");
          }
          r := Success(model.(tracks := model.tracks + [RenderTrack(id, path, source.tracks[id])]));
        case Switch(id, trunk, straight, divergent) =>
          if id !in source.switches {
            return Failure("missing switch state");
          }
          r := Success(model.(switches := model.switches + [RenderSwitch(id, trunk, straight, divergent, source.switches[id])]));
        case Signal(id, track, attachment, facing) =>
          if id !in source.signals {
            return Failure("missing signal state");
          }
          if track !in paths {
            return Failure("signal track geometry is missing");
          }
          var resolution := Place(paths[track], attachment);
          if !resolution.At? {
            return Failure("attachment has no position");
          }
          r := Success(model.(signals := model.signals + [RenderSignal(id, resolution.point, facing, source.signals[id].indication)]));
      }
    }

    /** A model of exactly one item per element, in order within each kind; or a failure, exactly if some
        element cannot be built. */
    method Build(source: Source, layout: TrackLayout) returns (r: Result<RenderModel>)
      requires Metric(hypot)
      ensures r.Success? <==> forall e :: e in layout.elements ==> Buildable(hypot, beyond, source, layout.elements, e)
      ensures r.Success? ==>
                && Rendered(hypot, beyond, source, layout.elements, r.value, |layout.elements|)
                && r.value.width == layout.width && r.value.height == layout.height && r.value.labels == layout.labels
    {
      hide Buildable, ItemOf, Metric;
      var elements := layout.elements;
      var paths := TrackPaths(elements);
      var model := RenderModel(layout.width, layout.height, [], [], [], layout.labels);
      for i := 0 to |elements|
        invariant Rendered(hypot, beyond, source, elements, model, i)
        invariant model.width == layout.width && model.height == layout.height && model.labels == layout.labels
        invariant forall k :: 0 <= k < i ==> Buildable(hypot, beyond, source, elements, elements[k])
      {
        var next := RenderElement(source, elements, paths, model, i);
        if next.Failure? {
          return next;
        }
        ItemsKept(hypot, beyond, source, elements, model, next.value, i);
        model := next.value;
      }
      r := Success(model);
    }
  }
}
