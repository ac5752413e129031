/** The dispatch bus: every state change of the engine becomes a frame for the clients and a row of the
    journal, the latter read back from the bytes of the former. */
module EventBus {
  import opened Wrappers
  import Sequences
  import opened Words
  import opened Frame
  import Session
  import opened Snapshot

  type long = bv64

  const DOMAIN_EVENT: byte := 0x20
  const PREFIX_SIZE := 13

  /** A change of a kind that has an event type, with its serialised body; or of a kind that has none. */
  datatype Change =
    | Mapped(eventType: byte, objectUid: Option<nat>, body: seq<byte>)
    | Unmapped

  /** The prefix of an event, and the body behind it. */
  datatype Event = Event(eventType: byte, eventId: word, timestamp: long, body: seq<byte>)

  datatype Row = Row(event: Event, objectUid: Option<nat>)

  // ---- Numbers of 64 bits ---------------------------------------------------------------------------

  function LongByte0(t: long): byte { (t & 0xFF) as byte }
  function LongByte1(t: long): byte { ((t >> 8) & 0xFF) as byte }
  function LongByte2(t: long): byte { ((t >> 16) & 0xFF) as byte }
  function LongByte3(t: long): byte { ((t >> 24) & 0xFF) as byte }
  function LongByte4(t: long): byte { ((t >> 32) & 0xFF) as byte }
  function LongByte5(t: long): byte { ((t >> 40) & 0xFF) as byte }
  function LongByte6(t: long): byte { ((t >> 48) & 0xFF) as byte }
  function LongByte7(t: long): byte { ((t >> 56) & 0xFF) as byte }

  function LongBytes(t: long): (s: seq<byte>)
    ensures |s| == 8
  {
    [LongByte0(t), LongByte1(t), LongByte2(t), LongByte3(t), LongByte4(t), LongByte5(t), LongByte6(t), LongByte7(t)]
  }

  function LongOf(b0: byte, b1: byte, b2: byte, b3: byte, b4: byte, b5: byte, b6: byte, b7: byte): long
  {
    (b0 as long) | ((b1 as long) << 8) | ((b2 as long) << 16) | ((b3 as long) << 24)
    | ((b4 as long) << 32) | ((b5 as long) << 40) | ((b6 as long) << 48) | ((b7 as long) << 56)
  }

  /** The little-endian number of eight bytes stored at a place. */
  function LongAt(s: seq<byte>, at: nat): long
    requires at + 8 <= |s|
  {
    LongOf(s[at], s[at + 1], s[at + 2], s[at + 3], s[at + 4], s[at + 5], s[at + 6], s[at + 7])
  }

  lemma LongOfBytes(t: long)
    ensures LongOf(LongByte0(t), LongByte1(t), LongByte2(t), LongByte3(t), LongByte4(t), LongByte5(t), LongByte6(t), LongByte7(t)) == t
  {
  }

  lemma LongAtLe(s: seq<byte>, at: nat, t: long)
    requires at + 8 <= |s| && s[at..at + 8] == LongBytes(t)
    ensures LongAt(s, at) == t
  {
    LongOfBytes(t);
    hide LongOf, LongByte0, LongByte1, LongByte2, LongByte3, LongByte4, LongByte5, LongByte6, LongByte7;
    var b := s[at..at + 8];
    assert s[at] == b[0] && s[at + 1] == b[1] && s[at + 2] == b[2] && s[at + 3] == b[3];
    assert s[at + 4] == b[4] && s[at + 5] == b[5] && s[at + 6] == b[6] && s[at + 7] == b[7];
  }

  // ---- Events and their frames ----------------------------------------------------------------------

  function Prefix(eventType: byte, eventId: word, timestamp: long): (p: seq<byte>)
    ensures |p| == PREFIX_SIZE
  {
    [eventType] + LeBytes(eventId) + LongBytes(timestamp)
  }

  function Payload(e: Event): (p: seq<byte>)
    ensures |p| == PREFIX_SIZE + |e.body|
  {
    Prefix(e.eventType, e.eventId, e.timestamp) + e.body
  }

  function FrameOf(e: Event, seqId: word): DecodedFrame
  {
    DecodedFrame(DOMAIN_EVENT, 0, seqId, Payload(e))
  }

  /** An event as it stands in some bytes from a given place on. */
  function EventAt(s: seq<byte>, at: nat): Event
    requires at + PREFIX_SIZE <= |s|
  {
    Event(s[at], WordAt(s, at + 1), LongAt(s, at + 5), s[at + PREFIX_SIZE..])
  }

  lemma EventAtPayload(e: Event, before: seq<byte>)
    ensures EventAt(before + Payload(e), |before|) == e
  {
    hide LongBytes, LongAt, LeBytes, WordAt;
    var (s, at) := (before + Payload(e), |before|);
    assert s[at + 1..at + 5] == LeBytes(e.eventId);
    assert s[at + 5..at + 13] == LongBytes(e.timestamp);
    WordAtLe(s, at + 1, e.eventId);
    LongAtLe(s, at + 5, e.timestamp);
    assert s[at + PREFIX_SIZE..] == e.body;
  }

  /** The fixed offsets at which the journal reads a frame back are those of the event in it. */
  lemma FrameReadBack(e: Event, seqId: word)
    requires Encodable(FrameOf(e, seqId))
    ensures EventAt(Wire(FrameOf(e, seqId)), HEADER_SIZE) == e
  {
    var f := FrameOf(e, seqId);
    var header := Prologue(f) + LeBytes(FrameCrc(Prologue(f), f.payload));
    EventAtPayload(e, header);
    hide EventAt, Payload, Prologue, FrameCrc, LeBytes;
    assert Wire(f) == header + Payload(e);
  }

  // ---- A run of the bus -----------------------------------------------------------------------------

  datatype Bus = Bus(nextEventId: word, txSeq: word)

  function BusAfter(b: Bus, change: Change): Bus
  {
    Bus(b.nextEventId + 1, if change.Mapped? then b.txSeq + 1 else b.txSeq)
  }

  function EventFor(b: Bus, change: Change, timestamp: long): Event
    requires change.Mapped?
  {
    Event(change.eventType, b.nextEventId, timestamp, change.body)
  }

  function BusAfterAll(b: Bus, changes: seq<Change>): Bus
    decreases changes
  {
    if changes == [] then b else BusAfterAll(BusAfter(b, changes[0]), changes[1..])
  }

  /** The frames broadcast for a list of changes. */
  function Broadcast(b: Bus, changes: seq<Change>, timestamp: long): seq<DecodedFrame>
    decreases changes
  {
    if changes == [] then []
    else
      (if changes[0].Mapped? then [FrameOf(EventFor(b, changes[0], timestamp), b.txSeq)] else [])
      + Broadcast(BusAfter(b, changes[0]), changes[1..], timestamp)
  }

  /** The rows written for a list of changes: one for each with a body. */
  function Journal(b: Bus, changes: seq<Change>, timestamp: long): seq<Row>
    decreases changes
  {
    if changes == [] then []
    else
      (if changes[0].Mapped? && changes[0].body != []
       then [Row(EventFor(b, changes[0], timestamp), changes[0].objectUid)] else [])
      + Journal(BusAfter(b, changes[0]), changes[1..], timestamp)
  }

  predicate AllBodied(changes: seq<Change>)
  {
    forall c :: c in changes && c.Mapped? ==> 0 < |c.body| < SIZE_LIMIT - HEADER_SIZE - PREFIX_SIZE
  }

  /** What a client makes of the frames it has received. */
  function EventsIn(frames: seq<DecodedFrame>): seq<Event>
  {
    if frames == [] then []
    else (if |frames[0].payload| >= PREFIX_SIZE then [EventAt(frames[0].payload, 0)] else []) + EventsIn(frames[1..])
  }

  function EventsOf(rows: seq<Row>): seq<Event>
  {
    if rows == [] then [] else [rows[0].event] + EventsOf(rows[1..])
  }

  lemma NoEvents()
    ensures EventsIn([]) == [] && EventsOf([]) == []
  {
  }

  lemma OneEvent(e: Event, seqId: word, frames: seq<DecodedFrame>, row: Row, rows: seq<Row>)
    ensures EventsIn([FrameOf(e, seqId)] + frames) == [e] + EventsIn(frames)
    ensures EventsOf([row] + rows) == [row.event] + EventsOf(rows)
  {
    EventAtPayload(e, []);
    hide EventAt, Payload;
    assert [] + Payload(e) == Payload(e) && |Payload(e)| == PREFIX_SIZE + |e.body|;
    assert ([FrameOf(e, seqId)] + frames)[1..] == frames && ([row] + rows)[1..] == rows;
  }

  lemma {:induction false} BroadcastIsJournal(b: Bus, changes: seq<Change>, timestamp: long)
    requires AllBodied(changes)
    ensures var frames := Broadcast(b, changes, timestamp);
            && AllEncodable(frames)
            && |frames| == |Journal(b, changes, timestamp)|
            && EventsIn(frames) == EventsOf(Journal(b, changes, timestamp))
    decreases changes
  {
    hide EventAt, Payload, EventsIn, EventsOf;
    if changes == [] {
      NoEvents();
    } else {
      var (c, rest) := (changes[0], changes[1..]);
      assert forall d :: d in rest ==> d in changes;
      assert c in changes;
      BroadcastIsJournal(BusAfter(b, c), rest, timestamp);
      var (frames, rows) := (Broadcast(BusAfter(b, c), rest, timestamp), Journal(BusAfter(b, c), rest, timestamp));
      if c.Mapped? {
        var (e, row) := (EventFor(b, c, timestamp), Row(EventFor(b, c, timestamp), c.objectUid));
        assert Broadcast(b, changes, timestamp) == [FrameOf(e, b.txSeq)] + frames;
        assert Journal(b, changes, timestamp) == [row] + rows;
        OneEvent(e, b.txSeq, frames, row, rows);
      } else {
        assert Broadcast(b, changes, timestamp) == frames && Journal(b, changes, timestamp) == rows;
      }
    }
  }

  lemma {:induction false} EventsCounted(frames: seq<DecodedFrame>, rows: seq<Row>)
    ensures |EventsIn(frames)| <= |frames| && |EventsOf(rows)| == |rows|
  {
    if frames != [] {
      EventsCounted(frames[1..], rows);
    } else if rows != [] {
      EventsCounted(frames, rows[1..]);
    }
  }

  /** In whatever pieces the broadcast arrives, a client reads from it exactly the events of the journal,
      if and only if no event is too long for a frame. */
  lemma ClientsReadTheJournalIff(b: Bus, changes: seq<Change>, timestamp: long, arrived: seq<seq<byte>>)
    requires AllBodied(changes) && AllEncodable(Broadcast(b, changes, timestamp))
    requires Session.Flatten(arrived) == Session.Flatten(Wires(Broadcast(b, changes, timestamp)))
    ensures EventsIn(Received(arrived)) == EventsOf(Journal(b, changes, timestamp))
            <==> forall f :: f in Broadcast(b, changes, timestamp) ==> Deliverable(f)
  {
    var (frames, rows) := (Broadcast(b, changes, timestamp), Journal(b, changes, timestamp));
    BroadcastIsJournal(b, changes, timestamp);
    ReceivedUntilOversized(frames, arrived);
    NoneOversizedIff(frames);
    EventsCounted(UntilOversized(frames), rows);
    hide EventsIn, EventsOf, UntilOversized, Deliverable, Received, Wires, Session.Flatten, Broadcast, Journal;
  }

  // ---- The numbers of events and frames --------------------------------------------------------------

  function Shifted(idx: seq<nat>): (r: seq<nat>)
    ensures |r| == |idx| && forall k :: 0 <= k < |r| ==> r[k] == idx[k] + 1
  {
    seq(|idx|, k requires 0 <= k < |idx| => idx[k] + 1)
  }

  /** The indices of the changes that leave a row in the journal. */
  function RowIndices(changes: seq<Change>): seq<nat>
  {
    if changes == [] then []
    else (if changes[0].Mapped? && changes[0].body != [] then [0] else []) + Shifted(RowIndices(changes[1..]))
  }

  predicate Ascending(idx: seq<nat>, limit: nat)
  {
    && (forall k :: 0 <= k < |idx| ==> idx[k] < limit)
    && (forall k, l :: 0 <= k < l < |idx| ==> idx[k] < idx[l])
  }

  lemma AscendOn(idx: seq<nat>, limit: nat)
    requires Ascending(idx, limit)
    ensures Ascending(Shifted(idx), limit + 1) && Ascending([0] + Shifted(idx), limit + 1)
  {
    hide Shifted;
    var all := [0] + Shifted(idx);
    forall k, l | 0 <= k < l < |all|
      ensures all[k] < all[l] < limit + 1
    {
      assert all[l] == idx[l - 1] + 1;
      if k > 0 {
        assert all[k] == idx[k - 1] + 1;
      }
    }
  }

  lemma NothingAscends()
    ensures Ascending([], 0)
  {
  }

  lemma {:induction false} RowIndicesAscend(changes: seq<Change>)
    ensures Ascending(RowIndices(changes), |changes|)
  {
    hide Ascending, Shifted;
    if changes != [] {
      var tail := RowIndices(changes[1..]);
      RowIndicesAscend(changes[1..]);
      AscendOn(tail, |changes| - 1);
      assert [] + Shifted(tail) == Shifted(tail);
    } else {
      NothingAscends();
    }
  }

  /** A row tells of a change, and carries the number of it. */
  ghost predicate Numbered(b: Bus, change: Change, n: nat, timestamp: long, row: Row)
  {
    && change.Mapped? && change.body != []
    && row.event.eventType == change.eventType && row.event.body == change.body && row.event.timestamp == timestamp
    && row.objectUid == change.objectUid
    && WordValue(row.event.eventId) == Later(b.nextEventId, n)
  }

  /** Each row tells of the change with the same place in the list of indices. */
  ghost predicate AllNumbered(b: Bus, changes: seq<Change>, timestamp: long, idx: seq<nat>, rows: seq<Row>)
  {
    |idx| == |rows| && forall k :: 0 <= k < |rows| ==> idx[k] < |changes| && Numbered(b, changes[idx[k]], idx[k], timestamp, rows[k])
  }

  lemma NumberedNext(b: Bus, b': Bus, change: Change, n: nat, timestamp: long, row: Row)
    requires b'.nextEventId == b.nextEventId + 1 && Numbered(b', change, n, timestamp, row)
    ensures Numbered(b, change, n + 1, timestamp, row)
  {
    hide Later, WordValue;
    LaterNext(b.nextEventId, n);
  }

  lemma FirstNumbered(b: Bus, change: Change, timestamp: long)
    requires change.Mapped? && change.body != []
    ensures Numbered(b, change, 0, timestamp, Row(EventFor(b, change, timestamp), change.objectUid))
  {
    hide WordValue, Later;
    LaterNext(b.nextEventId, 0);
  }

  lemma AllNumberedNext(b: Bus, b': Bus, changes: seq<Change>, timestamp: long, idx: seq<nat>, rows: seq<Row>)
    requires changes != [] && b'.nextEventId == b.nextEventId + 1
    requires AllNumbered(b', changes[1..], timestamp, idx, rows)
    ensures AllNumbered(b, changes, timestamp, Shifted(idx), rows)
  {
    hide Numbered, Shifted;
    forall k | 0 <= k < |rows|
      ensures idx[k] + 1 < |changes| && Numbered(b, changes[idx[k] + 1], idx[k] + 1, timestamp, rows[k])
    {
      assert changes[1..][idx[k]] == changes[idx[k] + 1];
      NumberedNext(b, b', changes[1..][idx[k]], idx[k], timestamp, rows[k]);
    }
  }

  lemma AllNumberedFirst(b: Bus, changes: seq<Change>, timestamp: long, idx: seq<nat>, rows: seq<Row>)
    requires changes != [] && changes[0].Mapped? && changes[0].body != [] && AllNumbered(b, changes, timestamp, idx, rows)
    ensures AllNumbered(b, changes, timestamp, [0] + idx, [Row(EventFor(b, changes[0], timestamp), changes[0].objectUid)] + rows)
  {
    hide Numbered;
    FirstNumbered(b, changes[0], timestamp);
    var (idx', rows') := ([0] + idx, [Row(EventFor(b, changes[0], timestamp), changes[0].objectUid)] + rows);
    forall k | 0 < k < |rows'|
      ensures idx'[k] < |changes| && Numbered(b, changes[idx'[k]], idx'[k], timestamp, rows'[k])
    {
      assert idx'[k] == idx[k - 1] && rows'[k] == rows[k - 1];
    }
  }

  lemma NothingNumbered(b: Bus, timestamp: long)
    ensures AllNumbered(b, [], timestamp, [], [])
  {
  }

  /** Rows and changes: one row for each change with a type and a body, in order. Each row carries the number
      of its change, counted from the first event id: so the ids of a run increase by one for each change,
      framed or not, and differ until 2^32 of them have been used. */
  lemma {:induction false} RowsAreNumbered(b: Bus, changes: seq<Change>, timestamp: long)
    ensures AllNumbered(b, changes, timestamp, RowIndices(changes), Journal(b, changes, timestamp))
    ensures Ascending(RowIndices(changes), |changes|)
    decreases changes
  {
    RowIndicesAscend(changes);
    hide AllNumbered, Shifted, Ascending;
    if changes == [] {
      NothingNumbered(b, timestamp);
    } else {
      var b' := BusAfter(b, changes[0]);
      var (idx, rows) := (RowIndices(changes[1..]), Journal(b', changes[1..], timestamp));
      RowsAreNumbered(b', changes[1..], timestamp);
      AllNumberedNext(b, b', changes, timestamp, idx, rows);
      if changes[0].Mapped? && changes[0].body != [] {
        AllNumberedFirst(b, changes, timestamp, Shifted(idx), rows);
      } else {
        assert [] + Shifted(idx) == Shifted(idx) && [] + rows == rows;
      }
    }
  }

  /** Domain events without flags, numbered from `start` on without a gap. */
  ghost predicate Consecutive(frames: seq<DecodedFrame>, start: word)
  {
    forall k :: 0 <= k < |frames| ==>
      frames[k].msgType == 0x20 && frames[k].flags == 0 && WordValue(frames[k].seqId) == Later(start, k)
  }

  lemma ConsecutiveOn(f: DecodedFrame, frames: seq<DecodedFrame>, next: word)
    requires f.msgType == 0x20 && f.flags == 0 && next == f.seqId + 1 && Consecutive(frames, next)
    ensures Consecutive([f] + frames, f.seqId)
  {
    hide Later, WordValue;
    LaterFrom(f.seqId, next);
    var all := [f] + frames;
    forall k | 0 < k < |all|
      ensures all[k].msgType == 0x20 && all[k].flags == 0 && WordValue(all[k].seqId) == Later(f.seqId, k)
    {
      assert all[k] == frames[k - 1];
    }
  }

  /** The frames on the wire are numbered without a gap. */
  lemma {:induction false} FramesAreNumbered(b: Bus, changes: seq<Change>, timestamp: long)
    ensures Consecutive(Broadcast(b, changes, timestamp), b.txSeq)
    decreases changes
  {
    hide Later, WordValue, Payload;
    if changes != [] {
      var b' := BusAfter(b, changes[0]);
      var tail := Broadcast(b', changes[1..], timestamp);
      FramesAreNumbered(b', changes[1..], timestamp);
      hide Consecutive;
      if changes[0].Mapped? {
        ConsecutiveOn(FrameOf(EventFor(b, changes[0], timestamp), b.txSeq), tail, b'.txSeq);
      } else {
        assert Broadcast(b, changes, timestamp) == [] + tail == tail;
      }
    }
  }

  lemma LongHalves(s: seq<byte>, at: nat)
    requires at + 8 <= |s|
    ensures LongAt(s, at) == (WordAt(s, at) as long) | ((WordAt(s, at + 4) as long) << 32)
  {
  }

  lemma TypeOnTheWire(f: DecodedFrame)
    requires Encodable(f)
    ensures Wire(f)[2] == f.msgType && Wire(f)[3] == f.flags
  {
    HeaderOnTheWire(f);
  }

  /** An event on the wire, behind the header: its type, its id and its time, both with their least significant
      bytes first, and its body. */
  lemma EventOnTheWire(e: Event, seqId: word)
    requires Encodable(FrameOf(e, seqId))
    ensures var w := Wire(FrameOf(e, seqId));
            && |w| == 29 + |e.body| && w[2] == 0x20 && w[3] == 0 && w[16] == e.eventType
            && Positional(w[17], w[18], w[19], w[20]) == WordValue(e.eventId)
            && (WordAt(w, 21) as long) | ((WordAt(w, 25) as long) << 32) == e.timestamp
            && w[29..] == e.body
  {
    hide Wire, WordAt, LongAt, WordValue, Positional, Payload;
    var f := FrameOf(e, seqId);
    var w := Wire(f);
    FrameReadBack(e, seqId);
    TypeOnTheWire(f);
    WordAtValue(w, 17);
    LongHalves(w, 21);
    assert |Payload(e)| == 13 + |e.body|;
  }

  // ---- The code -------------------------------------------------------------------------------------

  predicate AllFit(changes: seq<Change>)
  {
    forall i :: 0 <= i < |changes| && changes[i].Mapped? ==> |changes[i].body| < SIZE_LIMIT - HEADER_SIZE - PREFIX_SIZE
  }

  function BytesFor(b: Bus, change: Change, timestamp: long): seq<seq<byte>>
    requires change.Mapped? ==> |change.body| < SIZE_LIMIT - HEADER_SIZE - PREFIX_SIZE
  {
    if change.Mapped? then [Wire(FrameOf(EventFor(b, change, timestamp), b.txSeq))] else []
  }

  function RowsFor(b: Bus, change: Change, timestamp: long): seq<Row>
  {
    if change.Mapped? && change.body != [] then [Row(EventFor(b, change, timestamp), change.objectUid)] else []
  }

  lemma {:induction false} BroadcastEncodable(b: Bus, changes: seq<Change>, timestamp: long)
    requires AllFit(changes)
    ensures AllEncodable(Broadcast(b, changes, timestamp))
    decreases changes
  {
    if changes != [] {
      BroadcastEncodable(BusAfter(b, changes[0]), changes[1..], timestamp);
    }
  }

  lemma WiresNext(f: DecodedFrame, rest: seq<DecodedFrame>)
    requires Encodable(f) && AllEncodable(rest)
    ensures AllEncodable([f] + rest) && Wires([f] + rest) == [Wire(f)] + Wires(rest)
  {
    hide Wire, Encodable;
    assert ([f] + rest)[1..] == rest;
  }

  lemma OneChange(b: Bus, changes: seq<Change>, timestamp: long)
    requires changes != [] && AllFit(changes)
    ensures var (c, next, rest) := (changes[0], BusAfter(b, changes[0]), changes[1..]);
            && BusAfterAll(b, changes) == BusAfterAll(next, rest)
            && Journal(b, changes, timestamp) == RowsFor(b, c, timestamp) + Journal(next, rest, timestamp)
            && AllEncodable(Broadcast(b, changes, timestamp)) && AllEncodable(Broadcast(next, rest, timestamp))
            && Wires(Broadcast(b, changes, timestamp)) == BytesFor(b, c, timestamp) + Wires(Broadcast(next, rest, timestamp))
  {
    var (c, next, rest) := (changes[0], BusAfter(b, changes[0]), changes[1..]);
    BroadcastEncodable(b, changes, timestamp);
    BroadcastEncodable(next, rest, timestamp);
    var frames := Broadcast(next, rest, timestamp);
    hide Wire, Payload, Wires;
    if c.Mapped? {
      var f := FrameOf(EventFor(b, c, timestamp), b.txSeq);
      assert Broadcast(b, changes, timestamp) == [f] + frames;
      WiresNext(f, frames);
    } else {
      assert Broadcast(b, changes, timestamp) == [] + frames == frames;
    }
  }

  class DispatchBus {
    var nextEventId: word
    var txSeq: word
    var sent: seq<seq<byte>>
    var events: seq<Row>

    function View(): Bus
      reads this
    {
      Bus(nextEventId, txSeq)
    }

    constructor ()
      ensures View() == Bus(1, 0) && sent == [] && events == []
    {
      nextEventId, txSeq := 1, 0;
      sent, events := [], [];
    }

    method PutBytes(a: array<byte>, at: nat, bytes: seq<byte>)
      requires at + |bytes| <= a.Length
      modifies a
      ensures a[..] == old(a[..at]) + bytes + old(a[at + |bytes|..])
    {
      for i := 0 to |bytes|
        invariant a[..] == old(a[..at]) + bytes[..i] + old(a[at + i..])
      {
        a[at + i] := bytes[i];
        assert bytes[..i + 1] == bytes[..i] + [bytes[i]];
      }
      assert bytes[..|bytes|] == bytes;
    }

    method BuildEventPrefix(eventType: byte, eventId: word, timestamp: long) returns (prefix: array<byte>)
      ensures fresh(prefix) && prefix[..] == Prefix(eventType, eventId, timestamp)
    {
      hide LongByte0, LongByte1, LongByte2, LongByte3, LongByte4, LongByte5, LongByte6, LongByte7;
      prefix := new byte[PREFIX_SIZE];
      prefix[0] := eventType;
      PutBytes(prefix, 1, LeBytes(eventId));
      PutBytes(prefix, 5, LongBytes(timestamp));
      assert prefix[..] == prefix[..1] + prefix[1..5] + prefix[5..13];
    }

    method EventPayload(eventType: byte, eventId: word, timestamp: long, body: seq<byte>) returns (payload: seq<byte>)
      ensures payload == Payload(Event(eventType, eventId, timestamp, body))
    {
      hide Prefix;
      var prefix := BuildEventPrefix(eventType, eventId, timestamp);
      payload := prefix[..] + body;
    }

    method EventBytes(payload: seq<byte>, seqId: word) returns (bytes: seq<byte>)
      requires |payload| + HEADER_SIZE < SIZE_LIMIT
      ensures bytes == Wire(DecodedFrame(DOMAIN_EVENT, 0, seqId, payload))
    {
      CarriedWholeIff(payload);
      hide Wire, Carried;
      var frame := EncodePayload(DOMAIN_EVENT, 0, seqId, payload);
      bytes := frame.value[..];
    }

    /** The bytes of the frame of a change, if its kind has an event type; an event id is used up in any case. */
    method MakeEventFrame(change: Change, timestamp: long) returns (frame: Option<seq<byte>>)
      requires change.Mapped? ==> |change.body| < SIZE_LIMIT - HEADER_SIZE - PREFIX_SIZE
      modifies this`nextEventId, this`txSeq
      ensures View() == BusAfter(old(View()), change)
      ensures frame == if change.Unmapped? then None
                       else Some(Wire(FrameOf(EventFor(old(View()), change, timestamp), old(txSeq))))
    {
      hide Wire, Payload, Prologue, FrameCrc;
      ghost var e: Event := if change.Mapped? then EventFor(View(), change, timestamp) else Event(0, 0, 0, []);
      ghost var f := FrameOf(e, txSeq);
      var eventId := nextEventId;
      nextEventId := nextEventId + 1;
      if change.Unmapped? {
        return None;
      }
      var payload := EventPayload(change.eventType, eventId, timestamp, change.body);
      var seqId := txSeq;
      txSeq := txSeq + 1;
      var bytes := EventBytes(payload, seqId);
      assert bytes == Wire(f);
      frame := Some(bytes);
    }

    /** Broadcasting a change, and reading the row of the journal back from the frame. */
    method Emit(change: Change, timestamp: long)
      requires change.Mapped? ==> |change.body| < SIZE_LIMIT - HEADER_SIZE - PREFIX_SIZE
      modifies this
      ensures View() == BusAfter(old(View()), change)
      ensures sent == old(sent) + BytesFor(old(View()), change, timestamp)
      ensures events == old(events) + RowsFor(old(View()), change, timestamp)
    {
      hide Wire, Payload, EventAt;
      ghost var before := View();
      var frame := MakeEventFrame(change, timestamp);
      if frame.None? {
        return;
      }
      FrameReadBack(EventFor(before, change, timestamp), before.txSeq);
      sent := sent + [frame.value];
      if |frame.value| > HEADER_SIZE + PREFIX_SIZE {
        events := events + [Row(EventAt(frame.value, HEADER_SIZE), change.objectUid)];
      }
    }

    method OnStateChanges(changes: seq<Change>, timestamp: long)
      requires AllFit(changes)
      modifies this
      ensures View() == BusAfterAll(old(View()), changes)
      ensures events == old(events) + Journal(old(View()), changes, timestamp)
      ensures AllEncodable(Broadcast(old(View()), changes, timestamp))
      ensures sent == old(sent) + Wires(Broadcast(old(View()), changes, timestamp))
    {
      hide BytesFor, RowsFor, AllEncodable;
      BroadcastEncodable(View(), changes, timestamp);
      assert changes[0..] == changes;
      for i := 0 to |changes|
        invariant BusAfterAll(View(), changes[i..]) == BusAfterAll(old(View()), changes)
        invariant events + Journal(View(), changes[i..], timestamp) == old(events) + Journal(old(View()), changes, timestamp)
        invariant AllEncodable(Broadcast(View(), changes[i..], timestamp))
        invariant sent + Wires(Broadcast(View(), changes[i..], timestamp))
                  == old(sent) + Wires(Broadcast(old(View()), changes, timestamp))
      {
        assert changes[i..][1..] == changes[i + 1..];
        OneChange(View(), changes[i..], timestamp);
        Sequences.Regroup(sent, BytesFor(View(), changes[i], timestamp),
                Wires(Broadcast(BusAfter(View(), changes[i]), changes[i + 1..], timestamp)));
        Sequences.Regroup(events, RowsFor(View(), changes[i], timestamp),
                Journal(BusAfter(View(), changes[i]), changes[i + 1..], timestamp));
        Emit(changes[i], timestamp);
      }
    }
  }
}
