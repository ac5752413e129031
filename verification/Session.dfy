/** The receive loop of a client session: bytes arrive in reads of any size, frames leave. */
module Session {
  import opened Words
  import opened Frame

  const READ_BUF_SIZE := 65536 + HEADER_SIZE

  /** Which frames make their handler close the session. */
  type Closes = DecodedFrame -> bool

  /** `failed` records a protocol error; `closed` is set by a failure or by a handler. */
  datatype State = State(pending: seq<byte>, handled: seq<DecodedFrame>, closed: bool, failed: bool)

  const START := State([], [], false, false)

  // ---- Specification --------------------------------------------------------------------------

  /** Decoding and handling as much of the pending bytes as possible. A handler that closes the
      session does not stop the loop. */
  function Process(s: State, closes: Closes): State
    decreases |s.pending|
  {
    match Decode(s.pending)
    case NeedMoreData => s
    case Ok(f, n) =>
      DecodeOnlyWire(s.pending);
      Process(State(s.pending[n..], s.handled + [f], s.closed || closes(f), s.failed), closes)
    case _ => s.(closed := true, failed := true)
  }

  /** One completed read. A closed session reads no more. */
  function Read(s: State, chunk: seq<byte>, closes: Closes): State
  {
    if s.closed then s else Process(s.(pending := s.pending + chunk), closes)
  }

  function ReadAll(s: State, chunks: seq<seq<byte>>, closes: Closes): State
    decreases |chunks|
  {
    if chunks == [] then s else ReadAll(Read(s, chunks[0], closes), chunks[1..], closes)
  }

  function Flatten(chunks: seq<seq<byte>>): seq<byte>
  {
    if chunks == [] then [] else chunks[0] + Flatten(chunks[1..])
  }

  /** Every read fits in the free part of the buffer at the time it is made. */
  predicate Fits(s: State, chunks: seq<seq<byte>>, closes: Closes)
    decreases |chunks|
  {
    chunks == [] || s.closed
    || (|s.pending| + |chunks[0]| <= READ_BUF_SIZE && Fits(Read(s, chunks[0], closes), chunks[1..], closes))
  }

  /** What a session did with its input: the frames handled and whether it failed. */
  function Outcome(s: State): (seq<DecodedFrame>, bool)
  {
    (s.handled, s.failed)
  }

  /** The outcome of decoding the whole stream at once. */
  function WholeOutcome(stream: seq<byte>, closes: Closes): (seq<DecodedFrame>, bool)
  {
    Outcome(Process(START.(pending := stream), closes))
  }

  /** No frame that closes the session is followed by bytes that already have a verdict. */
  predicate Quiet(stream: seq<byte>, closes: Closes)
    decreases |stream|
  {
    match Decode(stream)
    case Ok(f, n) =>
      DecodeOnlyWire(stream);
      (closes(f) ==> Decode(stream[n..]).NeedMoreData?) && Quiet(stream[n..], closes)
    case _ => true
  }

  function NeverCloses(): Closes
  {
    f => false
  }

  // ---- What the loop does with any bytes ------------------------------------------------------------

  /** One turn of the loop. An error handles nothing, and leaves the bytes where they are. */
  lemma ProcessTurn(s: State, closes: Closes)
    ensures match Decode(s.pending)
            case NeedMoreData => Process(s, closes) == s
            case Ok(f, n) =>
              0 < n <= |s.pending|
              && Process(s, closes) == Process(State(s.pending[n..], s.handled + [f], s.closed || closes(f), s.failed), closes)
            case _ => Process(s, closes) == State(s.pending, s.handled, true, true)
  {
    hide Decode;
    if Decode(s.pending).Ok? {
      DecodeOnlyWire(s.pending);
    }
  }

  lemma NothingPending()
    ensures Decode([]) == NeedMoreData
  {
  }

  /** Some handler of these frames closes the session. */
  predicate AnyCloses(frames: seq<DecodedFrame>, closes: Closes)
  {
    exists f :: f in frames && closes(f)
  }

  ghost predicate IsError(v: Verdict)
  {
    v == BadMagic || v == BadLength || v == BadCrc
  }

  /** These frames within the limit, and what is left behind them, are what the bytes consist of; the rest
      is no frame. */
  ghost predicate Parsed(data: seq<byte>, frames: seq<DecodedFrame>, rest: seq<byte>)
  {
    && (forall f :: f in frames ==> Deliverable(f))
    && data == Flatten(Wires(frames)) + rest
    && !Decode(rest).Ok?
  }

  lemma ParsedFirst(data: seq<byte>, frames: seq<DecodedFrame>, rest: seq<byte>, f: DecodedFrame)
    requires Deliverable(f) && Parsed(data, frames, rest)
    ensures Parsed(Wire(f) + data, [f] + frames, rest)
  {
    hide Wire, Decode;
    assert ([f] + frames)[1..] == frames;
    assert Wires([f] + frames) == [Wire(f)] + Wires(frames);
    assert ([Wire(f)] + Wires(frames))[1..] == Wires(frames);
    assert Flatten([Wire(f)] + Wires(frames)) == Wire(f) + Flatten(Wires(frames));
  }

  /** The first frame parsed is the one decoded. */
  lemma ParsedTail(data: seq<byte>, fs: seq<DecodedFrame>, p: seq<byte>)
    requires Parsed(data, fs, p)
    ensures fs == [] ==> data == p && !Decode(data).Ok?
    ensures fs != [] ==>
              && Encodable(fs[0]) && Decode(data) == Ok(fs[0], |Wire(fs[0])|) && |Wire(fs[0])| <= |data|
              && Parsed(data[|Wire(fs[0])|..], fs[1..], p)
  {
    hide Wire, Decode;
    if fs != [] {
      assert forall f :: f in fs[1..] ==> f in fs;
      assert fs[0] in fs && Encodable(fs[0]);
      var tail := Flatten(Wires(fs[1..])) + p;
      assert Wires(fs)[0] == Wire(fs[0]) && Wires(fs)[1..] == Wires(fs[1..]);
      assert data == Wire(fs[0]) + tail;
      DecodeWire(fs[0], tail);
    } else {
      assert data == [] + p == p;
    }
  }

  /** Bytes can be parsed in one way only. */
  lemma {:induction false} ParsedUniquely(data: seq<byte>, fs: seq<DecodedFrame>, p: seq<byte>, gs: seq<DecodedFrame>, q: seq<byte>)
    requires Parsed(data, fs, p) && Parsed(data, gs, q)
    ensures fs == gs && p == q
    decreases |fs|
  {
    hide Wire, Decode, Deliverable, Encodable;
    ParsedTail(data, fs, p);
    ParsedTail(data, gs, q);
    if fs != [] && gs != [] {
      ParsedUniquely(data[|Wire(fs[0])|..], fs[1..], p, gs[1..], q);
      assert fs == [fs[0]] + fs[1..] && gs == [gs[0]] + gs[1..];
    }
  }

  /** From any state the frames newly handled are those the pending bytes consist of, in order. What is left
      over is the beginning of a frame, or, exactly if the session failed, is an error. The session is closed
      exactly if it was, or failed, or a handler of a new frame closed it. */
  lemma {:induction false} ProcessParses(s: State, closes: Closes)
    requires !s.failed
    ensures var t := Process(s, closes);
            && |s.handled| <= |t.handled| && t.handled[..|s.handled|] == s.handled
            && Parsed(s.pending, t.handled[|s.handled|..], t.pending)
            && (if t.failed then IsError(Decode(t.pending)) else Decode(t.pending) == NeedMoreData)
            && t.closed == (s.closed || t.failed || AnyCloses(t.handled[|s.handled|..], closes))
    decreases |s.pending|
  {
    hide Decode, Wire, Process;
    ProcessTurn(s, closes);
    if Decode(s.pending).Ok? {
      var Ok(f, n) := Decode(s.pending);
      DecodeOnlyWire(s.pending);
      var next := State(s.pending[n..], s.handled + [f], s.closed || closes(f), s.failed);
      ProcessParses(next, closes);
      var t := Process(next, closes);
      var later := t.handled[|next.handled|..];
      ParsedFirst(next.pending, later, t.pending, f);
      assert s.pending == Wire(f) + next.pending;
      assert t.handled[|s.handled|..] == [f] + later;
      assert t.handled[..|s.handled|] == next.handled[..|s.handled|] == s.handled;
    } else {
      assert s.handled[|s.handled|..] == [] && s.pending == Flatten(Wires([])) + s.pending;
    }
  }

  // ---- Damage in a stream -----------------------------------------------------------------------------

  /** The state after some frames have been handled, with the bytes behind them. */
  function AfterFrames(s: State, frames: seq<DecodedFrame>, rest: seq<byte>, closes: Closes): State
    decreases frames
  {
    if frames == [] then s.(pending := rest)
    else AfterFrames(State(s.pending, s.handled + [frames[0]], s.closed || closes(frames[0]), s.failed), frames[1..], rest, closes)
  }

  lemma {:induction false} AfterFramesIs(s: State, frames: seq<DecodedFrame>, rest: seq<byte>, closes: Closes)
    ensures var t := AfterFrames(s, frames, rest, closes);
            t.pending == rest && t.handled == s.handled + frames && t.failed == s.failed
    decreases frames
  {
    if frames != [] {
      AfterFramesIs(State(s.pending, s.handled + [frames[0]], s.closed || closes(frames[0]), s.failed), frames[1..], rest, closes);
    }
  }

  lemma PendingAside(s: State, t: State, frames: seq<DecodedFrame>, rest: seq<byte>, closes: Closes)
    requires t == s.(pending := t.pending)
    ensures AfterFrames(s, frames, rest, closes) == AfterFrames(t, frames, rest, closes)
    decreases frames
  {
    if frames != [] {
      var f := frames[0];
      PendingAside(State(s.pending, s.handled + [f], s.closed || closes(f), s.failed),
                   State(t.pending, t.handled + [f], t.closed || closes(f), t.failed), frames[1..], rest, closes);
    }
  }

  /** Intact frames at the front are handled, and then the loop is at what follows them. */
  lemma {:induction false} FramesThenRest(frames: seq<DecodedFrame>, rest: seq<byte>, s: State, closes: Closes)
    requires (forall f :: f in frames ==> Deliverable(f)) && AllEncodable(frames)
    requires s.pending == Flatten(Wires(frames)) + rest
    ensures Process(s, closes) == Process(AfterFrames(s, frames, rest, closes), closes)
    ensures AfterFrames(s, frames, rest, closes).pending == rest
    ensures AfterFrames(s, frames, rest, closes).handled == s.handled + frames
    ensures AfterFrames(s, frames, rest, closes).failed == s.failed
    decreases frames
  {
    hide Decode, Wire, Process, Deliverable, Encodable;
    AfterFramesIs(s, frames, rest, closes);
    if frames == [] {
      assert s.pending == [] + rest == rest;
    } else {
      var f := frames[0];
      var behind := Flatten(Wires(frames[1..])) + rest;
      assert Wires(frames)[0] == Wire(f) && Wires(frames)[1..] == Wires(frames[1..]);
      assert s.pending == Wire(f) + behind;
      DecodeWire(f, behind);
      ProcessTurn(s, closes);
      var next := State(behind, s.handled + [f], s.closed || closes(f), s.failed);
      assert s.pending[|Wire(f)|..] == behind;
      FramesThenRest(frames[1..], rest, next, closes);
      PendingAside(next, State(s.pending, next.handled, next.closed, next.failed), frames[1..], rest, closes);
    }
  }

  lemma {:induction false} WiresSplit(frames: seq<DecodedFrame>, k: nat)
    requires AllEncodable(frames) && k < |frames|
    ensures AllEncodable(frames[..k]) && AllEncodable(frames[k + 1..]) && Encodable(frames[k])
    ensures Flatten(Wires(frames)) == Flatten(Wires(frames[..k])) + (Wire(frames[k]) + Flatten(Wires(frames[k + 1..])))
  {
    hide Wire, Encodable;
    assert Wires(frames)[0] == Wire(frames[0]) && Wires(frames)[1..] == Wires(frames[1..]);
    if k > 0 {
      WiresSplit(frames[1..], k - 1);
      assert frames[1..][..k - 1] == frames[..k][1..] && frames[1..][k..] == frames[k + 1..];
      assert Wires(frames[..k])[0] == Wire(frames[0]) && Wires(frames[..k])[1..] == Wires(frames[..k][1..]);
    } else {
      assert Wires(frames[..0]) == [];
    }
  }

  /** The bytes of some frames, one of them replaced by other bytes. */
  function Damaged(frames: seq<DecodedFrame>, k: nat, bytes: seq<byte>): seq<byte>
    requires AllEncodable(frames) && k < |frames|
  {
    WiresSplit(frames, k);
    Flatten(Wires(frames[..k])) + (bytes + Flatten(Wires(frames[k + 1..])))
  }

  /** Back to back frames, one of which has a burst of up to 32 bits that spares its length field: exactly the
      frames before it are handled, and the session fails. Nothing of the damaged frame, and nothing behind
      it, is handled. */
  lemma DamageStopsTheSession(frames: seq<DecodedFrame>, k: nat, bytes: seq<byte>, at: nat, s: State, closes: Closes)
    requires AllEncodable(frames) && k < |frames| && forall i :: 0 <= i <= k ==> Deliverable(frames[i])
    requires Burst(Wire(frames[k]), bytes, at) && bytes[8..12] == Wire(frames[k])[8..12]
    requires s.pending == Damaged(frames, k, bytes) && !s.failed
    ensures var t := Process(s, closes); t.handled == s.handled + frames[..k] && t.failed && t.closed
  {
    hide Decode, Wire, Process, Burst, Deliverable, Encodable;
    WiresSplit(frames, k);
    var rest := Flatten(Wires(frames[k + 1..]));
    FramesThenRest(frames[..k], bytes + rest, s, closes);
    BurstNeverDecodes(frames[k], bytes, at, rest);
    ProcessTurn(AfterFrames(s, frames[..k], bytes + rest, closes), closes);
  }

  // ---- Fragmentation ------------------------------------------------------------------------------

  lemma NeedMoreOfPrefix(data: seq<byte>, more: seq<byte>)
    requires Decode(data + more).NeedMoreData?
    ensures Decode(data).NeedMoreData?
  {
    hide Decode;
    if !Decode(data).NeedMoreData? {
      VerdictStable(data, more);
    }
  }

  /** Processing in two instalments is processing at once, unless the first one failed; then
      the later bytes change nothing but what is left over. */
  lemma {:induction false} ProcessInstalments(s: State, more: seq<byte>, closes: Closes)
    requires !s.failed
    ensures var first := Process(s, closes);
            var whole := Process(s.(pending := s.pending + more), closes);
            if first.failed then Outcome(whole) == Outcome(first)
            else whole == Process(first.(pending := first.pending + more), closes)
    decreases |s.pending|
  {
    hide Decode;
    if Decode(s.pending).NeedMoreData? {
      assert Process(s, closes) == s;
    } else {
      VerdictStable(s.pending, more);
      if Decode(s.pending).Ok? {
        var Ok(f, n) := Decode(s.pending);
        DecodeOnlyWire(s.pending);
        var next := State(s.pending[n..], s.handled + [f], s.closed || closes(f), s.failed);
        assert (s.pending + more)[n..] == s.pending[n..] + more;
        ProcessInstalments(next, more, closes);
      }
    }
  }

  lemma QuietTurn(stream: seq<byte>, closes: Closes)
    requires Quiet(stream, closes) && Decode(stream).Ok?
    ensures var Ok(f, n) := Decode(stream);
            0 < n <= |stream| && (closes(f) ==> Decode(stream[n..]).NeedMoreData?) && Quiet(stream[n..], closes)
  {
    hide Decode;
    DecodeOnlyWire(stream);
  }

  /** Quietness of the stream after a first instalment: if a handler has closed the session,
      nothing further could have been decoded; otherwise the rest is quiet. */
  lemma {:induction false} QuietAfter(s: State, more: seq<byte>, closes: Closes)
    requires !s.closed && !s.failed && Quiet(s.pending + more, closes)
    ensures var first := Process(s, closes);
            !first.failed ==>
              if first.closed then Decode(first.pending + more).NeedMoreData?
              else Quiet(first.pending + more, closes)
    decreases |s.pending|
  {
    hide Decode, Process, Quiet;
    ProcessTurn(s, closes);
    if Decode(s.pending).Ok? {
      VerdictStable(s.pending, more);
      QuietTurn(s.pending + more, closes);
      var Ok(f, n) := Decode(s.pending);
      var rest := s.pending[n..];
      assert (s.pending + more)[n..] == rest + more;
      if closes(f) {
        NeedMoreOfPrefix(rest, more);
        ProcessTurn(State(rest, s.handled + [f], true, false), closes);
      } else {
        QuietAfter(State(rest, s.handled + [f], false, false), more, closes);
      }
    }
  }

  lemma {:induction false} ClosedStays(s: State, chunks: seq<seq<byte>>, closes: Closes)
    requires s.closed
    ensures ReadAll(s, chunks, closes) == s
    decreases |chunks|
  {
    if chunks != [] {
      ClosedStays(s, chunks[1..], closes);
    }
  }

  /** After processing, either the session failed or the pending bytes await more. */
  lemma {:induction false} ProcessSettles(s: State, closes: Closes)
    requires !s.failed
    ensures var t := Process(s, closes);
            (!t.failed ==> Decode(t.pending).NeedMoreData? && |t.pending| < READ_BUF_SIZE)
            && (t.failed ==> t.closed) && (s.closed ==> t.closed)
    decreases |s.pending|
  {
    hide Decode;
    if Decode(s.pending).Ok? {
      var Ok(f, n) := Decode(s.pending);
      DecodeOnlyWire(s.pending);
      ProcessSettles(State(s.pending[n..], s.handled + [f], s.closed || closes(f), s.failed), closes);
    } else if Decode(s.pending).NeedMoreData? {
      NeedMoreBound(s.pending);
    }
  }

  /** On a quiet stream, any way of cutting it into reads gives the outcome of decoding the
      whole of it. */
  lemma {:induction false} ReadsAgree(s: State, chunks: seq<seq<byte>>, closes: Closes)
    requires !s.closed && !s.failed && Decode(s.pending).NeedMoreData?
    requires Quiet(s.pending + Flatten(chunks), closes)
    ensures Outcome(ReadAll(s, chunks, closes))
            == Outcome(Process(s.(pending := s.pending + Flatten(chunks)), closes))
    decreases |chunks|
  {
    hide Decode, Quiet;
    if chunks == [] {
      assert s.pending + [] == s.pending;
    } else {
      var mid := s.(pending := s.pending + chunks[0]);
      var rest := Flatten(chunks[1..]);
      assert s.pending + Flatten(chunks) == mid.pending + rest;
      ProcessInstalments(mid, rest, closes);
      QuietAfter(mid, rest, closes);
      var first := Read(s, chunks[0], closes);
      ProcessSettles(mid, closes);
      if first.closed {
        ClosedStays(first, chunks[1..], closes);
      } else {
        ReadsAgree(first, chunks[1..], closes);
      }
    }
  }

  // ---- Byte by byte -------------------------------------------------------------------------------

  function Singles(stream: seq<byte>): seq<seq<byte>>
  {
    if stream == [] then [] else [[stream[0]]] + Singles(stream[1..])
  }

  lemma {:induction false} FlattenSingles(stream: seq<byte>)
    ensures Flatten(Singles(stream)) == stream
  {
    if stream != [] {
      FlattenSingles(stream[1..]);
      assert Singles(stream)[1..] == Singles(stream[1..]);
    }
  }

  lemma {:induction false} SinglesFit(s: State, stream: seq<byte>, closes: Closes)
    requires !s.closed ==> !s.failed && |s.pending| < READ_BUF_SIZE
    ensures Fits(s, Singles(stream), closes)
    decreases |stream|
  {
    hide Process;
    if stream != [] && !s.closed {
      ProcessSettles(s.(pending := s.pending + [stream[0]]), closes);
      SinglesFit(Read(s, [stream[0]], closes), stream[1..], closes);
      assert Singles(stream)[1..] == Singles(stream[1..]);
    }
  }

  /** The first `n` bytes of a frame, read one at a time, complete it exactly at its end. */
  lemma {:induction false} SinglesCompleteFrame(s: State, stream: seq<byte>, done: nat, closes: Closes)
    requires !s.closed && !s.failed && Decode(stream).Ok?
    requires done < Decode(stream).consumed <= |stream| && s.pending == stream[..done]
    ensures var Ok(f, n) := Decode(stream);
            ReadAll(s, Singles(stream[done..]), closes)
            == ReadAll(State([], s.handled + [f], closes(f), false), Singles(stream[n..]), closes)
    decreases |stream| - done
  {
    hide Decode, Wire;
    var Ok(f, n) := Decode(stream);
    DecodeOnlyWire(stream);
    var rest := stream[done..];
    assert Singles(rest)[0] == [rest[0]] && Singles(rest)[1..] == Singles(stream[done + 1..]) by {
      assert rest[1..] == stream[done + 1..];
    }
    assert s.pending + [rest[0]] == stream[..done + 1];
    var read := s.(pending := stream[..done + 1]);
    if done + 1 < n {
      assert Wire(f)[..done + 1] == stream[..n][..done + 1] == stream[..done + 1];
      PrefixNeedsMore(f, done + 1);
      assert Process(read, closes) == read;
      SinglesCompleteFrame(read, stream, done + 1, closes);
    } else {
      DecodeAcceptsExactly(read.pending, f, n);
      assert read.pending[..n] == stream[..n] && read.pending[n..] == [];
      assert Process(read, closes) == State([], s.handled + [f], closes(f), false) by {
        NothingPending();
      }
    }
  }

  lemma {:induction false} ProcessKeepsHandled(s: State, closes: Closes)
    ensures var t := Process(s, closes); |t.handled| >= |s.handled| && (s.failed ==> t.failed)
    ensures !Decode(s.pending).NeedMoreData? ==>
              var t := Process(s, closes); |t.handled| > |s.handled| || t.failed
    decreases |s.pending|
  {
    hide Decode;
    if Decode(s.pending).Ok? {
      var Ok(f, n) := Decode(s.pending);
      DecodeOnlyWire(s.pending);
      ProcessKeepsHandled(State(s.pending[n..], s.handled + [f], s.closed || closes(f), s.failed), closes);
    }
  }

  /** On a stream that is not quiet, reading byte by byte misses what decoding the whole of it
      finds: it stops at the first closing frame. */
  lemma {:induction false} SinglesMiss(stream: seq<byte>, handled: seq<DecodedFrame>, closes: Closes)
    requires !Quiet(stream, closes)
    ensures var s := State([], handled, false, false);
            Outcome(ReadAll(s, Singles(stream), closes)) != Outcome(Process(s.(pending := stream), closes))
    decreases |stream|
  {
    hide Decode;
    var Ok(f, n) := Decode(stream);
    DecodeOnlyWire(stream);
    var s := State([], handled, false, false);
    var rest := stream[n..];
    assert stream[..0] == [] && stream[0..] == stream;
    SinglesCompleteFrame(s, stream, 0, closes);
    if closes(f) {
      assert Decode(rest).NeedMoreData? ==> Quiet(rest, closes);
      ClosedStays(State([], handled + [f], true, false), Singles(rest), closes);
      ProcessKeepsHandled(State(rest, handled + [f], true, false), closes);
    } else {
      SinglesMiss(rest, handled + [f], closes);
    }
  }

  /** Fragmentation: every way of cutting a stream into reads that fit the buffer gives the
      frames and the verdict of decoding the whole stream, exactly when no closing frame is
      followed by bytes that already have a verdict. */
  lemma FragmentationIrrelevantIff(stream: seq<byte>, closes: Closes)
    ensures Quiet(stream, closes)
            <==> forall chunks :: Flatten(chunks) == stream && Fits(START, chunks, closes)
                   ==> Outcome(ReadAll(START, chunks, closes)) == WholeOutcome(stream, closes)
  {
    hide Decode, Quiet, Process, ReadAll, Fits, Flatten, Singles;
    NothingPending();
    if Quiet(stream, closes) {
      forall chunks | Flatten(chunks) == stream
        ensures Outcome(ReadAll(START, chunks, closes)) == WholeOutcome(stream, closes)
      {
        assert [] + stream == stream;
        ReadsAgree(START, chunks, closes);
      }
    } else {
      FlattenSingles(stream);
      SinglesFit(START, stream, closes);
      SinglesMiss(stream, [], closes);
      assert START == State([], [], false, false);
    }
  }

  /** Two copies of a frame whose handler closes the session: in one piece both are handled, so this stream
      is not quiet. */
  lemma ClosingFrameTwice(f: DecodedFrame, closes: Closes)
    requires Deliverable(f) && closes(f)
    ensures !Quiet(Wire(f) + Wire(f), closes)
  {
    hide Decode, Wire;
    var twice := Wire(f) + Wire(f);
    DecodeWire(f, Wire(f));
    DecodeWire(f, []);
    assert Wire(f) + [] == Wire(f) == twice[|Wire(f)|..];
  }

  /** In particular, handlers that never close leave every stream quiet, well formed or not. */
  lemma {:induction false} QuietWithoutClosing(stream: seq<byte>, closes: Closes)
    requires forall f :: !closes(f)
    ensures Quiet(stream, closes)
    decreases |stream|
  {
    hide Decode;
    if Decode(stream).Ok? {
      DecodeOnlyWire(stream);
      QuietWithoutClosing(stream[Decode(stream).consumed..], closes);
    }
  }

  /** The same in whatever pieces the bytes arrive. */
  lemma DamageInAnyPieces(frames: seq<DecodedFrame>, k: nat, bytes: seq<byte>, at: nat, arrived: seq<seq<byte>>)
    requires AllEncodable(frames) && k < |frames| && forall i :: 0 <= i <= k ==> Deliverable(frames[i])
    requires Burst(Wire(frames[k]), bytes, at) && bytes[8..12] == Wire(frames[k])[8..12]
    requires Flatten(arrived) == Damaged(frames, k, bytes)
    ensures Outcome(ReadAll(START, arrived, NeverCloses())) == (frames[..k], true)
  {
    hide Decode, Wire, Process, Burst, Deliverable, Encodable, ReadAll, Damaged, Quiet;
    var (closes, stream) := (NeverCloses(), Damaged(frames, k, bytes));
    QuietWithoutClosing(stream, closes);
    NothingPending();
    assert [] + stream == stream && [] + frames[..k] == frames[..k];
    ReadsAgree(START, arrived, closes);
    DamageStopsTheSession(frames, k, bytes, at, START.(pending := stream), closes);
  }

  // ---- The code ---------------------------------------------------------------------------------

  class ClientSession {
    const readBuf: array<byte>
    const closes: Closes
    var bufFill: nat
    var closing: bool
    var handled: seq<DecodedFrame>
    ghost var failed: bool

    ghost predicate Valid()
      reads this, readBuf
    {
      readBuf.Length == READ_BUF_SIZE && bufFill <= readBuf.Length && (failed ==> closing)
    }

    ghost function Current(): State
      requires Valid()
      reads this, readBuf
    {
      State(readBuf[..bufFill], handled, closing, failed)
    }

    constructor (closes: Closes)
      ensures Valid() && fresh(readBuf) && this.closes == closes && Current() == START
    {
      this.closes := closes;
      readBuf := new byte[READ_BUF_SIZE];
      bufFill := 0;
      closing := false;
      handled := [];
      failed := false;
    }

    method Close()
      modifies this`closing
      ensures closing
    {
      closing := true;
    }

    /** The handlers themselves are not modelled: a frame is logged, and some frames close. */
    method HandleFrame(frame: DecodedFrame)
      modifies this`handled, this`closing
      ensures handled == old(handled) + [frame] && closing == (old(closing) || closes(frame))
    {
      handled := handled + [frame];
      if closes(frame) {
        Close();
      }
    }

    /** Moving the bytes behind a consumed frame to the front of the buffer. */
    method DropFront(consumed: nat)
      requires Valid() && consumed <= bufFill
      modifies this`bufFill, readBuf
      ensures Valid() && readBuf[..bufFill] == old(readBuf[..bufFill])[consumed..]
    {
      forall i | 0 <= i < bufFill - consumed {
        readBuf[i] := readBuf[consumed + i];
      }
      bufFill := bufFill - consumed;
    }

    method ProcessBuffer()
      requires Valid() && !failed
      modifies this, readBuf
      ensures Valid() && Current() == Process(old(Current()), closes)
    {
      hide Decode, Wire;
      while bufFill > 0
        invariant Valid() && !failed
        invariant Process(Current(), closes) == Process(old(Current()), closes)
        decreases bufFill
      {
        var result := DecodeFrame(readBuf, bufFill);
        ghost var s := Current();
        if result.NeedMoreData? {
          return;
        }
        if !result.Ok? {
          Close();
          failed := true;
          return;
        }
        HandleFrame(result.frame);
        var consumed := result.consumed;
        DecodeOnlyWire(s.pending);
        DropFront(consumed);
        assert Current() == State(s.pending[consumed..], s.handled + [result.frame], s.closed || closes(result.frame), false);
      }
      NothingPending();
    }

    /** A read completes with `chunk`, which fits in the free part of the buffer. The next read
        is asked for only if the session is not closing, and then there is room for it. */
    method OnRead(chunk: seq<byte>)
      requires Valid() && !closing
      requires bufFill + |chunk| <= readBuf.Length
      modifies this, readBuf
      ensures Valid() && Current() == Read(old(Current()), chunk, closes)
      ensures !closing ==> bufFill < readBuf.Length
    {
      ghost var s := Current();
      forall i | 0 <= i < |chunk| {
        readBuf[bufFill + i] := chunk[i];
      }
      bufFill := bufFill + |chunk|;
      assert readBuf[..bufFill] == s.pending + chunk;
      ProcessSettles(Current(), closes);
      ProcessBuffer();
    }

    /** The read cycle: a read is made after each completed one until the session closes. */
    method Serve(chunks: seq<seq<byte>>)
      requires Valid() && Fits(Current(), chunks, closes)
      modifies this, readBuf
      ensures Valid() && Current() == ReadAll(old(Current()), chunks, closes)
    {
      hide Process;
      var i := 0;
      while i < |chunks| && !closing
        invariant 0 <= i <= |chunks| && Valid()
        invariant Fits(Current(), chunks[i..], closes)
        invariant ReadAll(Current(), chunks[i..], closes) == ReadAll(old(Current()), chunks, closes)
      {
        assert chunks[i..][1..] == chunks[i + 1..];
        OnRead(chunks[i]);
        i := i + 1;
      }
      if closing {
        ClosedStays(Current(), chunks[i..], closes);
      }
    }
  }
}
