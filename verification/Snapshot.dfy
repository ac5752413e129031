/** Snapshot delivery: chunking, framing with a last-chunk flag, and reassembly. */
module Snapshot {
  import opened Wrappers
  import Sequences
  import opened Words
  import opened Frame
  import opened Session

  const SNAPSHOT_CHUNK: byte := 0x31
  const DEFAULT_CHUNK_SIZE := 65536

  // ---- Specification ----------------------------------------------------------------------------

  /** Pieces of `size` bytes, the last one possibly shorter. */
  function Pieces(binary: seq<byte>, size: nat): (r: seq<seq<byte>>)
    requires size > 0
    decreases |binary|
  {
    if |binary| == 0 then []
    else if |binary| <= size then [binary]
    else [binary[..size]] + Pieces(binary[size..], size)
  }

  function Chunks(binary: seq<byte>, size: nat): seq<seq<byte>>
  {
    if |binary| == 0 || size == 0 then [[]] else Pieces(binary, size)
  }

  /** The frames of a snapshot: consecutive sequence numbers, the flag on the last one only. */
  function SnapshotFrames(chunks: seq<seq<byte>>, seqId: word): seq<DecodedFrame>
    decreases |chunks|
  {
    if chunks == [] then []
    else [DecodedFrame(SNAPSHOT_CHUNK, if |chunks| == 1 then FLAG_IS_LAST_CHUNK else 0, seqId, chunks[0])]
         + SnapshotFrames(chunks[1..], seqId + 1)
  }

  predicate IsLast(f: DecodedFrame)
  {
    f.flags & FLAG_IS_LAST_CHUNK == FLAG_IS_LAST_CHUNK
  }

  /** A receiver joins the payloads up to the first frame flagged as the last chunk. */
  function Reassemble(frames: seq<DecodedFrame>): Option<seq<byte>>
    decreases |frames|
  {
    if frames == [] then None
    else if IsLast(frames[0]) then Some(frames[0].payload)
    else match Reassemble(frames[1..])
      case None => None
      case Some(rest) => Some(frames[0].payload + rest)
  }

  /** Frames handled by a session whose handlers never close it. */
  function Received(arrived: seq<seq<byte>>): seq<DecodedFrame>
  {
    ReadAll(START, arrived, NeverCloses()).handled
  }

  /** What is sent in answer to a snapshot request. */
  function SnapshotWires(binary: seq<byte>, size: nat, seqId: word): seq<seq<byte>>
    requires AllEncodable(SnapshotFrames(Chunks(binary, size), seqId))
  {
    Wires(SnapshotFrames(Chunks(binary, size), seqId))
  }

  // ---- Chunking loses nothing ---------------------------------------------------------------------

  lemma {:induction false} PiecesJoin(binary: seq<byte>, size: nat)
    requires size > 0
    ensures Flatten(Pieces(binary, size)) == binary
    decreases |binary|
  {
    if |binary| > size {
      PiecesJoin(binary[size..], size);
      assert Pieces(binary, size)[1..] == Pieces(binary[size..], size);
    } else if |binary| > 0 {
      assert Pieces(binary, size)[1..] == [];
    }
  }

  /** Each piece has `size` bytes, except that the last may be shorter; none is empty. */
  lemma {:induction false} PiecesSized(binary: seq<byte>, size: nat)
    requires size > 0
    ensures forall i :: 0 <= i < |Pieces(binary, size)| ==> 0 < |Pieces(binary, size)[i]| <= size
    ensures forall i :: 0 <= i < |Pieces(binary, size)| - 1 ==> |Pieces(binary, size)[i]| == size
    ensures binary != [] ==> Pieces(binary, size) != [] && |Pieces(binary, size)[0]| == if |binary| <= size then |binary| else size
    decreases |binary|
  {
    if |binary| > size {
      PiecesSized(binary[size..], size);
    }
  }

  lemma ChunksNonEmpty(binary: seq<byte>, size: nat)
    ensures Chunks(binary, size) != []
    ensures |binary| == 0 || size == 0 ==> Chunks(binary, size) == [[]]
  {
    if |binary| > 0 && size > 0 {
      PiecesSized(binary, size);
    }
  }

  // ---- Framing and reassembly -----------------------------------------------------------------------

  lemma {:induction false} FramesCarryChunks(chunks: seq<seq<byte>>, seqId: word)
    ensures var fs := SnapshotFrames(chunks, seqId);
            |fs| == |chunks|
            && forall i :: 0 <= i < |chunks| ==> fs[i].payload == chunks[i] && IsLast(fs[i]) == (i == |chunks| - 1)
    decreases |chunks|
  {
    if chunks != [] {
      FramesCarryChunks(chunks[1..], seqId + 1);
    }
  }

  /** The frames of a snapshot are of its type, numbered without a gap, flagged on the last one alone. */
  lemma {:induction false} SnapshotFramesAre(chunks: seq<seq<byte>>, seqId: word)
    ensures var fs := SnapshotFrames(chunks, seqId);
            && |fs| == |chunks|
            && forall i :: 0 <= i < |fs| ==>
                 && fs[i].msgType == 0x31 && fs[i].payload == chunks[i]
                 && fs[i].flags == (if i == |fs| - 1 then 1 else 0)
                 && WordValue(fs[i].seqId) == Later(seqId, i)
    decreases |chunks|
  {
    hide Later, WordValue;
    if chunks != [] {
      var tail := SnapshotFrames(chunks[1..], seqId + 1);
      SnapshotFramesAre(chunks[1..], seqId + 1);
      LaterFrom(seqId, seqId + 1);
      var fs := SnapshotFrames(chunks, seqId);
      forall i | 0 < i < |fs|
        ensures fs[i].msgType == 0x31 && fs[i].payload == chunks[i]
                && fs[i].flags == (if i == |fs| - 1 then 1 else 0) && WordValue(fs[i].seqId) == Later(seqId, i)
      {
        assert fs[i] == tail[i - 1] && chunks[i] == chunks[1..][i - 1];
        assert Later(seqId + 1, i - 1) == Later(seqId, (i - 1) + 1);
      }
    }
  }

  lemma {:induction false} ReassembleFrames(chunks: seq<seq<byte>>, seqId: word)
    requires chunks != []
    ensures Reassemble(SnapshotFrames(chunks, seqId)) == Some(Flatten(chunks))
    decreases |chunks|
  {
    hide IsLast;
    FramesCarryChunks(chunks, seqId);
    var fs := SnapshotFrames(chunks, seqId);
    assert fs[1..] == SnapshotFrames(chunks[1..], seqId + 1);
    if |chunks| == 1 {
      assert chunks[1..] == [] && chunks[0] + [] == chunks[0];
    } else {
      ReassembleFrames(chunks[1..], seqId + 1);
    }
  }

  /** The frames before the first one that is too long to be accepted. */
  function UntilOversized(frames: seq<DecodedFrame>): seq<DecodedFrame>
  {
    if frames == [] || !Deliverable(frames[0]) then [] else [frames[0]] + UntilOversized(frames[1..])
  }

  lemma {:induction false} NoneOversizedIff(frames: seq<DecodedFrame>)
    ensures |UntilOversized(frames)| <= |frames|
    ensures if forall f :: f in frames ==> Deliverable(f) then UntilOversized(frames) == frames
            else |UntilOversized(frames)| < |frames|
  {
    if frames != [] {
      NoneOversizedIff(frames[1..]);
      assert frames == [frames[0]] + frames[1..];
    }
  }

  lemma {:induction false} UntilSplits(frames: seq<DecodedFrame>)
    requires UntilOversized(frames) != frames
    ensures var k := |UntilOversized(frames)|;
            k < |frames| && UntilOversized(frames) == frames[..k] && !Deliverable(frames[k])
            && forall f :: f in frames[..k] ==> Deliverable(f)
  {
    if Deliverable(frames[0]) {
      assert frames == [frames[0]] + frames[1..];
      UntilSplits(frames[1..]);
    }
  }

  lemma {:induction false} UntilDeliverable(frames: seq<DecodedFrame>)
    ensures forall f :: f in UntilOversized(frames) ==> Deliverable(f)
  {
    if frames != [] && Deliverable(frames[0]) {
      UntilDeliverable(frames[1..]);
    }
  }

  /** The receive loop handles back to back frames one for one, and stops at the first oversized one. */
  lemma ReceiveWires(frames: seq<DecodedFrame>, s: State, closes: Closes)
    requires AllEncodable(frames) && s.pending == Flatten(Wires(frames)) && !s.failed
    ensures Process(s, closes).handled == s.handled + UntilOversized(frames)
    ensures Process(s, closes).failed <==> UntilOversized(frames) != frames
  {
    hide Decode, Wire, Process, Wires, Encodable, Deliverable;
    UntilDeliverable(frames);
    if UntilOversized(frames) == frames {
      FramesThenRest(frames, [], s, closes);
      assert s.pending == Flatten(Wires(frames)) + [];
      NothingPending();
      ProcessTurn(AfterFrames(s, frames, [], closes), closes);
    } else {
      UntilSplits(frames);
      var k := |UntilOversized(frames)|;
      var rest := Flatten(Wires(frames[k + 1..]));
      WiresSplit(frames, k);
      DecodeWire(frames[k], rest);
      FramesThenRest(frames[..k], Wire(frames[k]) + rest, s, closes);
      ProcessTurn(AfterFrames(s, frames[..k], Wire(frames[k]) + rest, closes), closes);
    }
  }

  /** So in whatever pieces the wire bytes of some frames arrive, those frames are handled that come before
      the first oversized one. */
  lemma ReceivedUntilOversized(frames: seq<DecodedFrame>, arrived: seq<seq<byte>>)
    requires AllEncodable(frames) && Flatten(arrived) == Flatten(Wires(frames))
    ensures Received(arrived) == UntilOversized(frames)
  {
    hide Decode, Wire, Encodable, Process, ReadAll, Quiet, Wires, UntilOversized;
    var (closes, stream) := (NeverCloses(), Flatten(Wires(frames)));
    QuietWithoutClosing(stream, closes);
    assert [] + stream == stream && [] + UntilOversized(frames) == UntilOversized(frames);
    NothingPending();
    ReadsAgree(START, arrived, closes);
    ReceiveWires(frames, START.(pending := stream), closes);
  }

  // ---- End to end -------------------------------------------------------------------------------------

  /** Chunks that the frame format can carry. */
  predicate ChunksDeliverable(binary: seq<byte>, size: nat)
  {
    |binary| == 0 || (0 < size && (size <= MAX_PAYLOAD_LEN || |binary| <= MAX_PAYLOAD_LEN))
  }

  lemma {:induction false} PiecesWithin(binary: seq<byte>, size: nat)
    requires size > 0
    ensures forall i :: 0 <= i < |Pieces(binary, size)| ==> |Pieces(binary, size)[i]| <= |binary|
    decreases |binary|
  {
    if |binary| > size {
      PiecesWithin(binary[size..], size);
    }
  }

  /** Every chunk can be framed if chunks are small, or the whole is. */
  lemma ChunksEncodable(binary: seq<byte>, size: nat, seqId: word)
    requires |binary| + HEADER_SIZE < SIZE_LIMIT || size + HEADER_SIZE < SIZE_LIMIT
    ensures AllEncodable(SnapshotFrames(Chunks(binary, size), seqId))
  {
    var cs := Chunks(binary, size);
    FramesCarryChunks(cs, seqId);
    if |binary| > 0 && size > 0 {
      PiecesSized(binary, size);
      PiecesWithin(binary, size);
    }
    var fs := SnapshotFrames(cs, seqId);
    forall f | f in fs
      ensures Encodable(f)
    {
      var i :| 0 <= i < |fs| && fs[i] == f;
      assert f.payload == cs[i];
    }
  }

  lemma FlattenEmptyChunk()
    ensures Flatten([[]]) == []
  {
    var none: seq<seq<byte>> := [[]];
    assert none[1..] == [];
  }

  /** Delivery: chunking a snapshot, framing each chunk, reading the bytes in any pieces and
      joining the payloads up to the last-chunk flag gives back the snapshot, exactly when it is
      empty, or the chunk size is positive and the first chunk fits in a frame. */
  lemma SnapshotDeliveredIff(binary: seq<byte>, size: nat, seqId: word, arrived: seq<seq<byte>>)
    requires AllEncodable(SnapshotFrames(Chunks(binary, size), seqId))
    requires Flatten(arrived) == Flatten(SnapshotWires(binary, size, seqId))
    ensures Reassemble(Received(arrived)) == Some(binary) <==>
              |binary| == 0 || (0 < size && (size <= 65535 || |binary| <= 65535))
  {
    hide Decode, Wire, Encodable, Received, Wires, IsLast;
    var cs := Chunks(binary, size);
    var fs := SnapshotFrames(cs, seqId);
    ReceivedUntilOversized(fs, arrived);
    NoneOversizedIff(fs);
    FramesCarryChunks(cs, seqId);
    ChunksNonEmpty(binary, size);
    if |binary| > 0 && size > 0 {
      PiecesSized(binary, size);
      PiecesWithin(binary, size);
      PiecesJoin(binary, size);
    }
    if ChunksDeliverable(binary, size) || size == 0 {
      forall f | f in fs
        ensures Deliverable(f)
      {
        var i :| 0 <= i < |fs| && fs[i] == f;
        assert f.payload == cs[i];
      }
      ReassembleFrames(cs, seqId);
      FlattenEmptyChunk();
    } else {
      assert fs[0].payload == cs[0];
    }
  }

  /** What is sent with the default chunk size: whatever the snapshot, its chunks can be framed. */
  function DefaultWires(binary: seq<byte>, seqId: word): seq<seq<byte>>
  {
    ChunksEncodable(binary, DEFAULT_CHUNK_SIZE, seqId);
    SnapshotWires(binary, DEFAULT_CHUNK_SIZE, seqId)
  }

  /** With the default chunk size, one more than a frame can carry, exactly the snapshots of at
      most 65535 bytes arrive. */
  lemma DefaultChunkSizeDelivers(binary: seq<byte>, seqId: word, arrived: seq<seq<byte>>)
    requires Flatten(arrived) == Flatten(DefaultWires(binary, seqId))
    ensures Reassemble(Received(arrived)) == Some(binary) <==> |binary| <= 65535
  {
    ChunksEncodable(binary, DEFAULT_CHUNK_SIZE, seqId);
    SnapshotDeliveredIff(binary, DEFAULT_CHUNK_SIZE, seqId, arrived);
  }

  /** A snapshot one byte longer does not arrive, though it is read in the pieces it was sent in. */
  lemma LongSnapshotIsLost(seqId: word)
    ensures var binary := seq(65536, i => 0 as byte);
            Reassemble(Received(DefaultWires(binary, seqId))) != Some(binary)
  {
    var binary := seq(65536, i => 0 as byte);
    DefaultChunkSizeDelivers(binary, seqId, DefaultWires(binary, seqId));
  }

  // ---- The code -------------------------------------------------------------------------------------

  method Chunk(binary: seq<byte>, chunkSize: nat) returns (result: seq<seq<byte>>)
    ensures result == Chunks(binary, chunkSize)
  {
    if |binary| == 0 || chunkSize == 0 {
      return [[]];
    }
    result := [];
    var offset := 0;
    while offset < |binary|
      invariant 0 <= offset <= |binary|
      invariant result + Pieces(binary[offset..], chunkSize) == Pieces(binary, chunkSize)
    {
      var len := if chunkSize < |binary| - offset then chunkSize else |binary| - offset;
      assert binary[offset..][len..] == binary[offset + len..];
      assert Pieces(binary[offset..], chunkSize) == [binary[offset..offset + len]] + Pieces(binary[offset + len..], chunkSize) by {
        assert binary[offset..][..len] == binary[offset..offset + len];
        if len == |binary| - offset {
          assert binary[offset..] == binary[offset..offset + len];
        }
      }
      result := result + [binary[offset..offset + len]];
      offset := offset + len;
    }
  }

  /** The first of the frames of some chunks, and the others. */
  lemma NextFrame(chunks: seq<seq<byte>>, seqId: word)
    requires chunks != [] && AllEncodable(SnapshotFrames(chunks, seqId))
    ensures var rest := SnapshotFrames(chunks[1..], seqId + 1);
            var f := DecodedFrame(SNAPSHOT_CHUNK, if |chunks| == 1 then FLAG_IS_LAST_CHUNK else 0, seqId, chunks[0]);
            && |chunks[0]| + HEADER_SIZE < SIZE_LIMIT && Carried(chunks[0]) == chunks[0]
            && AllEncodable(rest)
            && Wires(SnapshotFrames(chunks, seqId)) == [Wire(f)] + Wires(rest)
  {
    hide Wire, Carried;
    var fs := SnapshotFrames(chunks, seqId);
    assert fs[1..] == SnapshotFrames(chunks[1..], seqId + 1);
    assert Encodable(fs[0]);
    CarriedWholeIff(chunks[0]);
  }

  lemma NoFrames(seqId: word)
    ensures Wires(SnapshotFrames([], seqId)) == []
  {
  }

  /** The sending half of a session: a sequence counter that wraps at 2^32, and the bytes sent. */
  class Sender {
    var txSeq: word
    var sent: seq<seq<byte>>

    constructor ()
      ensures txSeq == 0 && sent == []
    {
      txSeq := 0;
      sent := [];
    }

    /** A payload for which the computed size wraps must not be sent. */
    method SendFrame(msgType: byte, flags: byte, payload: seq<byte>)
      requires |payload| % SIZE_LIMIT + HEADER_SIZE < SIZE_LIMIT
      modifies this
      ensures txSeq == old(txSeq) + 1
      ensures sent == old(sent) + [Wire(DecodedFrame(msgType, flags, old(txSeq), Carried(payload)))]
    {
      hide Wire, Carried;
      var seqId := txSeq;
      txSeq := txSeq + 1;
      var frame := EncodePayload(msgType, flags, seqId, payload);
      sent := sent + [frame.value[..]];
    }

    /** One chunk is sent, and the frames that follow it are still to be sent. */
    method SendChunk(chunk: seq<byte>, isLast: bool, ghost rest: seq<DecodedFrame>)
      requires |chunk| + HEADER_SIZE < SIZE_LIMIT && Carried(chunk) == chunk && AllEncodable(rest)
      modifies this
      ensures txSeq == old(txSeq) + 1
      ensures sent + Wires(rest)
              == old(sent) + ([Wire(DecodedFrame(SNAPSHOT_CHUNK, if isLast then FLAG_IS_LAST_CHUNK else 0, old(txSeq), chunk))] + Wires(rest))
    {
      hide Wire, Wires, Carried;
      var flags := if isLast then FLAG_IS_LAST_CHUNK else 0;
      ghost var frame := DecodedFrame(SNAPSHOT_CHUNK, flags, txSeq, chunk);
      Sequences.Regroup(sent, [Wire(frame)], Wires(rest));
      SendFrame(SNAPSHOT_CHUNK, flags, chunk);
    }

    /** Every chunk in a frame of its own, the last one flagged. */
    method SendChunks(chunks: seq<seq<byte>>)
      requires AllEncodable(SnapshotFrames(chunks, txSeq))
      modifies this
      ensures sent == old(sent) + Wires(SnapshotFrames(chunks, old(txSeq)))
    {
      hide SnapshotFrames, Wires, Wire, Carried, AllEncodable;
      ghost var all := Wires(SnapshotFrames(chunks, txSeq));
      ghost var todo := chunks;
      for i := 0 to |chunks|
        invariant todo == chunks[i..] && AllEncodable(SnapshotFrames(todo, txSeq))
        invariant sent + Wires(SnapshotFrames(todo, txSeq)) == old(sent) + all
      {
        assert todo[0] == chunks[i] && todo[1..] == chunks[i + 1..] && |todo| == |chunks| - i;
        NextFrame(todo, txSeq);
        SendChunk(chunks[i], i + 1 == |chunks|, SnapshotFrames(todo[1..], txSeq + 1));
        todo := todo[1..];
      }
      NoFrames(txSeq);
      assert sent + [] == sent;
    }

    /** Answering a snapshot request: what is sent is the wire form of the snapshot's frames. */
    method SendSnapshot(serialised: seq<byte>, chunkSize: nat)
      requires AllEncodable(SnapshotFrames(Chunks(serialised, chunkSize), txSeq))
      modifies this
      ensures sent == old(sent) + SnapshotWires(serialised, chunkSize, old(txSeq))
    {
      hide SnapshotFrames, Wires, AllEncodable, Pieces;
      var chunks := Chunk(serialised, chunkSize);
      SendChunks(chunks);
    }
  }
}
