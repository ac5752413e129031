/** The wire frame: a 16-byte header followed by the payload. */
module Frame {
  import opened Wrappers
  import opened Words
  import opened Crc32

  const MAGIC0: byte := 0x53
  const MAGIC1: byte := 0x52
  const HEADER_SIZE := 16
  const MAX_PAYLOAD_LEN := 65535
  const FLAG_IS_LAST_CHUNK: byte := 1

  /** Lengths and sizes are computed in 32 bits. */
  const SIZE_LIMIT := 0x1_0000_0000

  datatype DecodedFrame = DecodedFrame(msgType: byte, flags: byte, seqId: word, payload: seq<byte>)

  datatype Verdict =
    | Ok(frame: DecodedFrame, consumed: nat)
    | NeedMoreData
    | BadMagic
    | BadLength
    | BadCrc

  /** The size of the whole frame is one that 32 bits can express. */
  predicate Encodable(f: DecodedFrame)
  {
    |f.payload| + HEADER_SIZE < SIZE_LIMIT
  }

  /** What of a payload is encoded when its length is cut to 32 bits. */
  function Carried(payload: seq<byte>): seq<byte>
  {
    payload[..|payload| % SIZE_LIMIT]
  }

  lemma CarriedWholeIff(payload: seq<byte>)
    ensures Carried(payload) == payload <==> |payload| < SIZE_LIMIT
  {
  }

  predicate Deliverable(f: DecodedFrame)
  {
    |f.payload| <= MAX_PAYLOAD_LEN
  }

  predicate AllEncodable(frames: seq<DecodedFrame>)
  {
    forall f :: f in frames ==> Encodable(f)
  }

  // ---- Specification of the layout --------------------------------------------------------

  /** Header bytes 0 to 11: everything before the CRC field. */
  function Prologue(f: DecodedFrame): (s: seq<byte>)
    requires Encodable(f)
    ensures |s| == 12
  {
    [MAGIC0, MAGIC1, f.msgType, f.flags] + LeBytes(f.seqId) + LeBytes(ToWord(|f.payload|))
  }

  /** The CRC that covers header bytes 0 to 11 and the payload. */
  function FrameCrc(prologue: seq<byte>, payload: seq<byte>): word
  {
    Checksum(prologue + payload)
  }

  /** The bytes of a frame on the wire. */
  function Wire(f: DecodedFrame): (s: seq<byte>)
    requires Encodable(f)
    ensures |s| == HEADER_SIZE + |f.payload|
  {
    Prologue(f) + LeBytes(FrameCrc(Prologue(f), f.payload)) + f.payload
  }

  function Wires(frames: seq<DecodedFrame>): seq<seq<byte>>
    requires AllEncodable(frames)
  {
    if frames == [] then [] else [Wire(frames[0])] + Wires(frames[1..])
  }

  /** The verdict on the bytes received so far. */
  function Decode(data: seq<byte>): Verdict
  {
    if |data| < HEADER_SIZE then NeedMoreData
    else if data[0] != MAGIC0 || data[1] != MAGIC1 then BadMagic
    else
      var len := WordValue(WordAt(data, 8));
      if len > MAX_PAYLOAD_LEN then BadLength
      else if |data| < HEADER_SIZE + len then NeedMoreData
      else
        var payload := data[HEADER_SIZE..HEADER_SIZE + len];
        if FrameCrc(data[..12], payload) != WordAt(data, 12) then BadCrc
        else Ok(DecodedFrame(data[2], data[3], WordAt(data, 4), payload), HEADER_SIZE + len)
  }

  // ---- The decoder accepts exactly the encodings ------------------------------------------

  lemma LeWordAt(s: seq<byte>, at: nat)
    requires at + 4 <= |s|
    ensures LeBytes(WordAt(s, at)) == s[at..at + 4]
  {
    hide LeWord, Byte0, Byte1, Byte2, Byte3;
    BytesOfWord(s[at], s[at + 1], s[at + 2], s[at + 3]);
  }

  lemma WordAtLe(s: seq<byte>, at: nat, w: word)
    requires at + 4 <= |s| && s[at..at + 4] == LeBytes(w)
    ensures WordAt(s, at) == w
  {
    hide LeWord, Byte0, Byte1, Byte2, Byte3;
    WordOfBytes(w);
    var b := s[at..at + 4];
    assert s[at] == b[0] && s[at + 1] == b[1] && s[at + 2] == b[2] && s[at + 3] == b[3];
  }

  lemma WireParts(f: DecodedFrame, rest: seq<byte>)
    requires Encodable(f)
    ensures var d := Wire(f) + rest;
            && d[0] == MAGIC0 && d[1] == MAGIC1 && d[2] == f.msgType && d[3] == f.flags
            && WordAt(d, 4) == f.seqId && WordAt(d, 8) == ToWord(|f.payload|)
            && d[..12] == Prologue(f) && WordAt(d, 12) == FrameCrc(Prologue(f), f.payload)
            && d[HEADER_SIZE..HEADER_SIZE + |f.payload|] == f.payload
  {
    hide LeBytes, FrameCrc, WordAt, ToWord;
    var d := Wire(f) + rest;
    assert d[4..8] == LeBytes(f.seqId);
    WordAtLe(d, 4, f.seqId);
    assert d[8..12] == LeBytes(ToWord(|f.payload|)) by {
      assert Prologue(f)[8..12] == LeBytes(ToWord(|f.payload|));
      assert d[..12] == Prologue(f) && d[8..12] == d[..12][8..12];
    }
    WordAtLe(d, 8, ToWord(|f.payload|));
    assert d[12..16] == LeBytes(FrameCrc(Prologue(f), f.payload));
    WordAtLe(d, 12, FrameCrc(Prologue(f), f.payload));
  }

  /** The word at a place denotes the number its bytes denote. */
  lemma WordAtValue(s: seq<byte>, at: nat)
    requires at + 4 <= |s|
    ensures WordValue(WordAt(s, at)) == Positional(s[at], s[at + 1], s[at + 2], s[at + 3])
  {
    hide LeWord, Byte0, Byte1, Byte2, Byte3;
    BytesOfWord(s[at], s[at + 1], s[at + 2], s[at + 3]);
  }

  /** The layout of a frame, byte by byte: magic, type, flags, and three numbers with their least significant
      bytes first, of which the last is the checksum of all the other bytes. */
  lemma HeaderOnTheWire(f: DecodedFrame)
    requires Encodable(f)
    ensures var w := Wire(f);
            && |w| == 16 + |f.payload| && w[16..] == f.payload
            && w[0] == 0x53 && w[1] == 0x52 && w[2] == f.msgType && w[3] == f.flags
            && Positional(w[4], w[5], w[6], w[7]) == WordValue(f.seqId)
            && Positional(w[8], w[9], w[10], w[11]) == |f.payload|
            && Positional(w[12], w[13], w[14], w[15]) == WordValue(Checksum(w[..12] + w[16..]))
  {
    hide Wire, Prologue, WordAt, ToWord, WordValue, Positional, Checksum;
    var w := Wire(f);
    WireParts(f, []);
    assert w + [] == w;
    WordAtValue(w, 4);
    WordAtValue(w, 8);
    WordAtValue(w, 12);
    WordValueOfToWord(|f.payload|);
    assert |w| == 16 + |f.payload| && w[16..] == w[16..16 + |f.payload|];
    assert WordAt(w, 12) == Checksum(w[..12] + w[16..]);
  }

  /** When the decoder refuses or waits, by the first sixteen bytes alone: it waits for the whole header, looks
      at the magic, then at the length, and then waits for the payload. */
  lemma VerdictsByHeader(data: seq<byte>)
    ensures Decode(data) == BadMagic <==> |data| >= 16 && !(data[0] == 0x53 && data[1] == 0x52)
    ensures Decode(data) == BadLength <==>
              |data| >= 16 && data[0] == 0x53 && data[1] == 0x52 && Positional(data[8], data[9], data[10], data[11]) > 65535
    ensures Decode(data) == NeedMoreData <==>
              |data| < 16 || (data[0] == 0x53 && data[1] == 0x52 && Positional(data[8], data[9], data[10], data[11]) <= 65535
                              && |data| < 16 + Positional(data[8], data[9], data[10], data[11]))
  {
    hide FrameCrc, WordAt, WordValue, Positional;
    if |data| >= 16 {
      WordAtValue(data, 8);
    }
  }

  /** Round trip: every frame within the limit decodes to itself, whatever follows it, and an
      oversized one is refused for its length. */
  lemma DecodeWire(f: DecodedFrame, rest: seq<byte>)
    requires Encodable(f)
    ensures Decode(Wire(f) + rest) == if Deliverable(f) then Ok(f, HEADER_SIZE + |f.payload|) else BadLength
  {
    hide Wire, FrameCrc, WordAt, ToWord, WordValue, Prologue;
    WireParts(f, rest);
    WordValueOfToWord(|f.payload|);
  }

  /** Whatever the decoder accepts is an encoding: the bytes it consumed are those of the
      frame it returned. */
  lemma DecodeOnlyWire(data: seq<byte>)
    requires Decode(data).Ok?
    ensures var v := Decode(data); Deliverable(v.frame) && v.consumed <= |data| && data[..v.consumed] == Wire(v.frame)
  {
    hide LeBytes, FrameCrc, WordAt, ToWord, WordValue;
    var v := Decode(data);
    LeWordAt(data, 4);
    LeWordAt(data, 8);
    LeWordAt(data, 12);
    ToWordOfWordValue(WordAt(data, 8));
    assert data[..12] == Prologue(v.frame) by {
      assert data[..12] == data[..4] + data[4..8] + data[8..12];
      assert data[..4] == [data[0], data[1], data[2], data[3]];
    }
    assert data[..v.consumed] == data[..12] + data[12..16] + data[16..v.consumed];
  }

  /** The decoder answers Ok exactly on inputs that begin with the encoding of a frame within
      the limit, and returns that frame and its length. */
  lemma DecodeAcceptsExactly(data: seq<byte>, f: DecodedFrame, n: nat)
    ensures Decode(data) == Ok(f, n)
            <==> Deliverable(f) && n == HEADER_SIZE + |f.payload| && n <= |data| && data[..n] == Wire(f)
  {
    hide Decode, Wire;
    if Decode(data) == Ok(f, n) {
      DecodeOnlyWire(data);
    }
    if Deliverable(f) && n == HEADER_SIZE + |f.payload| && n <= |data| && data[..n] == Wire(f) {
      DecodeWire(f, data[n..]);
      assert data == Wire(f) + data[n..];
    }
  }

  /** Every verdict other than NeedMoreData is final: further bytes do not change it. */
  lemma VerdictStable(data: seq<byte>, more: seq<byte>)
    requires !Decode(data).NeedMoreData?
    ensures Decode(data + more) == Decode(data)
  {
    hide FrameCrc, LeWord, WordValue;
    var d := data + more;
    assert forall i :: 0 <= i < |data| ==> d[i] == data[i];
    assert WordAt(d, 8) == WordAt(data, 8) && WordAt(d, 12) == WordAt(data, 12) && WordAt(d, 4) == WordAt(data, 4);
    assert d[..12] == data[..12];
    var len := WordValue(WordAt(data, 8));
    if |data| >= HEADER_SIZE + len {
      assert d[HEADER_SIZE..HEADER_SIZE + len] == data[HEADER_SIZE..HEADER_SIZE + len];
    }
  }

  /** Every strict prefix of an encoding within the limit yields NeedMoreData. */
  lemma PrefixNeedsMore(f: DecodedFrame, k: nat)
    requires Deliverable(f) && k < HEADER_SIZE + |f.payload|
    ensures Decode(Wire(f)[..k]) == NeedMoreData
  {
    hide Decode, Wire;
    var data := Wire(f)[..k];
    DecodeWire(f, []);
    assert Wire(f) + [] == Wire(f) == data + Wire(f)[k..];
    if !Decode(data).NeedMoreData? {
      VerdictStable(data, Wire(f)[k..]);
      DecodeOnlyWire(data);
      assert false;
    }
  }

  /** An answer of NeedMoreData never holds back a full frame: fewer bytes are present than
      the largest frame has. */
  lemma NeedMoreBound(data: seq<byte>)
    requires Decode(data) == NeedMoreData
    ensures |data| < HEADER_SIZE + MAX_PAYLOAD_LEN
  {
    hide FrameCrc, LeWord, WordValue;
  }

  // ---- Error detection ----------------------------------------------------------------------

  /** `t` is `s` with at least one bit changed, all changes within the 32 consecutive bits from `k` on, in
      transmission order, which do not reach across the end of the header. */
  ghost predicate Burst(s: seq<byte>, t: seq<byte>, k: nat)
  {
    s != t && DifferOnlyInBits(s, t, k) && (k + 32 <= 8 * HEADER_SIZE || k >= 8 * HEADER_SIZE)
  }

  /** The bytes the CRC covers. */
  function Covered(s: seq<byte>): seq<byte>
    requires |s| >= HEADER_SIZE
  {
    s[..12] + s[HEADER_SIZE..]
  }

  /** A byte of which the burst leaves every bit alone. */
  lemma ByteOutside(s: seq<byte>, t: seq<byte>, k: nat, i: nat)
    requires DifferOnlyInBits(s, t, k) && i < |s| && (8 * i + 8 <= k || k + 32 <= 8 * i)
    ensures s[i] == t[i]
  {
    hide MessageBits;
    SameBitsSameByte(s, t, i);
  }

  lemma BitInByte(s: seq<byte>, at: nat, off: nat)
    requires at < |s| && off < 8
    ensures MessageBits(s)[8 * at + off] == ByteBits(s[at])[off]
  {
    hide MessageBits, ByteBits;
    BitsOfMessage(s, at);
    assert MessageBits(s)[8 * at + off] == MessageBits(s)[8 * at..8 * at + 8][off];
  }

  /** The covered bytes before and behind the CRC field, bit by bit. */
  lemma CoveredBits(s: seq<byte>, i: nat)
    requires |s| >= HEADER_SIZE && i < 8 * (|s| - 4)
    ensures MessageBits(Covered(s))[i] == MessageBits(s)[if i < 96 then i else i + 32]
  {
    hide MessageBits, ByteBits;
    var (at, off) := (i / 8, i % 8);
    var from := if i < 96 then at else at + 4;
    assert Covered(s)[at] == s[from];
    hide Covered;
    BitInByte(Covered(s), at, off);
    BitInByte(s, from, off);
  }

  /** The burst is one in the covered bytes if it begins outside the length and CRC fields; from within
      them, it reaches the CRC field at most, as the length stays. */
  lemma CoveredBurst(s: seq<byte>, t: seq<byte>, k: nat)
    requires |s| == |t| >= HEADER_SIZE && Burst(s, t, k) && t[8..12] == s[8..12]
    ensures k <= 64 || k >= 128 ==> t[12..16] == s[12..16]
                                    && DifferOnlyInBits(Covered(s), Covered(t), if k <= 64 then k else k - 32)
    ensures 64 < k < 128 ==> Covered(s) == Covered(t)
  {
    hide MessageBits;
    if 64 < k < 128 {
      forall i | 0 <= i < |Covered(s)|
        ensures Covered(s)[i] == Covered(t)[i]
      {
        if 8 <= i < 12 {
          assert s[i] == s[8..12][i - 8] && t[i] == t[8..12][i - 8];
        } else {
          ByteOutside(s, t, k, if i < 12 then i else i + 4);
        }
      }
    } else {
      forall i | 12 <= i < 16
        ensures s[i] == t[i]
      {
        ByteOutside(s, t, k, i);
      }
      var k' := if k <= 64 then k else k - 32;
      forall i | 0 <= i < 8 * |Covered(s)| && !(k' <= i < k' + 32)
        ensures MessageBits(Covered(s))[i] == MessageBits(Covered(t))[i]
      {
        CoveredBits(s, i);
        CoveredBits(t, i);
      }
    }
  }

  /** If damage reaches the bytes the CRC covers, it leaves the CRC field alone and the CRC of
      the damaged bytes is another one. */
  lemma CoverageDiffers(s: seq<byte>, t: seq<byte>, k: nat)
    requires |s| == |t| >= HEADER_SIZE && Burst(s, t, k) && t[8..12] == s[8..12]
    requires Covered(s) != Covered(t)
    ensures t[12..16] == s[12..16] && Checksum(Covered(s)) != Checksum(Covered(t))
  {
    CoveredBurst(s, t, k);
    hide Update, Xor, Covered, DifferOnlyInBits;
    var p, q := Covered(s), Covered(t);
    BurstChangesUpdate(INITIAL, p, q, if k <= 64 then k else k - 32);
    XorTwice(Update(INITIAL, p), FINAL_XOR);
    XorTwice(Update(INITIAL, q), FINAL_XOR);
  }

  /** What decoding a damaged frame comes to, if its length field is left alone. */
  lemma DecodeDamaged(f: DecodedFrame, t: seq<byte>, rest: seq<byte>)
    requires Deliverable(f) && |t| == |Wire(f)| && t[8..12] == Wire(f)[8..12]
    ensures Decode(t + rest).Ok? ==> Checksum(Covered(t)) == WordAt(t, 12)
    ensures Decode(t + rest).Ok? || Decode(t + rest) == BadMagic || Decode(t + rest) == BadCrc
    ensures Checksum(Covered(Wire(f))) == WordAt(Wire(f), 12)
  {
    hide LeBytes, LeWord, ToWord, WordValue, Checksum, Prologue, Wire;
    var (s, d, len) := (Wire(f), t + rest, |f.payload|);
    WireParts(f, []);
    assert s + [] == s;
    assert d[8..12] == t[8..12] == s[8..12];
    LeWordAt(s, 8);
    WordAtLe(d, 8, WordAt(s, 8));
    WordValueOfToWord(len);
    assert d[HEADER_SIZE..HEADER_SIZE + len] == t[16..] && d[..12] == t[..12];
    assert s[HEADER_SIZE..HEADER_SIZE + len] == s[16..];
    assert WordAt(d, 12) == WordAt(t, 12);
  }

  lemma BurstLength(s: seq<byte>, t: seq<byte>, k: nat)
    requires Burst(s, t, k)
    ensures |s| == |t| && s != t
  {
  }

  /** A frame with a burst of damage of up to 32 bits that leaves the length field alone is never accepted,
      whatever bytes follow. */
  lemma BurstNeverDecodes(f: DecodedFrame, t: seq<byte>, k: nat, rest: seq<byte>)
    requires Deliverable(f) && Burst(Wire(f), t, k) && t[8..12] == Wire(f)[8..12]
    ensures Decode(t + rest) == BadMagic || Decode(t + rest) == BadCrc
  {
    hide LeWord, Checksum, Wire, Decode, Burst;
    var s := Wire(f);
    assert |s| == |t| by { hide *; BurstLength(s, t, k); }
    DecodeDamaged(f, t, rest);
    LeWordAt(s, 12);
    LeWordAt(t, 12);
    if Covered(s) == Covered(t) {
      assert s[..12] == Covered(s)[..12] && t[..12] == Covered(t)[..12];
      assert s[16..] == Covered(s)[12..] && t[16..] == Covered(t)[12..];
      assert s == s[..12] + s[12..16] + s[16..] && t == t[..12] + t[12..16] + t[16..];
      assert s != t by { BurstLength(s, t, k); }
    } else {
      CoverageDiffers(s, t, k);
    }
  }

  // ---- The code ---------------------------------------------------------------------------

  /** The CRC of a frame laid out in `buf`: header bytes first, then the payload. */
  method CrcOfParts(buf: array<byte>, len: nat) returns (crc: word)
    requires HEADER_SIZE + len <= buf.Length
    ensures crc == FrameCrc(buf[..12], buf[HEADER_SIZE..HEADER_SIZE + len])
  {
    hide Update, Xor;
    crc := Crc32Update(INITIAL, buf, 0, 12);
    assert buf[0..12] == buf[..12];
    if len > 0 {
      crc := Crc32Update(crc, buf, HEADER_SIZE, len);
      UpdateConcat(INITIAL, buf[..12], buf[HEADER_SIZE..HEADER_SIZE + len]);
    } else {
      assert buf[..12] + buf[HEADER_SIZE..HEADER_SIZE + len] == buf[..12];
    }
    crc := Xor(crc, FINAL_XOR);
  }

  /** Storing a word least significant byte first. */
  method PutWord(out: array<byte>, at: nat, w: word)
    requires at + 4 <= out.Length
    modifies out
    ensures out[at..at + 4] == LeBytes(w)
    ensures out[..at] == old(out[..at]) && out[at + 4..] == old(out[at + 4..])
  {
    hide Byte0, Byte1, Byte2, Byte3;
    out[at] := Byte0(w);
    out[at + 1] := Byte1(w);
    out[at + 2] := Byte2(w);
    out[at + 3] := Byte3(w);
  }

  /** Writing the header up to the CRC field. */
  method PutPrologue(out: array<byte>, msgType: byte, flags: byte, seqId: word, payloadLen: word)
    requires out.Length >= HEADER_SIZE
    modifies out
    ensures out[..12] == [MAGIC0, MAGIC1, msgType, flags] + LeBytes(seqId) + LeBytes(payloadLen)
  {
    hide LeBytes;
    out[0] := MAGIC0;
    out[1] := MAGIC1;
    out[2] := msgType;
    out[3] := flags;
    assert out[..4] == [MAGIC0, MAGIC1, msgType, flags];
    PutWord(out, 4, seqId);
    assert out[..4] == out[..8][..4];
    PutWord(out, 8, payloadLen);
    assert out[..4] == out[..8][..4] && out[4..8] == out[..8][4..8];
    assert out[..12] == out[..4] + out[4..8] + out[8..12];
  }

  /** Copying the payload behind the header. */
  method PutPayload(out: array<byte>, payload: seq<byte>)
    requires out.Length == HEADER_SIZE + |payload|
    modifies out
    ensures out[..12] == old(out[..12]) && out[HEADER_SIZE..] == payload
  {
    forall i | 0 <= i < |payload| {
      out[HEADER_SIZE + i] := payload[i];
    }
  }

  /** Writing the CRC field of an otherwise finished frame. */
  method PutCrc(out: array<byte>)
    requires out.Length >= HEADER_SIZE
    modifies out
    ensures out[..] == old(out[..12] + LeBytes(FrameCrc(out[..12], out[HEADER_SIZE..])) + out[HEADER_SIZE..])
  {
    hide FrameCrc, LeBytes;
    assert out[HEADER_SIZE..HEADER_SIZE + (out.Length - HEADER_SIZE)] == out[HEADER_SIZE..];
    var crc := CrcOfParts(out, out.Length - HEADER_SIZE);
    PutWord(out, 12, crc);
    assert out[..] == out[..12] + out[12..16] + out[16..];
  }

  /** Filling a buffer of the right size. */
  method PutFrame(out: array<byte>, msgType: byte, flags: byte, seqId: word, payload: seq<byte>, payloadLen: word)
    requires out.Length == HEADER_SIZE + |payload| < SIZE_LIMIT && WordValue(payloadLen) == |payload|
    modifies out
    ensures out[..] == Wire(DecodedFrame(msgType, flags, seqId, payload))
  {
    ghost var f := DecodedFrame(msgType, flags, seqId, payload);
    ToWordOfWordValue(payloadLen);
    assert Prologue(f) == [MAGIC0, MAGIC1, msgType, flags] + LeBytes(seqId) + LeBytes(payloadLen);
    hide Prologue, FrameCrc, ToWord, LeBytes, WordValue;
    PutPrologue(out, msgType, flags, seqId, payloadLen);
    PutPayload(out, payload);
    PutCrc(out);
  }

  /** Encoding the first bytes of a payload. Near the 32-bit limit the computed size wraps, and the buffer is
      too small for its header: there is no frame then. */
  method EncodeFrame(msgType: byte, flags: byte, seqId: word, payload: seq<byte>, payloadLen: word)
    returns (out: Option<array<byte>>)
    requires WordValue(payloadLen) <= |payload|
    ensures out.Some? <==> WordValue(payloadLen) + HEADER_SIZE < SIZE_LIMIT
    ensures out.Some? ==>
              && fresh(out.value)
              && out.value[..] == Wire(DecodedFrame(msgType, flags, seqId, payload[..WordValue(payloadLen)]))
  {
    hide WordValue, ToWord, FrameCrc, LeBytes, Prologue;
    var len := WordValue(payloadLen);
    var size := (HEADER_SIZE + len) % SIZE_LIMIT;
    if size < HEADER_SIZE {
      return None;
    }
    var frame := new byte[size];
    PutFrame(frame, msgType, flags, seqId, payload[..len], payloadLen);
    out := Some(frame);
  }

  /** Encoding a payload, with its length cut to 32 bits. */
  method EncodePayload(msgType: byte, flags: byte, seqId: word, payload: seq<byte>) returns (out: Option<array<byte>>)
    ensures out.Some? <==> |payload| % SIZE_LIMIT + HEADER_SIZE < SIZE_LIMIT
    ensures out.Some? ==>
              && fresh(out.value)
              && out.value[..] == Wire(DecodedFrame(msgType, flags, seqId, Carried(payload)))
  {
    hide ToWord, WordValue, Wire;
    var len := |payload| % SIZE_LIMIT;
    WordValueOfToWord(len);
    out := EncodeFrame(msgType, flags, seqId, payload, ToWord(len));
  }

  /** Decoding the first `available` bytes of a buffer. */
  method DecodeFrame(data: array<byte>, available: nat) returns (v: Verdict)
    requires available <= data.Length
    ensures v == Decode(data[..available])
  {
    hide FrameCrc, LeWord, WordValue;
    ghost var s := data[..available];
    if available < HEADER_SIZE {
      return NeedMoreData;
    }
    if data[0] != MAGIC0 || data[1] != MAGIC1 {
      return BadMagic;
    }
    var payloadLen := WordValue(LeWord(data[8], data[9], data[10], data[11]));
    assert WordAt(s, 8) == LeWord(data[8], data[9], data[10], data[11]);
    if payloadLen > MAX_PAYLOAD_LEN {
      return BadLength;
    }
    var total := HEADER_SIZE + payloadLen;
    if available < total {
      return NeedMoreData;
    }
    var expectedCrc := LeWord(data[12], data[13], data[14], data[15]);
    assert WordAt(s, 12) == expectedCrc;
    var actualCrc := CrcOfParts(data, payloadLen);
    assert data[..12] == s[..12] && data[HEADER_SIZE..total] == s[HEADER_SIZE..total];
    if actualCrc != expectedCrc {
      return BadCrc;
    }
    var seqId := LeWord(data[4], data[5], data[6], data[7]);
    assert WordAt(s, 4) == seqId;
    return Ok(DecodedFrame(data[2], data[3], seqId, data[HEADER_SIZE..total]), total);
  }
}
