/** Bytes and little-endian 32-bit words, as the wire format stores them. */
module Words {

  type byte = bv8
  type word = bv32

  function Digit(x: bool): nat { if x then 1 else 0 }

  /** A number whose two lowest binary digits are `x` and `y`. */
  function Two(x: bool, y: bool, m: nat): nat { Digit(x) + 2 * (Digit(y) + 2 * m) }

  /** Binary notation, least significant digit first. */
  function Binary(x0: bool, x1: bool, x2: bool, x3: bool, x4: bool, x5: bool, x6: bool, x7: bool): (n: nat)
    ensures n < 256
  {
    Two(x0, x1, Two(x2, x3, Two(x4, x5, Two(x6, x7, 0))))
  }

  /** The number a byte denotes. */
  function ByteValue(b: byte): (n: nat)
    ensures n < 256
  {
    Binary(b & 1 == 1, b & 2 == 2, b & 4 == 4, b & 8 == 8, b & 16 == 16, b & 32 == 32, b & 64 == 64, b & 128 == 128)
  }

  function Bit(x: bool, b: byte): byte { if x then b else 0 }

  function FromBits(x0: bool, x1: bool, x2: bool, x3: bool, x4: bool, x5: bool, x6: bool, x7: bool): byte
  {
    Bit(x0, 1) | Bit(x1, 2) | Bit(x2, 4) | Bit(x3, 8) | Bit(x4, 16) | Bit(x5, 32) | Bit(x6, 64) | Bit(x7, 128)
  }

  predicate OddNat(n: nat) { n % 2 == 1 }
  function Half(n: nat): nat { n / 2 }

  /** The byte that denotes `n`. */
  function ToByte(n: nat): byte
    requires n < 256
  {
    var n2 := Half(Half(n));
    var n4 := Half(Half(n2));
    var n6 := Half(Half(n4));
    FromBits(OddNat(n), OddNat(Half(n)), OddNat(n2), OddNat(Half(n2)), OddNat(n4), OddNat(Half(n4)), OddNat(n6), OddNat(Half(n6)))
  }

  lemma BitsJoin(x0: bool, x1: bool, x2: bool, x3: bool, x4: bool, x5: bool, x6: bool, x7: bool)
    ensures var b := FromBits(x0, x1, x2, x3, x4, x5, x6, x7);
            (b & 1 == 1) == x0 && (b & 2 == 2) == x1 && (b & 4 == 4) == x2 && (b & 8 == 8) == x3
            && (b & 16 == 16) == x4 && (b & 32 == 32) == x5 && (b & 64 == 64) == x6 && (b & 128 == 128) == x7
  {
  }

  lemma BitsSplit(b: byte)
    ensures b == FromBits(b & 1 == 1, b & 2 == 2, b & 4 == 4, b & 8 == 8,
                          b & 16 == 16, b & 32 == 32, b & 64 == 64, b & 128 == 128)
  {
  }

  lemma SplitTwo(n: nat)
    ensures n == Two(OddNat(n), OddNat(Half(n)), Half(Half(n)))
  {
  }

  lemma JoinDigit(x: bool, m: nat)
    ensures OddNat(Digit(x) + 2 * m) == x && Half(Digit(x) + 2 * m) == m
  {
  }

  lemma JoinTwo(x: bool, y: bool, m: nat)
    ensures var n := Two(x, y, m); OddNat(n) == x && OddNat(Half(n)) == y && Half(Half(n)) == m
  {
    hide OddNat, Half, Digit;
    JoinDigit(x, Digit(y) + 2 * m);
    JoinDigit(y, m);
  }

  lemma EightHalves(n: nat)
    requires n < 256
    ensures Half(Half(Half(Half(Half(Half(Half(Half(n)))))))) == 0
  {
  }

  lemma ByteValueOfToByte(n: nat)
    requires n < 256
    ensures ByteValue(ToByte(n)) == n
  {
    hide FromBits, OddNat, Half, Two;
    var n2 := Half(Half(n));
    var n4 := Half(Half(n2));
    var n6 := Half(Half(n4));
    BitsJoin(OddNat(n), OddNat(Half(n)), OddNat(n2), OddNat(Half(n2)), OddNat(n4), OddNat(Half(n4)), OddNat(n6), OddNat(Half(n6)));
    SplitTwo(n);
    SplitTwo(n2);
    SplitTwo(n4);
    SplitTwo(n6);
    EightHalves(n);
  }

  lemma ToByteOfBinary(x0: bool, x1: bool, x2: bool, x3: bool, x4: bool, x5: bool, x6: bool, x7: bool)
    ensures ToByte(Binary(x0, x1, x2, x3, x4, x5, x6, x7)) == FromBits(x0, x1, x2, x3, x4, x5, x6, x7)
  {
    hide FromBits, OddNat, Half, Two;
    var n6 := Two(x6, x7, 0);
    var n4 := Two(x4, x5, n6);
    var n2 := Two(x2, x3, n4);
    JoinTwo(x6, x7, 0);
    JoinTwo(x4, x5, n6);
    JoinTwo(x2, x3, n4);
    JoinTwo(x0, x1, n2);
  }

  lemma ByteOfByteValue(b: byte)
    ensures ToByte(ByteValue(b)) == b
  {
    hide FromBits, ToByte, Binary;
    BitsSplit(b);
    ToByteOfBinary(b & 1 == 1, b & 2 == 2, b & 4 == 4, b & 8 == 8, b & 16 == 16, b & 32 == 32, b & 64 == 64, b & 128 == 128);
  }

  function Byte0(w: word): byte { (w & 0xFF) as byte }
  function Byte1(w: word): byte { ((w >> 8) & 0xFF) as byte }
  function Byte2(w: word): byte { ((w >> 16) & 0xFF) as byte }
  function Byte3(w: word): byte { ((w >> 24) & 0xFF) as byte }

  /** The four bytes of `w`, least significant first. */
  function LeBytes(w: word): (s: seq<byte>)
    ensures |s| == 4
  {
    [Byte0(w), Byte1(w), Byte2(w), Byte3(w)]
  }

  function LeWord(b0: byte, b1: byte, b2: byte, b3: byte): word
  {
    (b0 as word) | ((b1 as word) << 8) | ((b2 as word) << 16) | ((b3 as word) << 24)
  }

  /** The little-endian word stored at `s[at..at + 4]`. */
  function WordAt(s: seq<byte>, at: nat): word
    requires at + 4 <= |s|
  {
    LeWord(s[at], s[at + 1], s[at + 2], s[at + 3])
  }

  /** The number four bytes denote in positional notation, least significant first. */
  function Positional(b0: byte, b1: byte, b2: byte, b3: byte): (n: nat)
    ensures n < 0x1_0000_0000
  {
    ByteValue(b0) + 256 * ByteValue(b1) + 65536 * ByteValue(b2) + 16777216 * ByteValue(b3)
  }

  /** The number a 32-bit word denotes. */
  function WordValue(w: word): (n: nat)
    ensures n < 0x1_0000_0000
  {
    Positional(Byte0(w), Byte1(w), Byte2(w), Byte3(w))
  }

  /** The 32-bit word that denotes `n`: a narrowing cast that loses nothing. */
  function ToWord(n: nat): word
    requires n < 0x1_0000_0000
  {
    LeWord(ToByte(n % 256), ToByte(n / 256 % 256), ToByte(n / 65536 % 256), ToByte(n / 16777216))
  }

  lemma BytesOfWord(b0: byte, b1: byte, b2: byte, b3: byte)
    ensures var w := LeWord(b0, b1, b2, b3); Byte0(w) == b0 && Byte1(w) == b1 && Byte2(w) == b2 && Byte3(w) == b3
  {
  }

  lemma WordOfBytes(w: word)
    ensures LeWord(Byte0(w), Byte1(w), Byte2(w), Byte3(w)) == w
  {
  }

  lemma DigitsOf(n: nat, d0: nat, d1: nat, d2: nat, d3: nat)
    requires d0 < 256 && d1 < 256 && d2 < 256 && d3 < 256
    requires n == d0 + 256 * d1 + 65536 * d2 + 16777216 * d3
    ensures d0 == n % 256 && d1 == n / 256 % 256 && d2 == n / 65536 % 256 && d3 == n / 16777216
  {
    assert n / 256 == d1 + 256 * d2 + 65536 * d3;
    assert n / 65536 == d2 + 256 * d3;
  }

  lemma WordValueOfToWord(n: nat)
    requires n < 0x1_0000_0000
    ensures WordValue(ToWord(n)) == n
  {
    hide LeWord, ToByte, ByteValue, Byte0, Byte1, Byte2, Byte3;
    var b0, b1, b2, b3 := ToByte(n % 256), ToByte(n / 256 % 256), ToByte(n / 65536 % 256), ToByte(n / 16777216);
    BytesOfWord(b0, b1, b2, b3);
    ByteValueOfToByte(n % 256);
    ByteValueOfToByte(n / 256 % 256);
    ByteValueOfToByte(n / 65536 % 256);
    ByteValueOfToByte(n / 16777216);
    assert Positional(b0, b1, b2, b3) == n by {
      assert n / 256 / 256 == n / 65536 && n / 65536 / 256 == n / 16777216;
    }
  }

  lemma ToWordOfWordValue(w: word)
    ensures ToWord(WordValue(w)) == w
  {
    hide LeWord, ToByte, ByteValue, Byte0, Byte1, Byte2, Byte3;
    DigitsOf(WordValue(w), ByteValue(Byte0(w)), ByteValue(Byte1(w)), ByteValue(Byte2(w)), ByteValue(Byte3(w)));
    ByteOfByteValue(Byte0(w));
    ByteOfByteValue(Byte1(w));
    ByteOfByteValue(Byte2(w));
    ByteOfByteValue(Byte3(w));
    WordOfBytes(w);
  }

  // ---- Counting on ----------------------------------------------------------------------------------

  lemma ByteNext(b: byte)
    ensures ByteValue(b + 1) == if b == 0xFF then 0 else ByteValue(b) + 1
    ensures b == 0xFF ==> ByteValue(b) == 255
  {
  }

  lemma LowBytesNext(w: word)
    ensures Byte0(w + 1) == Byte0(w) + 1
    ensures Byte1(w + 1) == if Byte0(w) == 0xFF then Byte1(w) + 1 else Byte1(w)
  {
  }

  lemma Byte2Next(w: word)
    ensures Byte2(w + 1) == if Byte0(w) == 0xFF && Byte1(w) == 0xFF then Byte2(w) + 1 else Byte2(w)
  {
  }

  lemma Byte3Next(w: word)
    ensures Byte3(w + 1) == if Byte0(w) == 0xFF && Byte1(w) == 0xFF && Byte2(w) == 0xFF then Byte3(w) + 1 else Byte3(w)
  {
  }

  /** A word that is counted on denotes the next number, or wraps to zero. */
  lemma WordNext(w: word)
    ensures WordValue(w + 1) == (WordValue(w) + 1) % 0x1_0000_0000
  {
    LowBytesNext(w);
    Byte2Next(w);
    Byte3Next(w);
    ByteNext(Byte0(w));
    ByteNext(Byte1(w));
    ByteNext(Byte2(w));
    ByteNext(Byte3(w));
    hide ByteValue, Byte0, Byte1, Byte2, Byte3;
  }

  /** The number that a word denotes after it has been counted on n times. */
  function Later(start: word, n: nat): nat { (WordValue(start) + n) % 0x1_0000_0000 }

  lemma LaterNext(start: word, n: nat)
    ensures Later(start, 0) == WordValue(start) && Later(start + 1, n) == Later(start, n + 1)
  {
    WordNext(start);
    var (w, m) := (WordValue(start), 0x1_0000_0000);
    hide WordValue;
    assert (w + 1) % m == if w + 1 == m then 0 else w + 1;
    assert w + 1 == m ==> (w + (n + 1)) % m == (n + m) % m == n % m;
  }

  lemma LaterFrom(start: word, next: word)
    requires next == start + 1
    ensures Later(start, 0) == WordValue(start)
    ensures forall n: nat :: Later(next, n) == Later(start, n + 1)
  {
    LaterNext(start, 0);
    forall n: nat
      ensures Later(next, n) == Later(start, n + 1)
    {
      LaterNext(start, n);
    }
  }
}
