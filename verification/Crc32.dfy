/** CRC-32/ISO-HDLC: the 32-bit FCS of appendix C.3 of RFC 1662. */
module Crc32 {
  import opened Words

  const POLYNOMIAL: word := 0xEDB88320
  const INITIAL: word := 0xFFFF_FFFF
  const FINAL_XOR: word := 0xFFFF_FFFF

  // ---- Reference: polynomial long division over GF(2) ----------------------------------

  /** The low 32 coefficients of the generator 0x04C11DB7, highest degree first; the
      coefficient of x^32 is 1 and not listed. */
  const GENERATOR: seq<bool> :=
    [false, false, false, false, false, true, false, false, true, true, false, false, false, false, false, true,
     false, false, false, true, true, true, false, true, true, false, true, true, false, true, true, true]

  /** Coefficientwise sum of `p` and `q`, aligned at the highest degree. */
  function AddLeading(p: seq<bool>, q: seq<bool>): (r: seq<bool>)
    requires |q| <= |p|
    ensures |r| == |p|
  {
    seq(|p|, i requires 0 <= i < |p| => if i < |q| then p[i] != q[i] else p[i])
  }

  /** The remainder of dividing polynomial `p` (highest degree first) by the generator. */
  function Remainder(p: seq<bool>): seq<bool>
    decreases |p|
  {
    if |p| <= 32 then p
    else if p[0] then Remainder(AddLeading(p[1..], GENERATOR))
    else Remainder(p[1..])
  }

  function Zeros(n: nat): (s: seq<bool>)
    ensures |s| == n && forall i :: 0 <= i < n ==> !s[i]
  {
    seq(n, i => false)
  }

  /** The bits of a byte in transmission order: least significant first. */
  function ByteBits(b: byte): (s: seq<bool>)
    ensures |s| == 8
  {
    [b & 1 == 1, b & 2 == 2, b & 4 == 4, b & 8 == 8, b & 16 == 16, b & 32 == 32, b & 64 == 64, b & 128 == 128]
  }

  function MessageBits(data: seq<byte>): (s: seq<bool>)
    ensures |s| == 8 * |data|
  {
    if data == [] then [] else ByteBits(data[0]) + MessageBits(data[1..])
  }

  // Register operations, named so that proofs can use their algebra without their bits.
  function Xor(a: word, b: word): word { a ^ b }
  function Down1(a: word): word { a >> 1 }
  function Down2(a: word): word { a >> 2 }
  function Down4(a: word): word { a >> 4 }
  function Down8(a: word): word { a >> 8 }
  function Up1(a: word): word { a << 1 }
  predicate Odd(a: word) { a & 1 == 1 }
  function Widen(b: byte): word { b as word }

  /** Bit `i` of a register, counted from the low end. */
  predicate BitOf(w: word, i: nat)
  {
    if i == 0 then Odd(w) else BitOf(Down1(w), i - 1)
  }

  /** A register as coefficients, highest degree first: the register is bit-reversed. */
  function RegisterBits(w: word): (s: seq<bool>)
    ensures |s| == 32
  {
    seq(32, i requires 0 <= i < 32 => BitOf(w, i))
  }

  /** The dividend: the message times x^32, with the register added to its leading terms. */
  function Dividend(crc: word, bits: seq<bool>): (p: seq<bool>)
    ensures |p| == |bits| + 32
  {
    AddLeading(bits + Zeros(32), RegisterBits(crc))
  }

  // ---- The register and the bytewise form -----------------------------------------------

  /** One turn of the inner loop that generates the table (appendix C.1 of RFC 1662). */
  function Shift(c: word): word
  {
    if Odd(c) then Xor(POLYNOMIAL, Down1(c)) else Down1(c)
  }

  function Shift2(c: word): word { Shift(Shift(c)) }
  function Shift4(c: word): word { Shift2(Shift2(c)) }
  function Shift8(c: word): word { Shift4(Shift4(c)) }

  function Shifts(c: word, n: nat): word
  {
    if n == 0 then c else Shift(Shifts(c, n - 1))
  }

  /** Consuming one byte: the specification of one turn of the update loop. */
  function Consume(crc: word, b: byte): word
  {
    Shift8(Xor(crc, Widen(b)))
  }

  /** Consuming a message, byte after byte. */
  function Update(crc: word, data: seq<byte>): word
    decreases |data|
  {
    if data == [] then crc else Update(Consume(crc, data[0]), data[1..])
  }

  function Checksum(data: seq<byte>): word
  {
    Xor(Update(INITIAL, data), FINAL_XOR)
  }

  // ---- Register algebra --------------------------------------------------------------------

  lemma XorAssociates(a: word, b: word, c: word)
    ensures Xor(a, Xor(b, c)) == Xor(Xor(a, b), c)
  {
  }

  lemma XorCommutes(a: word, b: word)
    ensures Xor(a, b) == Xor(b, a)
  {
  }

  lemma XorTwice(a: word, b: word)
    ensures Xor(Xor(a, b), b) == a
  {
  }

  lemma XorShifted(a: word, b: word)
    ensures Down1(Xor(a, b)) == Xor(Down1(a), Down1(b))
    ensures Odd(Xor(a, b)) == (Odd(a) != Odd(b))
  {
  }

  lemma Down1Twice(d: word)
    ensures Down1(Down1(d)) == Down2(d)
  {
  }

  lemma Down2Twice(d: word)
    ensures Down2(Down2(d)) == Down4(d)
  {
  }

  lemma Down4Twice(d: word)
    ensures Down4(Down4(d)) == Down8(d)
  {
  }

  lemma ClearLow(d: word)
    requires d & 0xFF == 0
    ensures d & 15 == 0 && Down4(d) & 15 == 0
  {
  }

  lemma ClearLow4(d: word)
    requires d & 15 == 0
    ensures d & 3 == 0 && Down2(d) & 3 == 0
  {
  }

  lemma ClearLow2(d: word)
    requires d & 3 == 0
    ensures !Odd(d) && !Odd(Down1(d))
  {
  }

  /** Bits above the lowest ride along under one shift. */
  lemma ShiftSplits(c: word, d: word)
    requires !Odd(d)
    ensures Shift(Xor(c, d)) == Xor(Shift(c), Down1(d))
  {
    hide Xor, Down1, Odd;
    XorShifted(c, d);
    XorAssociates(POLYNOMIAL, Down1(c), Down1(d));
  }

  lemma Shift2Splits(c: word, d: word)
    requires d & 3 == 0
    ensures Shift2(Xor(c, d)) == Xor(Shift2(c), Down2(d))
  {
    hide Xor, Down1, Down2, Odd, Shift;
    ClearLow2(d);
    ShiftSplits(c, d);
    ShiftSplits(Shift(c), Down1(d));
    Down1Twice(d);
  }

  lemma Shift4Splits(c: word, d: word)
    requires d & 15 == 0
    ensures Shift4(Xor(c, d)) == Xor(Shift4(c), Down4(d))
  {
    hide Xor, Down1, Down2, Down4, Shift2;
    ClearLow4(d);
    Shift2Splits(c, d);
    Shift2Splits(Shift2(c), Down2(d));
    Down2Twice(d);
  }

  /** Eight shifts move the bits above the low byte down one byte. */
  lemma Shift8Splits(c: word, d: word)
    requires d & 0xFF == 0
    ensures Shift8(Xor(c, d)) == Xor(Shift8(c), Down8(d))
  {
    hide Xor, Down1, Down2, Down4, Down8, Shift4;
    ClearLow(d);
    Shift4Splits(c, d);
    Shift4Splits(Shift4(c), Down4(d));
    Down4Twice(d);
  }

  // ---- The bytewise form is long division -----------------------------------------------

  function Feed(crc: word, bit: bool): word
  {
    Shift(if bit then Xor(crc, 1) else crc)
  }

  function FeedAll(crc: word, bits: seq<bool>): word
    decreases |bits|
  {
    if bits == [] then crc else FeedAll(Feed(crc, bits[0]), bits[1..])
  }

  lemma {:induction false} FeedAllConcat(crc: word, a: seq<bool>, b: seq<bool>)
    ensures FeedAll(crc, a + b) == FeedAll(FeedAll(crc, a), b)
    decreases |a|
  {
    hide Feed;
    if a == [] {
      assert a + b == b;
    } else {
      assert (a + b)[1..] == a[1..] + b;
      FeedAllConcat(Feed(crc, a[0]), a[1..], b);
    }
  }

  function DownByte(b: byte): byte { b >> 1 }
  predicate OddByte(b: byte) { b & 1 == 1 }

  lemma WidenSplits(b: byte)
    ensures Widen(b) == Xor(if OddByte(b) then 1 else 0, Widen(b) & 0xFE)
    ensures !Odd(Widen(b) & 0xFE) && Down1(Widen(b) & 0xFE) == Widen(DownByte(b))
  {
  }

  lemma XorZero(a: word)
    ensures Xor(a, 0) == a
  {
  }

  /** Shifting a register with a byte added feeds the byte's lowest bit and keeps the rest. */
  lemma FeedIsShift(c: word, b: byte)
    ensures Shift(Xor(c, Widen(b))) == Xor(Feed(c, OddByte(b)), Widen(DownByte(b)))
  {
    hide Xor, Widen, Odd, OddByte, DownByte, Shift, Down1;
    WidenSplits(b);
    var low: word := if OddByte(b) then 1 else 0;
    XorAssociates(c, low, Widen(b) & 0xFE);
    XorZero(c);
    ShiftSplits(Xor(c, low), Widen(b) & 0xFE);
  }

  lemma BitsOfByte(b: byte)
    ensures var b1 := DownByte(b); var b2 := DownByte(b1); var b3 := DownByte(b2); var b4 := DownByte(b3);
            var b5 := DownByte(b4); var b6 := DownByte(b5); var b7 := DownByte(b6);
            ByteBits(b) == [OddByte(b), OddByte(b1), OddByte(b2), OddByte(b3),
                            OddByte(b4), OddByte(b5), OddByte(b6), OddByte(b7)]
            && Widen(DownByte(b7)) == 0
  {
  }

  lemma FeedFour(crc: word, s: seq<bool>)
    requires |s| >= 4
    ensures FeedAll(crc, s) == FeedAll(Feed(Feed(Feed(Feed(crc, s[0]), s[1]), s[2]), s[3]), s[4..])
  {
    hide Feed;
    var c1 := Feed(crc, s[0]);
    var c2 := Feed(c1, s[1]);
    var c3 := Feed(c2, s[2]);
    assert s[1..][1..] == s[2..] && s[2..][1..] == s[3..] && s[3..][1..] == s[4..];
    assert FeedAll(crc, s) == FeedAll(c1, s[1..]) == FeedAll(c2, s[2..]) == FeedAll(c3, s[3..]);
  }

  lemma FeedEight(crc: word, s: seq<bool>)
    requires |s| == 8
    ensures FeedAll(crc, s) ==
            Feed(Feed(Feed(Feed(Feed(Feed(Feed(Feed(crc, s[0]), s[1]), s[2]), s[3]), s[4]), s[5]), s[6]), s[7])
  {
    FeedFour(crc, s);
    FeedFour(Feed(Feed(Feed(Feed(crc, s[0]), s[1]), s[2]), s[3]), s[4..]);
    hide Feed;
    assert s[4..][4..] == [];
  }

  lemma FeedByte(crc: word, b: byte)
    ensures FeedAll(crc, ByteBits(b)) == Consume(crc, b)
  {
    hide Feed, FeedAll, Shift, Xor, Widen, DownByte, OddByte, ByteBits;
    var b1 := DownByte(b);
    var b2 := DownByte(b1);
    var b3 := DownByte(b2);
    var b4 := DownByte(b3);
    var b5 := DownByte(b4);
    var b6 := DownByte(b5);
    var b7 := DownByte(b6);
    var c1 := Feed(crc, OddByte(b));
    var c2 := Feed(c1, OddByte(b1));
    var c3 := Feed(c2, OddByte(b2));
    var c4 := Feed(c3, OddByte(b3));
    var c5 := Feed(c4, OddByte(b4));
    var c6 := Feed(c5, OddByte(b5));
    var c7 := Feed(c6, OddByte(b6));
    FeedIsShift(crc, b);
    FeedIsShift(c1, b1);
    FeedIsShift(c2, b2);
    FeedIsShift(c3, b3);
    FeedIsShift(c4, b4);
    FeedIsShift(c5, b5);
    FeedIsShift(c6, b6);
    FeedIsShift(c7, b7);
    BitsOfByte(b);
    XorZero(Feed(c7, OddByte(b7)));
    FeedEight(crc, ByteBits(b));
  }

  lemma FeedNothing(crc: word)
    ensures FeedAll(crc, []) == crc
  {
  }

  lemma {:induction false} UpdateIsFeedAll(crc: word, data: seq<byte>)
    ensures Update(crc, data) == FeedAll(crc, MessageBits(data))
    decreases |data|
  {
    hide Consume, Feed, FeedAll, ByteBits;
    if data != [] {
      FeedAllConcat(crc, ByteBits(data[0]), MessageBits(data[1..]));
      FeedByte(crc, data[0]);
      UpdateIsFeedAll(Consume(crc, data[0]), data[1..]);
    } else {
      FeedNothing(crc);
    }
  }

  lemma {:induction false} BitOfXor(a: word, b: word, i: nat)
    ensures BitOf(Xor(a, b), i) == (BitOf(a, i) != BitOf(b, i))
    decreases i
  {
    hide Xor, Odd, Down1;
    XorShifted(a, b);
    if i > 0 {
      BitOfXor(Down1(a), Down1(b), i - 1);
    }
  }

  lemma BitOfDown8(c: word, i: nat)
    requires i >= 8
    ensures BitOf(c, i) == BitOf(Down8(c), i - 8)
  {
    hide Odd, Down1, Down2, Down4, Down8;
    var d2 := Down2(c);
    var d4 := Down4(c);
    var d6 := Down2(d4);
    Down1Twice(c);
    Down1Twice(d2);
    Down1Twice(d4);
    Down1Twice(d6);
    Down2Twice(c);
    Down2Twice(d4);
    Down4Twice(c);
    assert BitOf(c, i) == BitOf(Down1(c), i - 1) == BitOf(d2, i - 2);
    assert BitOf(d2, i - 2) == BitOf(Down1(d2), i - 3) == BitOf(d4, i - 4);
    assert BitOf(d4, i - 4) == BitOf(Down1(d4), i - 5) == BitOf(d6, i - 6);
    assert BitOf(d6, i - 6) == BitOf(Down1(d6), i - 7) == BitOf(Down2(d6), i - 8);
  }

  lemma FourDown8(c: word)
    ensures Down8(Down8(Down8(Down8(c)))) == 0
  {
  }

  lemma NoBit32(c: word)
    ensures !BitOf(c, 32)
  {
    hide Down8;
    BitOfDown8(c, 32);
    BitOfDown8(Down8(c), 24);
    BitOfDown8(Down8(Down8(c)), 16);
    BitOfDown8(Down8(Down8(Down8(c))), 8);
    FourDown8(c);
  }

  lemma {:induction false} ZeroBits(i: nat)
    ensures !BitOf(0, i)
  {
    if i > 0 {
      ZeroBits(i - 1);
    }
  }

  lemma LowFour(w: word)
    ensures var w1 := Down1(w); var w2 := Down1(w1); var w3 := Down1(w2);
            && BitOf(w, 0) == Odd(w) && BitOf(w, 1) == Odd(w1) && BitOf(w, 2) == Odd(w2) && BitOf(w, 3) == Odd(w3)
            && forall i: nat :: BitOf(w, i + 4) == BitOf(Down1(w3), i)
  {
    hide Odd, Down1;
    var w1 := Down1(w);
    var w2 := Down1(w1);
    var w3 := Down1(w2);
    assert BitOf(w, 1) == BitOf(w1, 0);
    assert BitOf(w, 2) == BitOf(w1, 1) == BitOf(w2, 0);
    assert BitOf(w, 3) == BitOf(w1, 2) == BitOf(w2, 1) == BitOf(w3, 0);
    forall i: nat
      ensures BitOf(w, i + 4) == BitOf(Down1(w3), i)
    {
      assert BitOf(w, i + 4) == BitOf(w1, i + 3) == BitOf(w2, i + 2) == BitOf(w3, i + 1);
    }
  }

  /** The eight low bits of a register. */
  lemma LowBits(w: word)
    ensures var w1 := Down1(w); var w2 := Down1(w1); var w3 := Down1(w2); var w4 := Down1(w3);
            var w5 := Down1(w4); var w6 := Down1(w5); var w7 := Down1(w6);
            BitOf(w, 0) == Odd(w) && BitOf(w, 1) == Odd(w1) && BitOf(w, 2) == Odd(w2) && BitOf(w, 3) == Odd(w3)
            && BitOf(w, 4) == Odd(w4) && BitOf(w, 5) == Odd(w5) && BitOf(w, 6) == Odd(w6) && BitOf(w, 7) == Odd(w7)
  {
    hide Odd, Down1, BitOf;
    var w4 := Down1(Down1(Down1(Down1(w))));
    LowFour(w);
    LowFour(w4);
    assert BitOf(w, 0 + 4) == BitOf(w4, 0) && BitOf(w, 1 + 4) == BitOf(w4, 1);
    assert BitOf(w, 2 + 4) == BitOf(w4, 2) && BitOf(w, 3 + 4) == BitOf(w4, 3);
  }

  lemma RegisterOfPolynomial()
    ensures RegisterBits(POLYNOMIAL) == GENERATOR
  {
    var p1: word, p2: word, p3: word := 0xED_B883, 0xEDB8, 0xED;
    assert Down8(POLYNOMIAL) == p1 && Down8(p1) == p2 && Down8(p2) == p3;
    LowBits(POLYNOMIAL);
    LowBits(p1);
    LowBits(p2);
    LowBits(p3);
    forall i | 0 <= i < 32
      ensures BitOf(POLYNOMIAL, i) == GENERATOR[i]
    {
      if i >= 8 {
        BitOfDown8(POLYNOMIAL, i);
        if i >= 16 {
          BitOfDown8(p1, i - 8);
          if i >= 24 {
            BitOfDown8(p2, i - 16);
          }
        }
      }
    }
  }

  lemma OneBits(i: nat)
    ensures BitOf(1, i) == (i == 0)
  {
    if i > 0 {
      ZeroBits(i - 1);
    }
  }

  /** Feeding a bit adds it to the register, and shifts: coefficient by coefficient. */
  lemma FeedBits(crc: word, bit: bool, i: nat)
    requires i < 32
    ensures var lead := Odd(crc) != bit;
            BitOf(Feed(crc, bit), i)
            == ((i + 1 < 32 && BitOf(crc, i + 1)) != (lead && GENERATOR[i]))
  {
    hide Xor, Odd, Down1, GENERATOR;
    var c := if bit then Xor(crc, 1) else crc;
    BitOfXor(crc, 1, 0);
    OneBits(0);
    assert Odd(c) == BitOf(c, 0) == (Odd(crc) != bit);
    BitOfXor(crc, 1, i + 1);
    OneBits(i + 1);
    assert BitOf(Down1(c), i) == BitOf(c, i + 1) == BitOf(crc, i + 1);
    NoBit32(crc);
    RegisterOfPolynomial();
    assert RegisterBits(POLYNOMIAL)[i] == BitOf(POLYNOMIAL, i);
    BitOfXor(POLYNOMIAL, Down1(c), i);
  }

  /** One register step is one step of the long division. */
  lemma DivisionStep(crc: word, bits: seq<bool>)
    requires bits != []
    ensures Remainder(Dividend(crc, bits)) == Remainder(Dividend(Feed(crc, bits[0]), bits[1..]))
  {
    assert |GENERATOR| == 32;
    hide Feed, Odd, BitOf, GENERATOR;
    var p := Dividend(crc, bits);
    LowFour(crc);
    assert p[0] == (Odd(crc) != bits[0]);
    var q := if p[0] then AddLeading(p[1..], GENERATOR) else p[1..];
    var r := Dividend(Feed(crc, bits[0]), bits[1..]);
    forall i | 0 <= i < |q|
      ensures q[i] == r[i]
    {
      assert (bits + Zeros(32))[i + 1] == (bits[1..] + Zeros(32))[i];
      if i < 32 {
        FeedBits(crc, bits[0], i);
      }
    }
    assert q == r;
  }

  lemma {:induction false} FeedAllDivides(crc: word, bits: seq<bool>)
    ensures RegisterBits(FeedAll(crc, bits)) == Remainder(Dividend(crc, bits))
    decreases |bits|
  {
    hide Feed, RegisterBits;
    if bits == [] {
      assert Dividend(crc, bits) == RegisterBits(crc);
    } else {
      DivisionStep(crc, bits);
      FeedAllDivides(Feed(crc, bits[0]), bits[1..]);
    }
  }

  /** Consuming a message leaves the remainder of dividing it, shifted up by 32 places and with
      the starting register added to its leading terms, by the generator polynomial. */
  lemma UpdateDivides(crc: word, data: seq<byte>)
    ensures RegisterBits(Update(crc, data)) == Remainder(Dividend(crc, MessageBits(data)))
  {
    hide *;
    UpdateIsFeedAll(crc, data);
    FeedAllDivides(crc, MessageBits(data));
  }

  // ---- Chaining, and injectivity ------------------------------------------------------------

  /** Chaining two updates equals one update over the concatenation. */
  lemma {:induction false} UpdateConcat(crc: word, a: seq<byte>, b: seq<byte>)
    ensures Update(crc, a + b) == Update(Update(crc, a), b)
    decreases |a|
  {
    hide Consume;
    if a == [] {
      assert a + b == b;
    } else {
      assert (a + b)[1..] == a[1..] + b;
      UpdateConcat(Consume(crc, a[0]), a[1..], b);
    }
  }

  lemma TopOfShift(c: word)
    ensures Odd(c) == (Shift(c) & 0x8000_0000 == 0x8000_0000)
  {
  }

  lemma Down1Injective(c: word, d: word)
    requires Down1(c) == Down1(d) && Odd(c) == Odd(d)
    ensures c == d
  {
  }

  lemma XorCancels(a: word, v: word, w: word)
    ensures Xor(a, v) == Xor(a, w) ==> v == w
  {
    hide Xor;
    XorCommutes(a, v);
    XorCommutes(a, w);
    XorTwice(v, a);
    XorTwice(w, a);
  }

  lemma ShiftInjective(c: word, d: word)
    requires Shift(c) == Shift(d)
    ensures c == d
  {
    hide Xor, Down1, Odd;
    TopOfShift(c);
    TopOfShift(d);
    XorCancels(POLYNOMIAL, Down1(c), Down1(d));
    Down1Injective(c, d);
  }

  lemma Shift8Injective(c: word, d: word)
    requires Shift8(c) == Shift8(d)
    ensures c == d
  {
    hide Shift;
    ShiftInjective(Shift(Shift2(Shift4(c))), Shift(Shift2(Shift4(d))));
    ShiftInjective(Shift2(Shift4(c)), Shift2(Shift4(d)));
    ShiftInjective(Shift(Shift4(c)), Shift(Shift4(d)));
    ShiftInjective(Shift4(c), Shift4(d));
    ShiftInjective(Shift(Shift2(c)), Shift(Shift2(d)));
    ShiftInjective(Shift2(c), Shift2(d));
    ShiftInjective(Shift(c), Shift(d));
    ShiftInjective(c, d);
  }

  lemma ConsumeInjective(c: word, d: word, b: byte)
    requires Consume(c, b) == Consume(d, b)
    ensures c == d
  {
    hide Shift8, Xor, Widen;
    Shift8Injective(Xor(c, Widen(b)), Xor(d, Widen(b)));
    XorTwice(c, Widen(b));
    XorTwice(d, Widen(b));
  }

  /** Every later byte is injective in the register. */
  lemma {:induction false} UpdateInjectiveInRegister(c: word, d: word, data: seq<byte>)
    requires Update(c, data) == Update(d, data)
    ensures c == d
    decreases |data|
  {
    hide Consume;
    if data != [] {
      UpdateInjectiveInRegister(Consume(c, data[0]), Consume(d, data[0]), data[1..]);
      ConsumeInjective(c, d, data[0]);
    }
  }

  // ---- Error detection ----------------------------------------------------------------------

  lemma FeedInjective(c: word, d: word, bit: bool)
    requires Feed(c, bit) == Feed(d, bit)
    ensures c == d
  {
    hide Xor, Shift;
    ShiftInjective(if bit then Xor(c, 1) else c, if bit then Xor(d, 1) else d);
    XorTwice(c, 1);
    XorTwice(d, 1);
  }

  lemma {:induction false} FeedAllInjective(c: word, d: word, bits: seq<bool>)
    requires FeedAll(c, bits) == FeedAll(d, bits)
    ensures c == d
    decreases |bits|
  {
    hide Feed;
    if bits != [] {
      FeedAllInjective(Feed(c, bits[0]), Feed(d, bits[0]), bits[1..]);
      FeedInjective(c, d, bits[0]);
    }
  }

  /** Up to 32 bits as a register, the first bit lowest. */
  function WordOf(bits: seq<bool>): word
  {
    if bits == [] then 0 else Xor(if bits[0] then 1 else 0, Up1(WordOf(bits[1..])))
  }

  /** The register is zero above its lowest n bits. */
  predicate Within(w: word, n: nat)
  {
    if n == 0 then w == 0 else Within(Down1(w), n - 1)
  }

  lemma {:induction false} WithinBits(w: word, n: nat, i: nat)
    requires Within(w, n) && n <= i
    ensures !BitOf(w, i)
    decreases i
  {
    hide Odd, Down1;
    if n == 0 {
      ZeroBits(i);
    } else {
      WithinBits(Down1(w), n - 1, i - 1);
    }
  }

  lemma SeventhOdd(w: word)
    ensures Odd(Down1(Down1(Down1(Down1(Down1(Down1(Down1(Down8(Down8(Down8(w)))))))))))
            || Down1(Up1(w)) == w
  {
  }

  lemma TopBit(w: word)
    requires !BitOf(w, 31)
    ensures Down1(Up1(w)) == w
  {
    BitOfDown8(w, 31);
    BitOfDown8(Down8(w), 23);
    BitOfDown8(Down8(Down8(w)), 15);
    LowBits(Down8(Down8(Down8(w))));
    SeventhOdd(w);
    hide BitOf, Down1, Up1, Down8, Odd;
  }

  lemma FirstBit(b: bool, w: word)
    ensures var x := Xor(if b then 1 else 0, Up1(w)); Odd(x) == b && Down1(x) == Down1(Up1(w))
    ensures !Odd(Up1(w))
  {
  }

  /** A word of at most 32 bits has its bits below them only, and shifting it down drops the first. */
  lemma {:induction false} WordOfWithin(bits: seq<bool>)
    requires |bits| <= 32
    ensures Within(WordOf(bits), |bits|)
    ensures bits != [] ==> Down1(WordOf(bits)) == WordOf(bits[1..]) && Odd(WordOf(bits)) == bits[0]
                           && Down1(Up1(WordOf(bits[1..]))) == WordOf(bits[1..])
  {
    if bits != [] {
      var rest := bits[1..];
      WordOfWithin(rest);
      WithinBits(WordOf(rest), |rest|, 31);
      TopBit(WordOf(rest));
      FirstBit(bits[0], WordOf(rest));
    }
  }

  lemma {:induction false} WordOfInjective(a: seq<bool>, b: seq<bool>)
    requires |a| == |b| <= 32 && WordOf(a) == WordOf(b)
    ensures a == b
  {
    hide Xor, Up1, Down1, Odd, WordOf;
    if a != [] {
      WordOfWithin(a);
      WordOfWithin(b);
      WordOfInjective(a[1..], b[1..]);
      assert a == [a[0]] + a[1..] && b == [b[0]] + b[1..];
    }
  }

  lemma {:induction false} ShiftsFirst(c: word, n: nat)
    requires n > 0
    ensures Shifts(c, n) == Shifts(Shift(c), n - 1)
  {
    hide Shift;
    if n > 1 {
      ShiftsFirst(c, n - 1);
    }
  }

  /** Up to 32 bits enter the register as one word. */
  lemma {:induction false} FeedAllIsShifts(c: word, bits: seq<bool>)
    requires |bits| <= 32
    ensures FeedAll(c, bits) == Shifts(Xor(c, WordOf(bits)), |bits|)
    decreases |bits|
  {
    hide Xor, Up1, Down1, Odd, Shift;
    if bits == [] {
      XorZero(c);
    } else {
      var (low, rest) := (if bits[0] then 1 else 0 as word, WordOf(bits[1..]));
      FeedAllIsShifts(Feed(c, bits[0]), bits[1..]);
      WordOfWithin(bits);
      FirstBit(bits[0], rest);
      XorZero(c);
      XorAssociates(c, low, Up1(rest));
      ShiftSplits(Xor(c, low), Up1(rest));
      assert Shift(Xor(c, WordOf(bits))) == Xor(Feed(c, bits[0]), rest);
      ShiftsFirst(Xor(c, WordOf(bits)), |bits|);
    }
  }

  lemma {:induction false} ShiftsInjective(c: word, d: word, n: nat)
    requires Shifts(c, n) == Shifts(d, n)
    ensures c == d
  {
    hide Shift;
    if n > 0 {
      ShiftInjective(Shifts(c, n - 1), Shifts(d, n - 1));
      ShiftsInjective(c, d, n - 1);
    }
  }

  /** From one register, different strings of up to 32 bits lead to different registers. */
  lemma FeedAllInjectiveInBits(c: word, a: seq<bool>, b: seq<bool>)
    requires |a| == |b| <= 32 && FeedAll(c, a) == FeedAll(c, b)
    ensures a == b
  {
    hide FeedAll, Shifts, Xor, WordOf;
    FeedAllIsShifts(c, a);
    FeedAllIsShifts(c, b);
    ShiftsInjective(Xor(c, WordOf(a)), Xor(c, WordOf(b)), |a|);
    XorCancels(c, WordOf(a), WordOf(b));
    WordOfInjective(a, b);
  }

  lemma BitsTell(b: byte, c: byte)
    requires (b & 1 == 1) == (c & 1 == 1) && (b & 2 == 2) == (c & 2 == 2) && (b & 4 == 4) == (c & 4 == 4)
             && (b & 8 == 8) == (c & 8 == 8) && (b & 16 == 16) == (c & 16 == 16) && (b & 32 == 32) == (c & 32 == 32)
             && (b & 64 == 64) == (c & 64 == 64) && (b & 128 == 128) == (c & 128 == 128)
    ensures b == c
  {
  }

  lemma ByteBitsInjective(b: byte, c: byte)
    requires ByteBits(b) == ByteBits(c)
    ensures b == c
  {
    BitsTell(b, c);
    var (p, q) := (ByteBits(b), ByteBits(c));
    assert p[0] == q[0] && p[1] == q[1] && p[2] == q[2] && p[3] == q[3];
    assert p[4] == q[4] && p[5] == q[5] && p[6] == q[6] && p[7] == q[7];
  }

  /** Where the bits of each byte stand in the message. */
  lemma {:induction false} BitsOfMessage(data: seq<byte>, i: nat)
    requires i < |data|
    ensures MessageBits(data)[8 * i..8 * i + 8] == ByteBits(data[i])
  {
    hide ByteBits;
    var (first, rest) := (ByteBits(data[0]), MessageBits(data[1..]));
    if i == 0 {
      assert (first + rest)[0..8] == first;
    } else {
      BitsOfMessage(data[1..], i - 1);
      assert (first + rest)[8 * i..8 * i + 8] == rest[8 * (i - 1)..8 * (i - 1) + 8];
    }
  }

  lemma SameBitsSameByte(s: seq<byte>, t: seq<byte>, i: nat)
    requires |s| == |t| && i < |s|
    requires forall j :: 8 * i <= j < 8 * i + 8 ==> MessageBits(s)[j] == MessageBits(t)[j]
    ensures s[i] == t[i]
  {
    hide ByteBits, MessageBits;
    BitsOfMessage(s, i);
    BitsOfMessage(t, i);
    assert MessageBits(s)[8 * i..8 * i + 8] == MessageBits(t)[8 * i..8 * i + 8];
    ByteBitsInjective(s[i], t[i]);
  }

  lemma SameByteSameBit(s: seq<byte>, t: seq<byte>, i: nat)
    requires |s| == |t| && i < 8 * |s| && s[i / 8] == t[i / 8]
    ensures MessageBits(s)[i] == MessageBits(t)[i]
  {
    hide ByteBits, MessageBits;
    BitsOfMessage(s, i / 8);
    BitsOfMessage(t, i / 8);
    var at := i / 8 * 8;
    assert MessageBits(s)[i] == MessageBits(s)[at..at + 8][i % 8];
    assert MessageBits(t)[i] == MessageBits(t)[at..at + 8][i % 8];
  }

  lemma MessageBitsInjective(s: seq<byte>, t: seq<byte>)
    requires |s| == |t| && MessageBits(s) == MessageBits(t)
    ensures s == t
  {
    hide MessageBits;
    forall i | 0 <= i < |s|
      ensures s[i] == t[i]
    {
      SameBitsSameByte(s, t, i);
    }
  }

  /** `s` and `t` have one length and agree, bit by bit in transmission order, outside the 32 bits from
      `k` on. These may lie across five bytes. */
  ghost predicate DifferOnlyInBits(s: seq<byte>, t: seq<byte>, k: nat)
  {
    |s| == |t| && forall i :: 0 <= i < 8 * |s| && !(k <= i < k + 32) ==> MessageBits(s)[i] == MessageBits(t)[i]
  }

  /** Error detection: two messages that differ only within 32 consecutive bits have different CRCs,
      whatever the starting register and whatever surrounds the change. */
  lemma BurstChangesUpdate(c: word, s: seq<byte>, t: seq<byte>, k: nat)
    requires DifferOnlyInBits(s, t, k) && s != t
    ensures Update(c, s) != Update(c, t)
  {
    hide Update, FeedAll, MessageBits;
    var (a, b) := (MessageBits(s), MessageBits(t));
    UpdateIsFeedAll(c, s);
    UpdateIsFeedAll(c, t);
    var lo := if k < |a| then k else |a|;
    var hi := if k + 32 < |a| then k + 32 else |a|;
    assert a[..lo] == b[..lo] && a[hi..] == b[hi..];
    assert a == a[..lo] + (a[lo..hi] + a[hi..]) && b == b[..lo] + (b[lo..hi] + b[hi..]);
    FeedAllConcat(c, a[..lo], a[lo..hi] + a[hi..]);
    FeedAllConcat(c, b[..lo], b[lo..hi] + b[hi..]);
    var d := FeedAll(c, a[..lo]);
    FeedAllConcat(d, a[lo..hi], a[hi..]);
    FeedAllConcat(d, b[lo..hi], b[hi..]);
    if Update(c, s) == Update(c, t) {
      FeedAllInjective(FeedAll(d, a[lo..hi]), FeedAll(d, b[lo..hi]), a[hi..]);
      FeedAllInjectiveInBits(d, a[lo..hi], b[lo..hi]);
      MessageBitsInjective(s, t);
      assert false;
    }
  }

  /** In particular four bytes can be told from the register they lead to. */
  lemma UpdateInjectiveInFour(c: word, s: seq<byte>, t: seq<byte>)
    requires |s| == |t| == 4
    requires Update(c, s) == Update(c, t)
    ensures s == t
  {
    hide Update, MessageBits;
    if s != t {
      BurstChangesUpdate(c, s, t, 0);
    }
  }

  /** Changes within four consecutive bytes are changes within 32 consecutive bits. */
  lemma FourBytesAreBits(s: seq<byte>, t: seq<byte>, k: nat)
    requires |s| == |t| && forall i :: 0 <= i < |s| && !(k <= i < k + 4) ==> s[i] == t[i]
    ensures DifferOnlyInBits(s, t, 8 * k)
  {
    hide MessageBits;
    forall i | 0 <= i < 8 * |s| && !(8 * k <= i < 8 * k + 32)
      ensures MessageBits(s)[i] == MessageBits(t)[i]
    {
      SameByteSameBit(s, t, i);
    }
  }

  // ---- Known values ---------------------------------------------------------------------------

  lemma UpdateOne(crc: word, b: byte)
    ensures Update(crc, [b]) == Consume(crc, b)
  {
    hide Consume;
    assert [b][1..] == [];
  }

  lemma LowByteSplits(x: word)
    ensures x == Xor(Widen(Byte0(x)), x & 0xFFFF_FF00) && (x & 0xFFFF_FF00) & 0xFF == 0
    ensures Down8(x & 0xFFFF_FF00) == Down8(x)
  {
  }

  /** Consuming the low byte of what differs from `g` by `v` leaves what differs from the shifted `g` by the
      bytes above it. */
  lemma ResidueStep(g: word, v: word)
    ensures Consume(Xor(g, v), Byte0(v)) == Xor(Shift8(g), Down8(v))
  {
    hide Shift8, Xor, Widen, Down8, Byte0;
    LowByteSplits(v);
    var high := v & 0xFFFF_FF00;
    XorAssociates(g, Widen(Byte0(v)), high);
    XorAssociates(Xor(g, Widen(Byte0(v))), high, Widen(Byte0(v)));
    XorCommutes(high, Widen(Byte0(v)));
    XorAssociates(Xor(g, Widen(Byte0(v))), Widen(Byte0(v)), high);
    XorTwice(g, Widen(Byte0(v)));
    Shift8Splits(g, high);
  }

  lemma BytesDown(w: word)
    ensures Byte1(w) == Byte0(Down8(w)) && Byte2(w) == Byte0(Down8(Down8(w))) && Byte3(w) == Byte0(Down8(Down8(Down8(w))))
  {
  }

  lemma ResidueOfOnes()
    ensures Shift8(FINAL_XOR) == 0x2DFD_1072 && Shift8(0x2DFD_1072) == 0xBE26_ED00
    ensures Shift8(0xBE26_ED00) == 0x00BE_26ED && Shift8(0x00BE_26ED) == 0xDEBB_20E3
  {
  }

  lemma UpdateUnrolled(c: word, b0: byte, b1: byte, b2: byte, b3: byte)
    ensures Update(c, [b0, b1, b2, b3]) == Consume(Consume(Consume(Consume(c, b0), b1), b2), b3)
  {
    hide Consume;
    var s := [b0, b1, b2, b3];
    var c1 := Consume(c, b0);
    var c2 := Consume(c1, b1);
    var c3 := Consume(c2, b2);
    assert s[1..] == [b1, b2, b3] && [b1, b2, b3][1..] == [b2, b3] && [b2, b3][1..] == [b3];
    UpdateOne(c3, b3);
    assert Update(c2, [b2, b3]) == Update(c3, [b3]);
    assert Update(c1, [b1, b2, b3]) == Update(c2, [b2, b3]);
  }

  /** A message followed by its own checksum, least significant byte first, always leaves the register at the
      one good value of appendix C.3 of RFC 1662. */
  lemma GoodFcs(data: seq<byte>)
    ensures Update(INITIAL, data + LeBytes(Checksum(data))) == 0xDEBB_20E3
  {
    var (r, w) := (Update(INITIAL, data), Checksum(data));
    UpdateConcat(INITIAL, data, LeBytes(w));
    XorTwice(r, FINAL_XOR);
    XorCommutes(w, FINAL_XOR);
    BytesDown(w);
    FourDown8(w);
    XorZero(0xDEBB_20E3);
    ResidueOfOnes();
    hide Shift8, Xor, Update, Consume, Down8, Byte0, Byte1, Byte2, Byte3;
    UpdateUnrolled(r, Byte0(w), Byte1(w), Byte2(w), Byte3(w));
    var w1 := Down8(w);
    var w2 := Down8(w1);
    ResidueStep(FINAL_XOR, w);
    ResidueStep(0x2DFD_1072, w1);
    ResidueStep(0xBE26_ED00, w2);
    ResidueStep(0x00BE_26ED, Down8(w2));
  }

  lemma CheckSteps()
    ensures Consume(0xFFFF_FFFF, 0x31) == 0x7C23_1048 && Consume(0x7C23_1048, 0x32) == 0xB0AC_BB32
    ensures Consume(0xB0AC_BB32, 0x33) == 0x77B7_9C2D && Consume(0x77B7_9C2D, 0x34) == 0x641C_1F5C
    ensures Consume(0x641C_1F5C, 0x35) == 0x340A_C5E3 && Consume(0x340A_C5E3, 0x36) == 0xF68D_2C9E
    ensures Consume(0xF68D_2C9E, 0x37) == 0xAFFC_9660 && Consume(0xAFFC_9660, 0x38) == 0x651F_2550
    ensures Consume(0x651F_2550, 0x39) == 0x340B_C6D9 && Xor(0x340B_C6D9, FINAL_XOR) == 0xCBF4_3926
  {
  }

  /** The check value of CRC-32/ISO-HDLC: the checksum of the digits 1 to 9. */
  lemma CheckValue()
    ensures Checksum([0x31, 0x32, 0x33, 0x34, 0x35, 0x36, 0x37, 0x38, 0x39]) == 0xCBF4_3926
  {
    var a: seq<byte>, b: seq<byte>, c: seq<byte> := [0x31, 0x32, 0x33, 0x34], [0x35, 0x36, 0x37, 0x38], [0x39];
    hide Consume, Update, Xor;
    CheckSteps();
    UpdateUnrolled(INITIAL, 0x31, 0x32, 0x33, 0x34);
    UpdateUnrolled(0x641C_1F5C, 0x35, 0x36, 0x37, 0x38);
    UpdateOne(0x651F_2550, 0x39);
    UpdateConcat(INITIAL, a, b);
    UpdateConcat(INITIAL, a + b, c);
    assert a + b + c == [0x31, 0x32, 0x33, 0x34, 0x35, 0x36, 0x37, 0x38, 0x39];
  }

  // ---- The code ---------------------------------------------------------------------------

  lemma ShiftsEight(c: word)
    ensures Shifts(c, 8) == Shift8(c)
  {
    hide Shift;
    assert Shifts(c, 2) == Shift(Shifts(c, 1)) == Shift2(c);
    assert Shifts(c, 4) == Shift(Shifts(c, 3)) == Shift2(Shifts(c, 2));
    assert Shifts(c, 6) == Shift(Shifts(c, 5)) == Shift2(Shifts(c, 4));
    assert Shifts(c, 8) == Shift(Shifts(c, 7)) == Shift2(Shifts(c, 6));
  }

  /** The lookup table. The program builds it once; it is the same on every call. */
  method BuildTable() returns (t: array<word>)
    ensures fresh(t) && t.Length == 256
    ensures forall i :: 0 <= i < 256 ==> t[i] == Shift8(Widen(ToByte(i)))
  {
    hide Shift8, Widen, Xor, Odd, Down1, ToByte;
    t := new word[256];
    for i := 0 to 256
      invariant forall j :: 0 <= j < i ==> t[j] == Shift8(Widen(ToByte(j)))
    {
      var c := Widen(ToByte(i));
      for k := 0 to 8
        invariant c == Shifts(Widen(ToByte(i)), k)
      {
        c := if Odd(c) then Xor(POLYNOMIAL, Down1(c)) else Down1(c);
      }
      ShiftsEight(Widen(ToByte(i)));
      t[i] := c;
    }
  }

  lemma DownOfXorByte(crc: word, b: byte)
    ensures Down8(Xor(crc, Widen(b))) == Down8(crc)
  {
  }

  lemma TableStep(crc: word, b: byte)
    ensures Xor(Shift8(Widen(Byte0(Xor(crc, Widen(b))))), Down8(crc)) == Consume(crc, b)
  {
    hide Shift8, Xor, Widen, Down8, Byte0;
    var x := Xor(crc, Widen(b));
    LowByteSplits(x);
    Shift8Splits(Widen(Byte0(x)), x & 0xFFFF_FF00);
    DownOfXorByte(crc, b);
  }

  /** The table-driven update over `len` bytes of `data` from `start` on computes `Update`. */
  method Crc32Update(crc: word, data: array<byte>, start: nat, len: nat) returns (r: word)
    requires start + len <= data.Length
    ensures r == Update(crc, data[start..start + len])
  {
    hide Shift8, Consume, Xor, Widen, Down8, Byte0, ToByte, ByteValue;
    var table := BuildTable();
    r := crc;
    assert data[start..start] == [];
    for i := 0 to len
      invariant r == Update(crc, data[start..start + i])
      invariant forall j :: 0 <= j < 256 ==> table[j] == Shift8(Widen(ToByte(j)))
    {
      var b := data[start + i];
      var index := Byte0(Xor(r, Widen(b)));
      ghost var prev := r;
      assert data[start..start + i + 1] == data[start..start + i] + [b];
      UpdateConcat(crc, data[start..start + i], [b]);
      UpdateOne(r, b);
      TableStep(r, b);
      ByteOfByteValue(index);
      assert table[ByteValue(index)] == Shift8(Widen(index));
      r := Xor(table[ByteValue(index)], Down8(r));
      assert r == Consume(prev, b);
    }
  }

  method Crc32IsoHdlc(data: array<byte>) returns (r: word)
    ensures r == Checksum(data[..])
    ensures RegisterBits(Xor(r, FINAL_XOR)) == Remainder(Dividend(INITIAL, MessageBits(data[..])))
  {
    hide Update, Remainder, Dividend, MessageBits, RegisterBits, Xor;
    var c := Crc32Update(INITIAL, data, 0, data.Length);
    assert data[0..data.Length] == data[..];
    r := Xor(c, FINAL_XOR);
    UpdateDivides(INITIAL, data[..]);
    XorTwice(c, FINAL_XOR);
  }
}
