/** The checksum on machine bytes, for computing check values: the register is four bytes, the highest first. */
module CrcWords {
  import opened Frames
  import opened Crc32c

  datatype Word = Word(b3: bv8, b2: bv8, b1: bv8, b0: bv8)

  /** Number of a byte. */
  function N(x: bv8): (n: nat)
    ensures n < 0x100
  {
    x as nat
  }

  function Join(low: nat, high: nat): nat {
    low + 0x100 * high
  }

  function Value(w: Word): nat {
    Join(N(w.b0), Join(N(w.b1), Join(N(w.b2), N(w.b3))))
  }

  function Clock(w: Word): Word {
    var h := Half(w);
    if w.b0 & 1 == 1 then Word(h.b3 ^ 0x82, h.b2 ^ 0xF6, h.b1 ^ 0x3B, h.b0 ^ 0x78) else h
  }

  function Half(w: Word): Word {
    Word(w.b3 >> 1, Carry(w.b3, w.b2), Carry(w.b2, w.b1), Carry(w.b1, w.b0))
  }

  /** The low byte moved down, its top bit taken from the byte above. */
  function Carry(high: bv8, low: bv8): bv8 {
    (low >> 1) | (high << 7)
  }

  function Clock4(w: Word): Word {
    Clock(Clock(Clock(Clock(w))))
  }

  function Byte(w: Word, b: bv8): Word {
    Clock4(Clock4(w.(b0 := w.b0 ^ b)))
  }

  // ---------------------------------------------------------------- bytes

  lemma ByteHalves(x: bv8)
    ensures N(x >> 1) == N(x) / 2
    ensures x & 1 == 1 <==> N(x) % 2 == 1
  {}

  lemma TopBit(x: bv8)
    ensures x << 7 == if x & 1 == 1 then 0x80 else 0
    ensures (x >> 1) | 0 == x >> 1
    ensures (x >> 1) | 0x80 == (x >> 1) + 0x80
  {}

  lemma TopBitAdds(x: bv8)
    ensures N((x >> 1) + 0x80) == N(x) / 2 + 0x80
  {}

  lemma CarryMeaning(high: bv8, low: bv8)
    ensures N(Carry(high, low)) == N(low) / 2 + 0x80 * (N(high) % 2)
  {
    hide N;
    TopBit(high);
    TopBit(low);
    TopBitAdds(low);
    ByteHalves(high);
    ByteHalves(low);
  }

  lemma XorBits(x: bv8, y: bv8)
    ensures (x ^ y) >> 1 == (x >> 1) ^ (y >> 1)
    ensures (x ^ y) & 1 == 1 <==> (x & 1 == 1) != (y & 1 == 1)
  {}

  lemma OnlyZero(x: bv8)
    ensures N(x) == 0 <==> x == 0
  {}

  lemma {:induction false} XorBytes(x: bv8, y: bv8)
    ensures Xor(N(x), N(y)) == N(x ^ y)
    decreases N(x) + N(y)
  {
    hide Xor, N;
    OnlyZero(x);
    OnlyZero(y);
    if x == 0 && y == 0 {
      XorZero(0);
      OnlyZero(x ^ y);
    } else {
      ByteHalves(x);
      ByteHalves(y);
      ByteHalves(x ^ y);
      XorBits(x, y);
      XorBytes(x >> 1, y >> 1);
      XorHalves(N(x), N(y));
      ParityOfXor(N(x), N(y), N(x ^ y));
      HalvesDetermine(Xor(N(x), N(y)), N(x ^ y));
    }
  }

  lemma ParityOfXor(a: nat, b: nat, c: nat)
    requires c % 2 == 1 <==> (a % 2 == 1) != (b % 2 == 1)
    ensures c % 2 == (a + b) % 2
  {}

  lemma JoinIsXor(low: nat, high: nat)
    requires low < 0x100
    ensures Join(low, high) == Xor(low, 0x100 * high)
  {
    hide Xor;
    PowersOfTwo();
    XorDisjoint(low, high, 8);
  }

  lemma XorShifted(a: nat, b: nat)
    ensures Xor(0x100 * a, 0x100 * b) == 0x100 * Xor(a, b)
  {
    hide Xor;
    PowersOfTwo();
    XorScaled(a, b, 8);
  }

  lemma XorJoined(x: nat, a: nat, y: nat, b: nat)
    requires x < 0x100 && y < 0x100
    ensures Xor(Join(x, a), Join(y, b)) == Join(Xor(x, y), Xor(a, b))
  {
    hide Xor, Join;
    PowersOfTwo();
    XorBound(x, y, 8);
    JoinIsXor(x, a);
    JoinIsXor(y, b);
    JoinIsXor(Xor(x, y), Xor(a, b));
    XorShifted(a, b);
    XorPairs(x, 0x100 * a, y, 0x100 * b);
  }

  lemma XorPairs(a: nat, b: nat, c: nat, d: nat)
    ensures Xor(Xor(a, b), Xor(c, d)) == Xor(Xor(a, c), Xor(b, d))
  {
    hide Xor;
    XorAssociates(a, b, Xor(c, d));
    XorAssociates(b, c, d);
    XorCommutes(b, c);
    XorAssociates(c, b, d);
    XorAssociates(a, c, Xor(b, d));
  }

  lemma {:induction false} XorScaled(a: nat, b: nat, k: nat)
    ensures Xor(Pow2(k) * a, Pow2(k) * b) == Pow2(k) * Xor(a, b)
  {
    hide Xor;
    if k != 0 {
      var x, y := Pow2(k - 1) * a, Pow2(k - 1) * b;
      assert Pow2(k) * a == 2 * x && Pow2(k) * b == 2 * y;
      XorScaled(a, b, k - 1);
      XorTwice(x, y);
      assert Pow2(k) * Xor(a, b) == 2 * (Pow2(k - 1) * Xor(a, b));
    }
  }

  lemma XorTwice(x: nat, y: nat)
    ensures Xor(2 * x, 2 * y) == 2 * Xor(x, y)
  {
    hide Xor;
    XorHalves(2 * x, 2 * y);
    HalvesDetermine(Xor(2 * x, 2 * y), 2 * Xor(x, y));
  }

  // ---------------------------------------------------------------- words

  lemma XorWords(w: Word, v: Word)
    ensures Xor(Value(w), Value(v)) == Value(Word(w.b3 ^ v.b3, w.b2 ^ v.b2, w.b1 ^ v.b1, w.b0 ^ v.b0))
  {
    hide Xor, N, Join;
    var w1, v1 := Join(N(w.b2), N(w.b3)), Join(N(v.b2), N(v.b3));
    XorBytes(w.b3, v.b3);
    XorBytes(w.b2, v.b2);
    XorBytes(w.b1, v.b1);
    XorBytes(w.b0, v.b0);
    XorJoined(N(w.b2), N(w.b3), N(v.b2), N(v.b3));
    XorJoined(N(w.b1), w1, N(v.b1), v1);
    XorJoined(N(w.b0), Join(N(w.b1), w1), N(v.b0), Join(N(v.b1), v1));
  }

  lemma JoinHalves(low: nat, high: nat)
    requires low < 0x100
    ensures Join(low, high) / 2 == Join(low / 2 + 0x80 * (high % 2), high / 2)
    ensures Join(low, high) % 2 == low % 2
  {}

  lemma HalfMeaning(w: Word)
    ensures Value(Half(w)) == Value(w) / 2
    ensures w.b0 & 1 == 1 <==> Value(w) % 2 == 1
  {
    hide Carry, N, Join;
    CarryMeaning(w.b3, w.b2);
    CarryMeaning(w.b2, w.b1);
    CarryMeaning(w.b1, w.b0);
    ByteHalves(w.b3);
    ByteHalves(w.b0);
    var top := Join(N(w.b2), N(w.b3));
    JoinHalves(N(w.b2), N(w.b3));
    JoinHalves(N(w.b1), top);
    JoinHalves(N(w.b0), Join(N(w.b1), top));
  }

  lemma PolynomialBytes()
    ensures Value(Word(0x82, 0xF6, 0x3B, 0x78)) == POLYNOMIAL
  {}

  lemma ClockMeaning(w: Word)
    ensures Value(Clock(w)) == Shift(Value(w))
  {
    HalfMeaning(w);
    PolynomialBytes();
    XorWords(Half(w), Word(0x82, 0xF6, 0x3B, 0x78));
    hide Xor, Half, Value;
  }

  lemma Clock4Meaning(w: Word)
    ensures Value(Clock4(w)) == Shifts(4, Value(w))
  {
    hide Value, Clock, Shift;
    ClockMeaning(w);
    ClockMeaning(Clock(w));
    ClockMeaning(Clock(Clock(w)));
    ClockMeaning(Clock(Clock(Clock(w))));
    FourShifts(Value(w));
  }

  lemma FourShifts(r: nat)
    ensures Shifts(4, r) == Shift(Shift(Shift(Shift(r))))
  {
    hide Shift, Shifts;
    NextShift(4, r);
    NextShift(3, Shift(r));
    NextShift(2, Shift(Shift(r)));
    NextShift(1, Shift(Shift(Shift(r))));
    NoShift(Shift(Shift(Shift(Shift(r)))));
  }

  lemma NextShift(n: nat, r: nat)
    requires n > 0
    ensures Shifts(n, r) == Shifts(n - 1, Shift(r))
  {}

  lemma NoShift(r: nat)
    ensures Shifts(0, r) == r
  {}

  lemma LowByteXor(w: Word, b: bv8)
    ensures Value(w.(b0 := w.b0 ^ b)) == Xor(Value(w), N(b))
  {
    XorWords(w, Word(0, 0, 0, b));
    ZeroBytes(w, b);
    hide Xor, Value;
  }

  lemma ZeroBytes(w: Word, b: bv8)
    ensures Word(w.b3 ^ 0, w.b2 ^ 0, w.b1 ^ 0, w.b0 ^ b) == w.(b0 := w.b0 ^ b)
    ensures Value(Word(0, 0, 0, b)) == N(b)
  {}

  lemma ByteMeaning(w: Word, b: bv8)
    ensures Value(Byte(w, b)) == Absorb(Value(w), N(b))
  {
    hide Xor, Value, Clock4, Shifts;
    var fed := w.(b0 := w.b0 ^ b);
    LowByteXor(w, b);
    Clock4Meaning(fed);
    Clock4Meaning(Clock4(fed));
    ShiftsCompose(4, 4, Value(fed));
  }

  // ---------------------------------------------------------------- messages

  function Run(w: Word, t: seq<bv8>): Word
    decreases |t|
  {
    if |t| == 0 then w else Run(Byte(w, t[0]), t[1..])
  }

  function Numbers(t: seq<bv8>): seq<byte> {
    seq(|t|, i requires 0 <= i < |t| => N(t[i]))
  }

  lemma {:induction false} RunMeaning(w: Word, t: seq<bv8>)
    ensures Value(Run(w, t)) == Fold(Value(w), Numbers(t))
    decreases |t|
  {
    hide Value, Byte, Absorb, N;
    if |t| != 0 {
      ByteMeaning(w, t[0]);
      RunMeaning(Byte(w, t[0]), t[1..]);
      assert Numbers(t)[1..] == Numbers(t[1..]);
    }
  }

  // ---------------------------------------------------------------- check values

  const START := Word(0xFF, 0xFF, 0xFF, 0xFF)

  /** The register after the first n bytes of t. */
  function After(t: seq<bv8>, n: nat): Word
    requires n <= |t|
  {
    Run(START, t[..n])
  }

  lemma Untouched(t: seq<bv8>)
    ensures After(t, 0) == START
  {}

  lemma {:induction false} RunAppend(w: Word, t: seq<bv8>, b: bv8)
    ensures Run(w, t + [b]) == Byte(Run(w, t), b)
    decreases |t|
  {
    hide Byte;
    if |t| == 0 {
      assert (t + [b])[1..] == [];
    } else {
      assert (t + [b])[1..] == t[1..] + [b];
      RunAppend(Byte(w, t[0]), t[1..], b);
    }
  }

  lemma NextByte(t: seq<bv8>, n: nat, w: Word, b: bv8)
    requires n < |t| && t[n] == b && After(t, n) == w
    ensures After(t, n + 1) == Byte(w, b)
  {
    hide Byte, Run;
    assert t[..n + 1] == t[..n] + [b];
    RunAppend(START, t[..n], b);
  }

  /** The nine digits 1 to 9 in ASCII. */
  const DIGITS: seq<bv8> := [0x31, 0x32, 0x33, 0x34, 0x35, 0x36, 0x37, 0x38, 0x39]

  lemma Digits3()
    ensures After(DIGITS, 3) == Word(0xEF, 0x84, 0xD0, 0x4D)
  {
    hide After;
    Untouched(DIGITS);
    assert Byte(Word(0xFF, 0xFF, 0xFF, 0xFF), 0x31) == Word(0x6F, 0x0A, 0x66, 0x1C);
    NextByte(DIGITS, 0, Word(0xFF, 0xFF, 0xFF, 0xFF), 0x31);
    assert Byte(Word(0x6F, 0x0A, 0x66, 0x1C), 0x32) == Word(0x8C, 0xAA, 0x3B, 0x9F);
    NextByte(DIGITS, 1, Word(0x6F, 0x0A, 0x66, 0x1C), 0x32);
    assert Byte(Word(0x8C, 0xAA, 0x3B, 0x9F), 0x33) == Word(0xEF, 0x84, 0xD0, 0x4D);
    NextByte(DIGITS, 2, Word(0x8C, 0xAA, 0x3B, 0x9F), 0x33);
  }

  lemma Digits6()
    ensures After(DIGITS, 6) == Word(0xBE, 0xCA, 0x8E, 0x79)
  {
    hide After;
    Digits3();
    assert Byte(Word(0xEF, 0x84, 0xD0, 0x4D), 0x34) == Word(0x09, 0xC5, 0x0B, 0x11);
    NextByte(DIGITS, 3, Word(0xEF, 0x84, 0xD0, 0x4D), 0x34);
    assert Byte(Word(0x09, 0xC5, 0x0B, 0x11), 0x35) == Word(0xE7, 0x2E, 0xDC, 0xCA);
    NextByte(DIGITS, 4, Word(0x09, 0xC5, 0x0B, 0x11), 0x35);
    assert Byte(Word(0xE7, 0x2E, 0xDC, 0xCA), 0x36) == Word(0xBE, 0xCA, 0x8E, 0x79);
    NextByte(DIGITS, 5, Word(0xE7, 0x2E, 0xDC, 0xCA), 0x36);
  }

  lemma Digits9()
    ensures After(DIGITS, 9) == Word(0x1C, 0xF9, 0x6D, 0x7C)
  {
    hide After;
    Digits6();
    assert Byte(Word(0xBE, 0xCA, 0x8E, 0x79), 0x37) == Word(0xED, 0xBD, 0x68, 0x15);
    NextByte(DIGITS, 6, Word(0xBE, 0xCA, 0x8E, 0x79), 0x37);
    assert Byte(Word(0xED, 0xBD, 0x68, 0x15), 0x38) == Word(0x9F, 0x78, 0x7F, 0x65);
    NextByte(DIGITS, 7, Word(0xED, 0xBD, 0x68, 0x15), 0x38);
    assert Byte(Word(0x9F, 0x78, 0x7F, 0x65), 0x39) == Word(0x1C, 0xF9, 0x6D, 0x7C);
    NextByte(DIGITS, 8, Word(0x9F, 0x78, 0x7F, 0x65), 0x39);
  }

  lemma StartIsOnes()
    ensures Value(START) == ALL_ONES
  {}

  /** The checksum of what a register of four bytes ends with. */
  lemma ChecksumOf(t: seq<bv8>, last: Word, complement: Word)
    requires After(t, |t|) == last
    requires complement == Word(last.b3 ^ 0xFF, last.b2 ^ 0xFF, last.b1 ^ 0xFF, last.b0 ^ 0xFF)
    ensures Checksum(Numbers(t)) == Value(complement)
  {
    hide Run, Numbers, Fold, Xor, Value;
    assert t[..|t|] == t;
    StartIsOnes();
    RunMeaning(START, t);
    XorWords(last, START);
  }

  lemma DigitsInNumbers()
    ensures Numbers(DIGITS) == [0x31, 0x32, 0x33, 0x34, 0x35, 0x36, 0x37, 0x38, 0x39]
  {}

  lemma CheckWord()
    ensures Value(Word(0xE3, 0x06, 0x92, 0x83)) == 0xE306_9283
  {}

  /** The published check value of CRC-32C. */
  lemma CheckValue()
    ensures Checksum([0x31, 0x32, 0x33, 0x34, 0x35, 0x36, 0x37, 0x38, 0x39]) == 0xE306_9283
  {
    hide Run, Numbers, Checksum, Value;
    Digits9();
    ChecksumOf(DIGITS, Word(0x1C, 0xF9, 0x6D, 0x7C), Word(0xE3, 0x06, 0x92, 0x83));
    DigitsInNumbers();
    CheckWord();
  }
}
