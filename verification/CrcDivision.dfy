/**
 What the checksum is: the remainder of the message, read as a polynomial over GF(2), divided by the Castagnoli
 polynomial, with the first 32 coefficients and the remainder complemented (sections 12.1 and 4.2.5 conventions of
 iSCSI CRC-32C: bytes least significant bit first).
 */
module CrcDivision {
  import opened Frames
  import opened Crc32c

  // ---------------------------------------------------------------- division over GF(2)

  /** Coefficients of a polynomial over GF(2), highest power first. */
  type Poly = seq<bool>

  /** The exponents with coefficient one in the Castagnoli polynomial 0x1_1EDC_6F41. */
  const EXPONENTS: set<nat> := {32, 28, 27, 26, 25, 23, 22, 20, 19, 18, 14, 13, 11, 10, 9, 8, 6, 0}

  function Castagnoli(): (p: Poly)
    ensures |p| == 33
  {
    seq(33, i requires 0 <= i < 33 => 32 - i in EXPONENTS)
  }

  /** Addition, which is also subtraction; a shorter second operand is added to the highest powers of the first. */
  function Plus(a: Poly, b: Poly): (c: Poly)
    requires |b| <= |a|
    ensures |c| == |a|
  {
    seq(|a|, i requires 0 <= i < |a| => if i < |b| then a[i] != b[i] else a[i])
  }

  /** Long division: the remainder has at most 32 coefficients. */
  function Remainder(d: Poly): (r: Poly)
    ensures |r| == if |d| < 32 then |d| else 32
    decreases |d|
  {
    if |d| <= 32 then d
    else if d[0] then Remainder(Plus(d, Castagnoli())[1..])
    else Remainder(d[1..])
  }

  function Zeros(n: nat): (p: Poly)
    ensures |p| == n
  {
    seq(n, _ => false)
  }

  function Ones(n: nat): (p: Poly)
    ensures |p| == n
  {
    seq(n, _ => true)
  }

  /** The binary digits of v, lowest first: the order in which a byte goes on the wire. */
  function LowFirst(k: nat, v: nat): (p: Poly)
    ensures |p| == k
  {
    if k == 0 then [] else [v % 2 == 1] + LowFirst(k - 1, v / 2)
  }

  function Bits(s: seq<byte>): (p: Poly)
    ensures |p| == 8 * |s|
  {
    if |s| == 0 then [] else LowFirst(8, s[0]) + Bits(s[1..])
  }

  // ---------------------------------------------------------------- coefficients of registers

  lemma {:induction false} LowFirstXor(k: nat, a: nat, b: nat)
    ensures LowFirst(k, Xor(a, b)) == Plus(LowFirst(k, a), LowFirst(k, b))
  {
    hide Xor, Plus;
    if k == 0 {
      PlusNothing();
    } else {
      XorHalves(a, b);
      LowFirstXor(k - 1, a / 2, b / 2);
      PlusCons(a % 2 == 1, LowFirst(k - 1, a / 2), b % 2 == 1, LowFirst(k - 1, b / 2));
      OddSum(a, b);
    }
  }

  lemma PlusNothing()
    ensures Plus([], []) == []
  {}

  lemma PlusCons(x: bool, a: Poly, y: bool, b: Poly)
    requires |b| <= |a|
    ensures Plus([x] + a, [y] + b) == [x != y] + Plus(a, b)
  {}

  lemma OddSum(a: nat, b: nat)
    ensures (a + b) % 2 == 1 <==> (a % 2 == 1) != (b % 2 == 1)
  {}

  /** Beyond its width a number has only zeros. */
  lemma {:induction false} LowFirstExtends(k: nat, v: nat)
    requires v < Pow2(k)
    ensures LowFirst(k + 1, v) == LowFirst(k, v) + [false]
  {
    if k != 0 {
      LowFirstExtends(k - 1, v / 2);
    }
  }

  /** Shifting a register down drops its highest coefficient and appends a zero. */
  lemma LowFirstHalf(r: nat)
    requires r < REGISTER_SIZE
    ensures LowFirst(32, r / 2) == LowFirst(32, r)[1..] + [false]
  {
    PowersOfTwo();
    LowFirstExtends(31, r / 2);
  }

  lemma {:induction false} LowFirstZero(k: nat)
    ensures LowFirst(k, 0) == Zeros(k)
  {
    if k != 0 {
      LowFirstZero(k - 1);
    }
  }

  lemma {:induction false} LowFirstOnes(k: nat)
    requires Pow2(k) >= 1
    ensures LowFirst(k, Pow2(k) - 1) == Ones(k)
  {
    if k != 0 {
      LowFirstOnes(k - 1);
      assert (Pow2(k) - 1) / 2 == Pow2(k - 1) - 1;
    }
  }

  lemma LowStep(k: nat, v: nat)
    requires k > 0
    ensures LowFirst(k, v) == [v % 2 == 1] + LowFirst(k - 1, v / 2)
  {}

  lemma LowHalfOfPolynomial()
    ensures LowFirst(32, POLYNOMIAL)
         == [false, false, false, true, true, true, true, false,
              true, true, false, true, true, true, false, false]
            + LowFirst(16, 0x82F6)
  {
    hide LowFirst;
    LowStep(32, 0x82F63B78); LowStep(31, 0x417B1DBC); LowStep(30, 0x20BD8EDE); LowStep(29, 0x105EC76F);
    LowStep(28, 0x82F63B7); LowStep(27, 0x417B1DB); LowStep(26, 0x20BD8ED); LowStep(25, 0x105EC76);
    LowStep(24, 0x82F63B); LowStep(23, 0x417B1D); LowStep(22, 0x20BD8E); LowStep(21, 0x105EC7);
    LowStep(20, 0x82F63); LowStep(19, 0x417B1); LowStep(18, 0x20BD8); LowStep(17, 0x105EC);
  }

  lemma HighHalfOfPolynomial()
    ensures LowFirst(16, 0x82F6)
         == [false, true, true, false, true, true, true, true,
              false, true, false, false, false, false, false, true]
  {
    hide LowFirst;
    LowStep(16, 0x82F6); LowStep(15, 0x417B); LowStep(14, 0x20BD); LowStep(13, 0x105E);
    LowStep(12, 0x82F); LowStep(11, 0x417); LowStep(10, 0x20B); LowStep(9, 0x105);
    LowStep(8, 0x82); LowStep(7, 0x41); LowStep(6, 0x20); LowStep(5, 0x10);
    LowStep(4, 0x8); LowStep(3, 0x4); LowStep(2, 0x2); LowStep(1, 0x1);
    NoDigits();
  }

  lemma NoDigits()
    ensures LowFirst(0, 0) == []
  {}

  /** The reflected constant holds the coefficients of the polynomial below x^32. */
  lemma PolynomialIsCastagnoli()
    ensures LowFirst(32, POLYNOMIAL) == Castagnoli()[1..]
  {
    LowHalfOfPolynomial();
    HighHalfOfPolynomial();
    hide LowFirst;
  }

  // ---------------------------------------------------------------- one bit at a time

  function Value(m: bool): nat {
    if m then 1 else 0
  }

  /** The register after feeding bits, each followed by one clock. */
  function BitFold(r: nat, m: Poly): nat
    decreases |m|
  {
    if |m| == 0 then r else BitFold(Shift(Xor(r, Value(m[0]))), m[1..])
  }

  lemma {:induction false} BitFoldConcat(r: nat, a: Poly, b: Poly)
    ensures BitFold(r, a + b) == BitFold(BitFold(r, a), b)
    decreases |a|
  {
    hide Xor;
    if |a| == 0 {
      assert a + b == b;
    } else {
      assert (a + b)[1..] == a[1..] + b;
      BitFoldConcat(Shift(Xor(r, Value(a[0]))), a[1..], b);
    }
  }

  /** A number is its lowest bit and twice the rest, without carry. */
  lemma XorLowestBit(r: nat, v: nat)
    ensures Xor(r, v) == Xor(Xor(r, v % 2), 2 * (v / 2))
  {
    assert Pow2(1) == 2;
    XorDisjoint(v % 2, v / 2, 1);
    XorAssociates(r, v % 2, 2 * (v / 2));
  }

  /** Feeding a number at once and clocking k times is feeding its k bits one by one. */
  lemma {:induction false} ShiftsAreBits(k: nat, r: nat, v: nat)
    requires v < Pow2(k)
    ensures Shifts(k, Xor(r, v)) == BitFold(r, LowFirst(k, v))
    decreases k
  {
    if k == 0 {
      XorZero(r);
    } else {
      hide Xor, Shift;
      var first := Xor(r, v % 2);
      XorLowestBit(r, v);
      ShiftLinear(first, v / 2);
      ShiftsAreBits(k - 1, Shift(first), v / 2);
      LowStep(k, v);
      assert Value(v % 2 == 1) == v % 2;
    }
  }

  lemma {:induction false} FoldIsBits(r: nat, s: seq<byte>)
    ensures Fold(r, s) == BitFold(r, Bits(s))
    decreases |s|
  {
    hide Xor;
    if |s| != 0 {
      PowersOfTwo();
      ShiftsAreBits(8, r, s[0]);
      BitFoldConcat(r, LowFirst(8, s[0]), Bits(s[1..]));
      FoldIsBits(Absorb(r, s[0]), s[1..]);
    }
  }

  // ---------------------------------------------------------------- the register is the remainder

  /** One step of long division on a register's coefficients. */
  function NextRegister(reg: Poly, m: bool): (next: Poly)
    requires |reg| == 32
    ensures |next| == 32
  {
    var moved := reg[1..] + [false];
    if reg[0] != m then Plus(moved, Castagnoli()[1..]) else moved
  }

  lemma XorValue(r: nat, m: bool)
    ensures Xor(r, Value(m)) / 2 == r / 2
    ensures Xor(r, Value(m)) % 2 == 1 <==> (r % 2 == 1) != m
  {
    hide Xor;
    XorHalves(r, Value(m));
    XorZero(r / 2);
    OddSum(r, Value(m));
  }

  lemma ClockBound(r: nat, m: bool)
    requires r < REGISTER_SIZE
    ensures Shift(Xor(r, Value(m))) < REGISTER_SIZE
  {
    hide Xor, Shift;
    PowersOfTwo();
    XorBound(r, Value(m), 32);
    ShiftBound(Xor(r, Value(m)));
  }

  lemma ClockIsNextRegister(r: nat, m: bool)
    requires r < REGISTER_SIZE
    ensures LowFirst(32, Shift(Xor(r, Value(m)))) == NextRegister(LowFirst(32, r), m)
  {
    LowStep(32, r);
    hide Xor, LowFirst, Castagnoli, Plus, Value;
    XorValue(r, m);
    LowFirstHalf(r);
    PolynomialIsCastagnoli();
    LowFirstXor(32, r / 2, POLYNOMIAL);
  }

  /** One step of long division of a message followed by 32 zeros, with a register added at its front. */
  lemma DivisionStep(reg: Poly, m: Poly)
    requires |reg| == 32 && |m| > 0
    ensures Remainder(Plus(m + Zeros(32), reg)) == Remainder(Plus(m[1..] + Zeros(32), NextRegister(reg, m[0])))
  {
    var d := Plus(m + Zeros(32), reg);
    var next := Plus(m[1..] + Zeros(32), NextRegister(reg, m[0]));
    assert d[0] == (m[0] != reg[0]);
    if d[0] {
      assert Plus(d, Castagnoli())[1..] == next;
    } else {
      assert d[1..] == next;
    }
  }

  lemma {:induction false} RegisterIsRemainder(r: nat, m: Poly)
    requires r < REGISTER_SIZE
    ensures LowFirst(32, BitFold(r, m)) == Remainder(Plus(m + Zeros(32), LowFirst(32, r)))
    decreases |m|
  {
    hide Xor, Shift, LowFirst, NextRegister;
    var reg := LowFirst(32, r);
    if |m| == 0 {
      assert Plus(m + Zeros(32), reg) == reg;
    } else {
      DivisionStep(reg, m);
      ClockBound(r, m[0]);
      ClockIsNextRegister(r, m[0]);
      hide Remainder, Plus;
      RegisterIsRemainder(Shift(Xor(r, Value(m[0]))), m[1..]);
    }
  }

  /**
   The checksum's bits, lowest first, are the complement of the remainder that the message leaves, its first 32
   coefficients complemented and 32 zeros appended.
   */
  lemma ChecksumIsRemainder(s: seq<byte>)
    ensures LowFirst(32, Checksum(s))
         == Plus(Remainder(Plus(Bits(s) + Zeros(32), Ones(32))), Ones(32))
  {
    hide Xor, Remainder, Plus, LowFirst, Bits;
    PowersOfTwo();
    LowFirstOnes(32);
    FoldIsBits(ALL_ONES, s);
    RegisterIsRemainder(ALL_ONES, Bits(s));
    LowFirstXor(32, Fold(ALL_ONES, s), ALL_ONES);
  }
}
