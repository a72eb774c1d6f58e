/**
 CRC-32C (Castagnoli), the checksum of section 12.1 of RFC 3720, defined bit by bit over naturals
 in its reflected form, together with the burst-error property that the frame codec relies on.
 */
module Crc32c {
  import opened Frames

  /** Bitwise exclusive or. */
  function Xor(a: nat, b: nat): nat
    decreases a + b
  {
    if a == 0 && b == 0 then 0 else 2 * Xor(a / 2, b / 2) + (a + b) % 2
  }

  const POLYNOMIAL: nat := 0x82F6_3B78
  const ALL_ONES: nat := 0xFFFF_FFFF
  const REGISTER_SIZE: nat := 0x1_0000_0000

  /** One clock of the shift register. */
  function Shift(r: nat): nat {
    if r % 2 == 1 then Xor(r / 2, POLYNOMIAL) else r / 2
  }

  function Shifts(n: nat, r: nat): nat {
    if n == 0 then r else Shifts(n - 1, Shift(r))
  }

  function Absorb(r: nat, b: byte): nat {
    Shifts(8, Xor(r, b))
  }

  function Fold(r: nat, s: seq<byte>): nat
    decreases |s|
  {
    if |s| == 0 then r else Fold(Absorb(r, s[0]), s[1..])
  }

  function Checksum(s: seq<byte>): (c: u32)
  {
    PowersOfTwo();
    FoldBound(ALL_ONES, s);
    XorBound(Fold(ALL_ONES, s), ALL_ONES, 32);
    Xor(Fold(ALL_ONES, s), ALL_ONES)
  }

  // ---------------------------------------------------------------- exclusive or

  function Pow2(k: nat): nat {
    if k == 0 then 1 else 2 * Pow2(k - 1)
  }

  lemma PowersOfTwo()
    ensures Pow2(8) == 0x100 && Pow2(31) == 0x8000_0000 && Pow2(32) == REGISTER_SIZE
  {
    assert Pow2(4) == 16;
    assert Pow2(8) == 16 * Pow2(4);
    assert Pow2(12) == 16 * Pow2(8);
    assert Pow2(16) == 16 * Pow2(12);
    assert Pow2(20) == 16 * Pow2(16);
    assert Pow2(24) == 16 * Pow2(20);
    assert Pow2(28) == 16 * Pow2(24);
    assert Pow2(31) == 8 * Pow2(28);
  }

  lemma {:induction false} XorZero(a: nat)
    ensures Xor(a, 0) == a
  {
    if a != 0 { XorZero(a / 2); }
  }

  lemma {:induction false} XorCommutes(a: nat, b: nat)
    ensures Xor(a, b) == Xor(b, a)
    decreases a + b
  {
    if a + b != 0 { XorCommutes(a / 2, b / 2); }
  }

  lemma XorHalves(a: nat, b: nat)
    ensures Xor(a, b) / 2 == Xor(a / 2, b / 2)
    ensures Xor(a, b) % 2 == (a + b) % 2
  {}

  lemma HalvesDetermine(x: nat, y: nat)
    requires x / 2 == y / 2 && x % 2 == y % 2
    ensures x == y
  {}

  lemma ParityOfSum(x: nat, y: nat, xy: nat, z: nat)
    requires xy % 2 == (x + y) % 2
    ensures (xy + z) % 2 == (x + y + z) % 2
  {}

  lemma {:induction false} XorAssociates(a: nat, b: nat, c: nat)
    ensures Xor(Xor(a, b), c) == Xor(a, Xor(b, c))
    decreases a + b + c
  {
    if a + b + c != 0 {
      var ab, bc := Xor(a, b), Xor(b, c);
      var left, right := Xor(ab, c), Xor(a, bc);
      assert ab / 2 == Xor(a / 2, b / 2) && ab % 2 == (a + b) % 2 by { XorHalves(a, b); }
      assert bc / 2 == Xor(b / 2, c / 2) && bc % 2 == (b + c) % 2 by { XorHalves(b, c); }
      assert left / 2 == Xor(ab / 2, c / 2) && left % 2 == (ab + c) % 2 by { XorHalves(ab, c); }
      assert right / 2 == Xor(a / 2, bc / 2) && right % 2 == (a + bc) % 2 by { XorHalves(a, bc); }
      XorAssociates(a / 2, b / 2, c / 2);
      ParityOfSum(a, b, ab, c);
      ParityOfSum(b, c, bc, a);
      HalvesDetermine(left, right);
    }
  }

  lemma SameParity(a: nat, b: nat, c: nat)
    requires (a + c) % 2 == (b + c) % 2
    ensures a % 2 == b % 2
  {}

  lemma {:induction false} XorCancels(a: nat, b: nat, c: nat)
    requires Xor(a, c) == Xor(b, c)
    ensures a == b
    decreases a + b + c
  {
    if a + b + c != 0 {
      XorHalves(a, c);
      XorHalves(b, c);
      XorCancels(a / 2, b / 2, c / 2);
      SameParity(a, b, c);
      HalvesDetermine(a, b);
    }
  }

  lemma {:induction false} XorBound(a: nat, b: nat, k: nat)
    requires a < Pow2(k) && b < Pow2(k)
    ensures Xor(a, b) < Pow2(k)
    decreases k
  {
    if k != 0 && a + b != 0 { XorBound(a / 2, b / 2, k - 1); }
  }

  /** Operands without a common bit are added. */
  lemma {:induction false} XorDisjoint(low: nat, high: nat, k: nat)
    requires low < Pow2(k)
    ensures Xor(low, Pow2(k) * high) == low + Pow2(k) * high
    decreases k
  {
    if k == 0 {
      XorZero(high);
      XorCommutes(0, high);
    } else {
      var h := Pow2(k - 1) * high;
      assert Pow2(k) * high == 2 * h;
      XorDisjoint(low / 2, high, k - 1);
      XorDoubled(low, h);
      HalvesDetermine(Xor(low, 2 * h), low + 2 * h);
    }
  }

  // ---------------------------------------------------------------- shift register

  lemma ShiftBound(r: nat)
    requires r < REGISTER_SIZE
    ensures Shift(r) < REGISTER_SIZE
  {
    PowersOfTwo();
    XorBound(r / 2, POLYNOMIAL, 32);
  }

  /** The polynomial has its top bit set, so the bit shifted out survives as the top bit. */
  lemma ShiftInjective(a: nat, b: nat)
    requires a < REGISTER_SIZE && b < REGISTER_SIZE && Shift(a) == Shift(b)
    ensures a == b
  {
    TopBit(a / 2);
    TopBit(b / 2);
    if a % 2 == 1 && b % 2 == 1 {
      XorCancels(a / 2, b / 2, POLYNOMIAL);
    }
  }

  lemma TopBit(half: nat)
    requires half < 0x8000_0000
    ensures Xor(half, POLYNOMIAL) >= 0x8000_0000
  {
    PowersOfTwo();
    var low := POLYNOMIAL - 0x8000_0000;
    XorDisjoint(low, 1, 31);
    XorAssociates(half, low, 0x8000_0000);
    XorBound(half, low, 31);
    XorDisjoint(Xor(half, low), 1, 31);
  }

  lemma {:induction false} ShiftsBound(n: nat, r: nat)
    requires r < REGISTER_SIZE
    ensures Shifts(n, r) < REGISTER_SIZE
  {
    if n != 0 {
      ShiftBound(r);
      ShiftsBound(n - 1, Shift(r));
    }
  }

  lemma {:induction false} ShiftsInjective(n: nat, a: nat, b: nat)
    requires a < REGISTER_SIZE && b < REGISTER_SIZE && Shifts(n, a) == Shifts(n, b)
    ensures a == b
    decreases n
  {
    if n != 0 {
      ShiftBound(a);
      ShiftBound(b);
      ShiftsInjective(n - 1, Shift(a), Shift(b));
      ShiftInjective(a, b);
    }
  }

  lemma {:induction false} ShiftsCompose(m: nat, n: nat, r: nat)
    ensures Shifts(m + n, r) == Shifts(n, Shifts(m, r))
    decreases m
  {
    if m != 0 { ShiftsCompose(m - 1, n, Shift(r)); }
  }

  lemma XorDoubled(a: nat, y: nat)
    ensures Xor(a, 2 * y) / 2 == Xor(a / 2, y) && Xor(a, 2 * y) % 2 == a % 2
  {
    var d := 2 * y;
    DoubleHalves(a, y);
    XorHalves(a, d);
  }

  lemma DoubleHalves(a: nat, y: nat)
    ensures 2 * y / 2 == y && (a + 2 * y) % 2 == a % 2
  {}

  lemma XorSwaps(a: nat, b: nat, c: nat)
    ensures Xor(Xor(a, b), c) == Xor(Xor(a, c), b)
  {
    XorAssociates(a, b, c);
    XorCommutes(b, c);
    XorAssociates(a, c, b);
  }

  /** Feeding y after the shift is the same as feeding it one place higher before the shift. */
  lemma ShiftLinear(a: nat, y: nat)
    ensures Shift(Xor(a, 2 * y)) == Xor(Shift(a), y)
  {
    XorDoubled(a, y);
    if a % 2 == 1 {
      XorSwaps(a / 2, y, POLYNOMIAL);
    }
  }

  lemma {:induction false} ShiftsLinear(n: nat, a: nat, y: nat)
    ensures Shifts(n, Xor(a, Pow2(n) * y)) == Xor(Shifts(n, a), y)
    decreases n
  {
    if n != 0 {
      var z := Pow2(n - 1) * y;
      assert Pow2(n) * y == 2 * z;
      ShiftLinear(a, z);
      ShiftsLinear(n - 1, Shift(a), y);
    }
  }

  lemma {:induction false} FoldBound(r: nat, s: seq<byte>)
    requires r < REGISTER_SIZE
    ensures Fold(r, s) < REGISTER_SIZE
    decreases |s|
  {
    if |s| != 0 {
      AbsorbBound(r, s[0]);
      FoldBound(Absorb(r, s[0]), s[1..]);
    }
  }

  lemma AbsorbBound(r: nat, b: byte)
    requires r < REGISTER_SIZE
    ensures Absorb(r, b) < REGISTER_SIZE
  {
    PowersOfTwo();
    XorBound(r, b, 32);
    ShiftsBound(8, Xor(r, b));
  }

  lemma {:induction false} FoldConcat(r: nat, s: seq<byte>, t: seq<byte>)
    ensures Fold(r, s + t) == Fold(Fold(r, s), t)
    decreases |s|
  {
    if |s| == 0 {
      assert s + t == t;
    } else {
      assert (s + t)[1..] == s[1..] + t;
      FoldConcat(Absorb(r, s[0]), s[1..], t);
    }
  }

  /** Whatever follows, two different registers never meet again. */
  lemma {:induction false} FoldInjective(a: nat, b: nat, s: seq<byte>)
    requires a < REGISTER_SIZE && b < REGISTER_SIZE && Fold(a, s) == Fold(b, s)
    ensures a == b
    decreases |s|
  {
    if |s| != 0 {
      AbsorbBound(a, s[0]);
      AbsorbBound(b, s[0]);
      FoldInjective(Absorb(a, s[0]), Absorb(b, s[0]), s[1..]);
      PowersOfTwo();
      XorBound(a, s[0], 32);
      XorBound(b, s[0], 32);
      ShiftsInjective(8, Xor(a, s[0]), Xor(b, s[0]));
      XorCancels(a, b, s[0]);
    }
  }

  // ---------------------------------------------------------------- bursts

  function LittleEndian(w: seq<byte>): nat {
    if |w| == 0 then 0 else w[0] + 256 * LittleEndian(w[1..])
  }

  lemma {:induction false} LittleEndianInjective(v: seq<byte>, w: seq<byte>)
    requires |v| == |w| && LittleEndian(v) == LittleEndian(w)
    ensures v == w
  {
    if |v| != 0 {
      LittleEndianInjective(v[1..], w[1..]);
      assert v == [v[0]] + v[1..] && w == [w[0]] + w[1..];
    }
  }

  lemma {:induction false} Pow2Monotone(j: nat, k: nat)
    requires j <= k
    ensures Pow2(j) <= Pow2(k)
    decreases k
  {
    if j < k { Pow2Monotone(j, k - 1); }
  }

  lemma {:induction false} Pow2Adds(j: nat, k: nat)
    ensures Pow2(j + k) == Pow2(j) * Pow2(k)
  {
    if j != 0 {
      Pow2Adds(j - 1, k);
      assert Pow2(j) * Pow2(k) == 2 * (Pow2(j - 1) * Pow2(k));
    }
  }

  lemma {:induction false} LittleEndianPow(w: seq<byte>)
    ensures LittleEndian(w) < Pow2(8 * |w|)
  {
    if |w| != 0 {
      LittleEndianPow(w[1..]);
      PowersOfTwo();
      Pow2Adds(8, 8 * |w[1..]|);
    }
  }

  lemma LittleEndianBound(w: seq<byte>)
    requires |w| <= 4
    ensures LittleEndian(w) < REGISTER_SIZE
  {
    LittleEndianPow(w);
    PowersOfTwo();
    Pow2Monotone(8 * |w|, 32);
  }

  lemma AbsorbThenFeed(r: nat, b: byte, t: nat)
    ensures Xor(Absorb(r, b), t) == Shifts(8, Xor(r, b + 256 * t))
  {
    hide Xor;
    PowersOfTwo();
    ShiftThenFeed(8, r, b, t);
  }

  /** A word fed after n shifts could have been fed n places higher before them. */
  lemma ShiftThenFeed(n: nat, r: nat, b: nat, t: nat)
    requires b < Pow2(n)
    ensures Xor(Shifts(n, Xor(r, b)), t) == Shifts(n, Xor(r, b + Pow2(n) * t))
  {
    hide Xor;
    var high := Pow2(n) * t;
    ShiftsLinear(n, Xor(r, b), t);
    XorAssociates(r, b, high);
    XorDisjoint(b, t, n);
  }

  /** Absorbing bytes one at a time equals absorbing them as one word and shifting once for all. */
  lemma {:induction false} FoldAsWord(r: nat, w: seq<byte>)
    ensures Fold(r, w) == Shifts(8 * |w|, Xor(r, LittleEndian(w)))
    decreases |w|
  {
    hide Xor;
    if |w| == 0 {
      XorZero(r);
    } else {
      var b, rest := w[0], w[1..];
      FoldAsWord(Absorb(r, b), rest);
      AbsorbThenFeed(r, b, LittleEndian(rest));
      ShiftsCompose(8, 8 * |rest|, Xor(r, LittleEndian(w)));
    }
  }

  /** Two messages that differ only inside a window of at most four bytes have different checksums. */
  lemma BurstDetected(pre: seq<byte>, v: seq<byte>, w: seq<byte>, post: seq<byte>)
    requires |v| == |w| <= 4 && v != w
    ensures Checksum(pre + v + post) != Checksum(pre + w + post)
  {
    var r := Fold(ALL_ONES, pre);
    FoldBound(ALL_ONES, pre);
    FoldConcat(ALL_ONES, pre, v);
    FoldConcat(ALL_ONES, pre + v, post);
    FoldConcat(ALL_ONES, pre, w);
    FoldConcat(ALL_ONES, pre + w, post);
    if Checksum(pre + v + post) == Checksum(pre + w + post) {
      XorCancels(Fold(ALL_ONES, pre + v + post), Fold(ALL_ONES, pre + w + post), ALL_ONES);
      FoldBound(r, v);
      FoldBound(r, w);
      FoldInjective(Fold(r, v), Fold(r, w), post);
      WindowInjective(r, v, w);
      assert false;
    }
  }

  lemma WindowInjective(r: nat, v: seq<byte>, w: seq<byte>)
    requires r < REGISTER_SIZE && |v| == |w| <= 4 && Fold(r, v) == Fold(r, w)
    ensures v == w
  {
    FoldAsWord(r, v);
    FoldAsWord(r, w);
    LittleEndianBound(v);
    LittleEndianBound(w);
    PowersOfTwo();
    XorBound(r, LittleEndian(v), 32);
    XorBound(r, LittleEndian(w), 32);
    ShiftsInjective(8 * |v|, Xor(r, LittleEndian(v)), Xor(r, LittleEndian(w)));
    XorCommutes(r, LittleEndian(v));
    XorCommutes(r, LittleEndian(w));
    XorCancels(LittleEndian(v), LittleEndian(w), r);
    LittleEndianInjective(v, w);
  }
}
