/** Machine words: shifts and bitwise operators on naturals, and the 32-bit
    wrap-around of the integers the program computes with. */
module Bits {

  type Word = x: int | 0 <= x < 0x1_0000_0000
  type Byte = x: int | 0 <= x < 256

  function Abs(a: int): nat { if a < 0 then -a else a }

  function Pow2(n: nat): (p: nat)
    ensures p >= 1
  {
    if n == 0 then 1 else 2 * Pow2(n - 1)
  }

  /** m doubled k times. */
  function Scale(m: nat, k: nat): nat {
    if k == 0 then m else 2 * Scale(m, k - 1)
  }

  /** Right shift: m halved k times, dropping the bits below the point. */
  function Shr(m: nat, k: nat): nat {
    if k == 0 then m else Shr(m / 2, k - 1)
  }

  /** Unsigned 32-bit left shift; the bits shifted out are lost. */
  function Shl(m: nat, k: nat): Word { Scale(m, k) % 0x1_0000_0000 }

  function Or(a: nat, b: nat): nat
    decreases a + b
  {
    if a == 0 && b == 0 then 0
    else (if a % 2 == 1 || b % 2 == 1 then 1 else 0) + 2 * Or(a / 2, b / 2)
  }

  function And(a: nat, b: nat): nat
    decreases a + b
  {
    if a == 0 && b == 0 then 0
    else (if a % 2 == 1 && b % 2 == 1 then 1 else 0) + 2 * And(a / 2, b / 2)
  }

  function Xor(a: nat, b: nat): nat
    decreases a + b
  {
    if a == 0 && b == 0 then 0
    else (if a % 2 != b % 2 then 1 else 0) + 2 * Xor(a / 2, b / 2)
  }

  /** The unsigned and the signed 32-bit value of an integer. */
  function U32(v: int): Word { v % 0x1_0000_0000 }

  function S32(v: int): int { (v + 0x8000_0000) % 0x1_0000_0000 - 0x8000_0000 }

  /** Unsigned negation. */
  function Neg32(w: Word): Word { (0x1_0000_0000 - w as int) % 0x1_0000_0000 }

  // ------------------------------------------------------------ powers and shifts

  lemma {:induction false} Pow2Monotone(a: nat, b: nat)
    requires a <= b
    ensures Pow2(a) <= Pow2(b)
    decreases b
  {
    if a < b { Pow2Monotone(a, b - 1); }
  }

  lemma {:induction false} Pow2Add(a: nat, b: nat)
    ensures Pow2(a + b) == Pow2(a) * Pow2(b)
  {
    if b > 0 {
      Pow2Add(a, b - 1);
      MulAssoc(Pow2(a), 2, Pow2(b - 1));
    }
  }

  lemma Pow2Values()
    ensures Pow2(11) == 2048
    ensures Pow2(20) == 0x10_0000
    ensures Pow2(21) == 0x20_0000
    ensures Pow2(31) == 0x8000_0000
    ensures Pow2(32) == 0x1_0000_0000
    ensures Pow2(52) == 0x10_0000_0000_0000
    ensures Pow2(53) == 0x20_0000_0000_0000
  {
    assert Pow2(10) == 1024;
    assert Pow2(11) == 2048;
    Pow2Add(10, 10);
    Pow2Add(10, 11);
    Pow2Add(10, 21);
    Pow2Add(11, 21);
    Pow2Add(20, 32);
    Pow2Add(21, 32);
  }

  lemma {:induction false} ScalePow2(a: nat, k: nat)
    ensures Scale(Pow2(a), k) == Pow2(a + k)
  {
    if k > 0 { ScalePow2(a, k - 1); }
  }

  lemma {:induction false} ScaleTwice(m: nat, a: nat, b: nat)
    ensures Scale(Scale(m, a), b) == Scale(m, a + b)
  {
    if b > 0 { ScaleTwice(m, a, b - 1); }
  }

  lemma {:induction false} ScaleAdd(a: nat, b: nat, k: nat)
    ensures Scale(a + b, k) == Scale(a, k) + Scale(b, k)
  {
    if k > 0 { ScaleAdd(a, b, k - 1); }
  }

  lemma {:induction false} ScaleOrder(a: nat, b: nat, k: nat)
    ensures a <= b <==> Scale(a, k) <= Scale(b, k)
  {
    if k > 0 { ScaleOrder(a, b, k - 1); }
  }

  lemma {:induction false} ScaleBounds(m: nat, k: nat)
    ensures Scale(m, k) >= m
    ensures k > 0 ==> Scale(m, k) >= 2 * m
    ensures m > 0 ==> Scale(m, k) >= Pow2(k)
  {
    if k > 0 { ScaleBounds(m, k - 1); }
  }

  lemma {:induction false} ScaleIs(m: nat, k: nat)
    ensures Scale(m, k) == m * Pow2(k)
  {
    if k > 0 {
      ScaleIs(m, k - 1);
      MulAssoc(m, 2, Pow2(k - 1));
    }
  }

  /** Scaling by a fixed number of places, as a product. */
  lemma ScaleConstants(m: nat)
    ensures Scale(m, 1) == 2 * m
    ensures Scale(m, 11) == 2048 * m
    ensures Scale(m, 20) == 0x10_0000 * m
    ensures Scale(m, 21) == 0x20_0000 * m
  {
    Pow2Values();
    ScaleIs(m, 11);
    ScaleIs(m, 20);
    ScaleIs(m, 21);
  }

  lemma ScaleWord(m: nat)
    ensures Scale(m, 31) == 0x8000_0000 * m
    ensures Scale(m, 32) == 0x1_0000_0000 * m
  {
    Pow2Values();
    ScaleIs(m, 31);
    ScaleIs(m, 32);
  }

  lemma {:induction false} ShrScale(m: nat, k: nat)
    ensures Shr(Scale(m, k), k) == m
  {
    if k > 0 { ShrScale(m, k - 1); }
  }

  /** What a right shift drops is less than a unit in the last place kept. */
  lemma {:induction false} ShrSplit(m: nat, k: nat)
    ensures Scale(Shr(m, k), k) <= m < Scale(Shr(m, k), k) + Pow2(k)
  {
    if k > 0 { ShrSplit(m / 2, k - 1); }
  }

  /** And that determines the shifted value. */
  lemma ShrUnique(m: nat, k: nat, q: nat)
    requires Scale(q, k) <= m < Scale(q, k) + Pow2(k)
    ensures Shr(m, k) == q
  {
    ShrSplit(m, k);
    var s := Shr(m, k);
    ScaleAdd(q, 1, k);
    ScaleAdd(s, 1, k);
    ScalePow2(0, k);
    ScaleOrder(q + 1, s, k);
    ScaleOrder(s + 1, q, k);
  }

  /** Remainders scale. */
  lemma {:induction false} ScaleRemainder(a: nat, b: nat, k: nat)
    requires b > 0
    ensures Scale(b, k) > 0 && Scale(a, k) % Scale(b, k) == Scale(a % b, k)
  {
    if k > 0 {
      ScaleRemainder(a, b, k - 1);
      ModTwice(Scale(a, k - 1), Scale(b, k - 1));
    }
  }

  lemma ModTwice(a: nat, b: nat)
    requires b > 0
    ensures (2 * a) % (2 * b) == 2 * (a % b)
  {
    DivMod(a, b);
    MulAssoc(2, b, a / b);
    ModUnique(2 * a, 2 * b, a / b, 2 * (a % b));
  }

  // ------------------------------------------------------------- bitwise operators

  /** Or of a multiple of 2^k and a number below 2^k adds them. */
  lemma {:induction false} OrDisjoint(a: nat, b: nat, k: nat)
    requires b < Pow2(k)
    ensures Or(Scale(a, k), b) == Scale(a, k) + b
    decreases k
  {
    if k == 0 {
      OrZero(a);
    } else if a > 0 || b > 0 {
      ScaleBounds(a, k);
      OrDisjoint(a, b / 2, k - 1);
    } else {
      ScaleZero(k);
    }
  }

  lemma {:induction false} ScaleZero(k: nat)
    ensures Scale(0, k) == 0
  {
    if k > 0 { ScaleZero(k - 1); }
  }

  lemma {:induction false} OrZero(a: nat)
    ensures Or(a, 0) == a
  {
    if a > 0 { OrZero(a / 2); }
  }

  lemma {:induction false} OrSame(a: nat)
    ensures Or(a, a) == a
  {
    if a > 0 { OrSame(a / 2); }
  }

  lemma {:induction false} OrCommutes(a: nat, b: nat)
    ensures Or(a, b) == Or(b, a)
    decreases a + b
  {
    if a != 0 || b != 0 { OrCommutes(a / 2, b / 2); }
  }

  lemma {:induction false} OrBounds(a: nat, b: nat)
    ensures Or(a, b) >= a && Or(a, b) >= b
    decreases a + b
  {
    if a != 0 || b != 0 { OrBounds(a / 2, b / 2); }
  }

  lemma OrIsZero(a: nat, b: nat)
    ensures Or(a, b) == 0 <==> a == 0 && b == 0
  {
    OrBounds(a, b);
  }

  lemma {:induction false} OrBelow(a: nat, b: nat, k: nat)
    requires a < Pow2(k) && b < Pow2(k)
    ensures Or(a, b) < Pow2(k)
    decreases k
  {
    if k > 0 && (a != 0 || b != 0) { OrBelow(a / 2, b / 2, k - 1); }
  }

  lemma OrOne(a: nat)
    ensures Or(a, 1) == if a % 2 == 0 then a + 1 else a
  {
    OrZero(a / 2);
  }

  function LowBits(a: nat, k: nat): nat {
    if k == 0 then 0 else a % 2 + 2 * LowBits(a / 2, k - 1)
  }

  /** The low bits are what a right shift drops. */
  lemma {:induction false} LowBitsSplit(a: nat, k: nat)
    ensures LowBits(a, k) < Pow2(k) && a == Scale(Shr(a, k), k) + LowBits(a, k)
  {
    if k > 0 { LowBitsSplit(a / 2, k - 1); }
  }

  /** Masking with k ones keeps them. */
  lemma {:induction false} AndLow(a: nat, k: nat)
    ensures And(a, Pow2(k) - 1) == LowBits(a, k)
    decreases k
  {
    if k == 0 {
      AndZero(a);
    } else {
      AndLow(a / 2, k - 1);
      var m := Pow2(k - 1);
      assert (2 * m - 1) / 2 == m - 1 && (2 * m - 1) % 2 == 1;
    }
  }

  lemma {:induction false} AndZero(a: nat)
    ensures And(a, 0) == 0
  {
    if a > 0 { AndZero(a / 2); }
  }

  lemma {:induction false} AndCommutes(a: nat, b: nat)
    ensures And(a, b) == And(b, a)
    decreases a + b
  {
    if a != 0 || b != 0 { AndCommutes(a / 2, b / 2); }
  }

  /** And with a single bit tests it, Xor with it flips it. */
  lemma {:induction false} TopBit(a: nat, k: nat)
    requires a < Pow2(k + 1)
    ensures And(a, Pow2(k)) == if a >= Pow2(k) then Pow2(k) else 0
    ensures Xor(a, Pow2(k)) == if a >= Pow2(k) then a - Pow2(k) else a + Pow2(k)
    decreases k
  {
    if k == 0 {
      assert Pow2(1) == 2;
    } else {
      TopBit(a / 2, k - 1);
      assert Pow2(k) / 2 == Pow2(k - 1) && Pow2(k) % 2 == 0;
    }
  }

  lemma {:induction false} XorZero(a: nat)
    ensures Xor(a, 0) == a
  {
    if a > 0 { XorZero(a / 2); }
  }

  // -------------------------------------------------------------------- products

  lemma ModUnique(a: int, m: nat, q: int, r: nat)
    requires m > 0 && r < m && a == m * q + r
    ensures a % m == r && a / m == q
  {
    MulSubtract(m, a / m, q);
    MulBelow(m, a / m - q);
  }

  lemma DivMod(a: int, m: nat)
    requires m > 0
    ensures a == m * (a / m) + a % m && 0 <= a % m < m
    ensures a >= 0 ==> a / m >= 0
  {
    if a >= 0 && a / m < 0 { MulMonotone(m, a / m, -1); }
  }

  lemma MulBelow(m: int, d: int)
    requires -m < m * d < m
    ensures d == 0
  {
  }

  lemma MulSubtract(m: int, a: int, b: int)
    ensures m * (a - b) == m * a - m * b
  {
  }

  lemma MulDistribute(m: int, a: int, b: int)
    ensures m * (a + b) == m * a + m * b
  {
  }

  lemma MulAssoc(a: int, b: int, c: int)
    ensures (a * b) * c == a * (b * c)
  {
  }

  lemma MulMonotone(a: nat, x: int, y: int)
    requires x <= y
    ensures a * x <= a * y
  {
  }

  lemma ModShift(a: int, y: nat, k: int)
    requires y > 0
    ensures (y * k + a) % y == a % y
  {
    DivMod(a, y);
    MulDistribute(y, k, a / y);
    ModUnique(y * k + a, y, k + a / y, a % y);
  }
}
