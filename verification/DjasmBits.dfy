/** The bit fields djasm composes and takes apart when it encodes an operand: the
    ModR/M byte with a SIB byte above it, and the word that collects the registers of
    a 32-bit address (src/djasm/djasm.c, lines 5919-5973 and 6022-6048). */
module DjasmBits {
  import opened Bits

  /** One of the eight values of a three-bit field. */
  type Three = x: nat | x < 8

  // --------------------------------------------------- operators field after field

  lemma ScaleBy(m: nat)
    ensures Scale(m, 3) == 8 * m && Scale(m, 5) == 0x20 * m && Scale(m, 6) == 0x40 * m && Scale(m, 8) == 0x100 * m
  {
    assert Scale(m, 1) == 2 * m;
    assert Scale(m, 2) == 4 * m;
    assert Scale(m, 3) == 8 * m;
    assert Scale(m, 4) == 0x10 * m;
    assert Scale(m, 5) == 0x20 * m;
    assert Scale(m, 6) == 0x40 * m;
    assert Scale(m, 7) == 0x80 * m;
  }

  lemma SmallPowers()
    ensures Pow2(3) == 8 && Pow2(6) == 0x40 && Pow2(8) == 0x100
  {
  }

  lemma Undouble(s: nat, u: nat, p: nat)
    ensures 2 * s + (2 * u + p) == 2 * (s + u) + p
  {
  }

  lemma OrDouble(u: nat, p: nat, v: nat, q: nat)
    requires p < 2 && q < 2
    ensures Or(2 * u + p, 2 * v + q) == 2 * Or(u, v) + if p == 1 || q == 1 then 1 else 0
  {
    assert (2 * u + p) / 2 == u && (2 * v + q) / 2 == v;
    assert (2 * u + p) % 2 == p && (2 * v + q) % 2 == q;
  }

  lemma {:induction false} OrSplit(a: nat, b: nat, c: nat, d: nat, k: nat)
    requires b < Pow2(k) && d < Pow2(k)
    ensures Or(Scale(a, k) + b, Scale(c, k) + d) == Scale(Or(a, c), k) + Or(b, d)
    decreases k
  {
    if k > 0 {
      var u, p, v, q := b / 2, b % 2, d / 2, d % 2;
      assert b == 2 * u + p && d == 2 * v + q;
      OrDouble(u, p, v, q);
      OrDouble(Scale(a, k - 1) + u, p, Scale(c, k - 1) + v, q);
      OrSplit(a, u, c, v, k - 1);
      Undouble(Scale(a, k - 1), u, p);
      Undouble(Scale(c, k - 1), v, q);
    }
  }

  lemma OrThree(a: nat, b: Three, c: nat, d: Three)
    ensures Or(8 * a + b, 8 * c + d) == 8 * Or(a, c) + Or(b, d)
  {
    SmallPowers();
    ScaleBy(a);
    ScaleBy(c);
    ScaleBy(Or(a, c));
    OrSplit(a, b, c, d, 3);
  }

  lemma OrSix(a: nat, b: nat, c: nat, d: nat)
    requires b < 0x40 && d < 0x40
    ensures Or(0x40 * a + b, 0x40 * c + d) == 0x40 * Or(a, c) + Or(b, d)
  {
    SmallPowers();
    ScaleBy(a);
    ScaleBy(c);
    ScaleBy(Or(a, c));
    OrSplit(a, b, c, d, 6);
  }

  lemma OrBytes(a: nat, b: Byte, c: nat, d: Byte)
    ensures Or(0x100 * a + b, 0x100 * c + d) == 0x100 * Or(a, c) + Or(b, d)
  {
    SmallPowers();
    ScaleBy(a);
    ScaleBy(c);
    ScaleBy(Or(a, c));
    OrSplit(a, b, c, d, 8);
  }

  lemma {:induction false} AndSplit(a: nat, b: nat, c: nat, d: nat, k: nat)
    requires b < Pow2(k) && d < Pow2(k)
    ensures And(Scale(a, k) + b, Scale(c, k) + d) == Scale(And(a, c), k) + And(b, d)
    decreases k
  {
    if k > 0 {
      AndSplit(a, b / 2, c, d / 2, k - 1);
      AndStep(Scale(a, k - 1), b, Scale(c, k - 1), d, Scale(And(a, c), k - 1), Scale(a, k) + b, Scale(c, k) + d);
    }
  }

  lemma AndStep(s: nat, b: nat, t: nat, d: nat, high: nat, x: nat, y: nat)
    requires x == 2 * s + b && y == 2 * t + d && And(s + b / 2, t + d / 2) == high + And(b / 2, d / 2)
    ensures And(x, y) == 2 * high + And(b, d)
  {
    assert x / 2 == s + b / 2 && y / 2 == t + d / 2 && x % 2 == b % 2 && y % 2 == d % 2;
  }

  lemma AndThree(a: nat, b: Three, c: nat, d: Three)
    ensures And(8 * a + b, 8 * c + d) == 8 * And(a, c) + And(b, d)
  {
    SmallPowers();
    ScaleBy(a);
    ScaleBy(c);
    ScaleBy(And(a, c));
    AndSplit(a, b, c, d, 3);
  }

  lemma AndSix(a: nat, b: nat, c: nat, d: nat)
    requires b < 0x40 && d < 0x40
    ensures And(0x40 * a + b, 0x40 * c + d) == 0x40 * And(a, c) + And(b, d)
  {
    SmallPowers();
    ScaleBy(a);
    ScaleBy(c);
    ScaleBy(And(a, c));
    AndSplit(a, b, c, d, 6);
  }

  lemma AndBytes(a: nat, b: Byte, c: nat, d: Byte)
    ensures And(0x100 * a + b, 0x100 * c + d) == 0x100 * And(a, c) + And(b, d)
  {
    SmallPowers();
    ScaleBy(a);
    ScaleBy(c);
    ScaleBy(And(a, c));
    AndSplit(a, b, c, d, 8);
  }

  lemma {:induction false} XorSplit(a: nat, b: nat, c: nat, d: nat, k: nat)
    requires b < Pow2(k) && d < Pow2(k)
    ensures Xor(Scale(a, k) + b, Scale(c, k) + d) == Scale(Xor(a, c), k) + Xor(b, d)
    decreases k
  {
    if k > 0 {
      XorSplit(a, b / 2, c, d / 2, k - 1);
      XorStep(Scale(a, k - 1), b, Scale(c, k - 1), d, Scale(Xor(a, c), k - 1), Scale(a, k) + b, Scale(c, k) + d);
    }
  }

  lemma XorStep(s: nat, b: nat, t: nat, d: nat, high: nat, x: nat, y: nat)
    requires x == 2 * s + b && y == 2 * t + d && Xor(s + b / 2, t + d / 2) == high + Xor(b / 2, d / 2)
    ensures Xor(x, y) == 2 * high + Xor(b, d)
  {
    assert x / 2 == s + b / 2 && y / 2 == t + d / 2 && x % 2 == b % 2 && y % 2 == d % 2;
  }

  lemma XorSix(a: nat, b: nat, c: nat, d: nat)
    requires b < 0x40 && d < 0x40
    ensures Xor(0x40 * a + b, 0x40 * c + d) == 0x40 * Xor(a, c) + Xor(b, d)
  {
    SmallPowers();
    ScaleBy(a);
    ScaleBy(c);
    ScaleBy(Xor(a, c));
    XorSplit(a, b, c, d, 6);
  }

  lemma XorBytes(a: nat, b: Byte, c: nat, d: Byte)
    ensures Xor(0x100 * a + b, 0x100 * c + d) == 0x100 * Xor(a, c) + Xor(b, d)
  {
    SmallPowers();
    ScaleBy(a);
    ScaleBy(c);
    ScaleBy(Xor(a, c));
    XorSplit(a, b, c, d, 8);
  }

  lemma ZeroOr(a: nat)
    ensures Or(0, a) == a
  {
    OrCommutes(a, 0);
    OrZero(a);
  }

  lemma ThreeBits(a: Three)
    ensures And(a, 7) == a
  {
    match a {
      case 0 => assert And(0, 7) == 0;
      case 1 => assert And(1, 7) == 1;
      case 2 => assert And(2, 7) == 2;
      case 3 => assert And(3, 7) == 3;
      case 4 => assert And(4, 7) == 4;
      case 5 => assert And(5, 7) == 5;
      case 6 => assert And(6, 7) == 6;
      case 7 => assert And(7, 7) == 7;
    }
  }

  // ------------------------------------------------------------------ single bits

  predicate Bit(m: nat, k: nat) { Shr(m, k) % 2 == 1 }

  lemma {:induction false} BitOr(a: nat, b: nat, k: nat)
    ensures Bit(Or(a, b), k) <==> Bit(a, k) || Bit(b, k)
    decreases k
  {
    OrDouble(a / 2, a % 2, b / 2, b % 2);
    if k > 0 { BitOr(a / 2, b / 2, k - 1); }
  }

  lemma {:induction false} BitZero(k: nat)
    ensures !Bit(0, k)
  {
    if k > 0 { BitZero(k - 1); }
  }

  lemma {:induction false} BitPower(j: nat, k: nat)
    ensures Bit(Pow2(j), k) <==> j == k
    decreases k
  {
    if j > 0 && k > 0 {
      BitPower(j - 1, k - 1);
    } else if j == 0 && k > 0 {
      BitZero(k - 1);
    }
  }

  // -------------------------------------------------------------- the ModR/M word

  /** A SIB byte over a ModR/M byte. */
  function Modrm(sib: Byte, mod: nat, reg: Three, rm: Three): nat {
    0x100 * sib + 0x40 * mod + 8 * reg + rm
  }

  lemma OrMod(mod: nat, low: nat)
    requires mod < 4 && low < 0x40
    ensures Or(low, 0x40 * mod) == 0x40 * mod + low
  {
    OrSix(0, low, mod, 0);
    OrZero(low);
    ZeroOr(mod);
  }

  /** Lines 5947 and 5973: mod 2. */
  lemma SetTwo(sib: Byte, reg: Three, rm: Three)
    ensures Or(Modrm(sib, 0, reg, rm), 0x80) == Modrm(sib, 2, reg, rm)
  {
    var low := 8 * reg + rm;
    OrMod(2, low);
    OrBytes(sib, low, 0, 0x80);
    OrZero(sib);
  }

  /** Line 5939: mod 1. */
  lemma SetOne(sib: Byte, reg: Three, rm: Three)
    ensures Or(Modrm(sib, 0, reg, rm), 0x40) == Modrm(sib, 1, reg, rm)
  {
    var low := 8 * reg + rm;
    OrMod(1, low);
    OrBytes(sib, low, 0, 0x40);
    OrZero(sib);
  }

  lemma XorThreeBits()
    ensures Xor(2, 3) == 1 && Xor(0, 3) == 3
  {
  }

  lemma XorMod(mod: nat, low: nat)
    requires (mod == 0 || mod == 2) && low < 0x40
    ensures Xor(0x40 * mod + low, 0xc0) == (if mod == 2 then 0x40 else 0xc0) + low
  {
    XorThreeBits();
    XorSix(mod, low, 3, 0);
    XorZero(low);
  }

  /** Line 5997: mod 2 becomes 1, and mod 0 becomes 3. */
  lemma FlipMod(sib: Byte, mod: nat, reg: Three, rm: Three)
    requires mod == 0 || mod == 2
    ensures Xor(Modrm(sib, mod, reg, rm), 0xc0) == Modrm(sib, if mod == 2 then 1 else 3, reg, rm)
  {
    var low := 8 * reg + rm;
    XorMod(mod, low);
    XorBytes(sib, 0x40 * mod + low, 0, 0xc0);
    XorZero(sib);
  }

  lemma AndMod(mod: nat, low: nat)
    requires mod < 2 && low < 0x40
    ensures And(0x40 * mod + low, 0x40) == 0x40 * mod
  {
    AndSix(mod, low, 1, 0);
    AndZero(low);
    if mod == 0 { assert And(0, 1) == 0; } else { assert And(1, 1) == 1; }
  }

  /** The test of line 5891. */
  lemma TestMod(sib: Byte, mod: nat, reg: Three, rm: Three)
    requires mod < 2
    ensures And(Modrm(sib, mod, reg, rm), 0x40) == 0x40 * mod
  {
    AndMod(mod, 8 * reg + rm);
    AndBytes(sib, 0x40 * mod + 8 * reg + rm, 0, 0x40);
    AndZero(sib);
  }

  lemma UpperByte(sib: Byte, low: Byte)
    ensures Shr(0x100 * sib + low, 8) == sib && (0x100 * sib + low) % 0x100 == low
  {
    SmallPowers();
    ScaleBy(sib);
    ShrUnique(0x100 * sib + low, 8, sib);
  }

  /** The bytes put out for the word (lines 5888-5890 and 5997-6004). */
  lemma ModrmBytes(sib: Byte, mod: nat, reg: Three, rm: Three)
    requires mod < 4
    ensures Modrm(sib, mod, reg, rm) % 0x100 == 0x40 * mod + 8 * reg + rm
    ensures Shr(Modrm(sib, mod, reg, rm), 8) == sib
  {
    UpperByte(sib, 0x40 * mod + 8 * reg + rm);
  }

  lemma ShlSmall(m: nat)
    requires m < 0x100
    ensures Shl(m, 3) == 8 * m && Shl(m, 6) == 0x40 * m && Shl(m, 8) == 0x100 * m
  {
    ScaleBy(m);
  }

  function Sib(base: Three, index: Three, ss: nat): nat { base + 8 * index + 0x40 * ss }

  lemma OrIndex(base: Three, index: Three)
    ensures Or(base, 8 * index) == base + 8 * index
  {
    OrThree(0, base, index, 0);
    OrZero(base);
    ZeroOr(index);
  }

  /** Lines 5921-5923: base, index and scale in one byte. */
  lemma SibJoined(base: Three, index: Three, ss: nat)
    requires ss < 4
    ensures Or(Or(base, Shl(index, 3)), Shl(ss, 6)) == Sib(base, index, ss)
  {
    ShlSmall(index);
    ShlSmall(ss);
    OrIndex(base, index);
    OrMod(ss, base + 8 * index);
  }

  /** The test of line 5935. */
  lemma SibBase(base: Three, index: Three, ss: nat)
    requires ss < 4
    ensures And(Sib(base, index, ss), 7) == base
  {
    AndThree(index + 8 * ss, base, 0, 7);
    ThreeBits(base);
    AndZero(index + 8 * ss);
  }

  /** The test of line 5932. */
  lemma SibIndex(base: Three, index: Three, ss: nat)
    requires ss < 4
    ensures And(Sib(base, index, ss), 0x38) == 8 * index
  {
    assert Sib(base, index, ss) == 8 * (index + 8 * ss) + base;
    AndThree(index + 8 * ss, base, 7, 0);
    AndZero(base);
    AndIndex(index, ss);
  }

  lemma AndIndex(index: Three, ss: nat)
    ensures And(index + 8 * ss, 7) == index
  {
    AndThree(ss, index, 0, 7);
    ThreeBits(index);
    AndZero(ss);
  }

  lemma OrReg(reg: Three, rm: Three)
    ensures Or(8 * reg, rm) == 8 * reg + rm
  {
    OrThree(reg, 0, 0, rm);
    ZeroOr(rm);
    OrZero(reg);
  }

  lemma OrEight(reg: Three)
    ensures Or(reg, 8) == reg + 8
  {
    OrThree(0, reg, 1, 0);
    ZeroOr(1);
    OrZero(reg);
  }

  lemma OrRegMod(reg: Three, rm: Three)
    ensures Or(8 * reg, 0x40 + rm) == 0x40 + 8 * reg + rm
  {
    OrThree(reg, 0, 8, rm);
    ZeroOr(rm);
    OrEight(reg);
  }

  /** Line 5916: [bp] with a zero byte displacement. */
  lemma BpForm(reg: Three)
    ensures Or(8 * reg, 0x46) == Modrm(0, 1, reg, 6)
  {
    OrRegMod(reg, 6);
  }

  lemma OrOver(high: nat, low: Byte)
    ensures Or(0x100 * high, low) == 0x100 * high + low
  {
    OrBytes(high, 0, 0, low);
    OrZero(high);
    ZeroOr(low);
  }

  lemma OrUnder(high: nat, low: Byte)
    ensures Or(low, 0x100 * high) == 0x100 * high + low
  {
    OrCommutes(low, 0x100 * high);
    OrOver(high, low);
  }

  /** Line 5926: [ebp] with a zero byte displacement. */
  lemma EbpForm(reg: Three)
    ensures Or(Or(8 * reg, 0x44), Shl(0x25, 8)) == Modrm(0x25, 1, reg, 4)
  {
    OrRegMod(reg, 4);
    ShlSmall(0x25);
    OrUnder(0x25, 0x44 + 8 * reg);
  }

  lemma SibFour(sib: Byte)
    ensures Or(Shl(sib, 8), 4) == 0x100 * sib + 4
  {
    ShlSmall(sib);
    OrOver(sib, 4);
  }

  /** Lines 5930, 5937, 5942 and 5953: a SIB byte, and rm 4 below it. */
  lemma WithSib(reg: Three, sib: Byte)
    ensures Or(8 * reg, Or(Shl(sib, 8), 4)) == Modrm(sib, 0, reg, 4)
  {
    SibFour(sib);
    OrReg(reg, 4);
    OrBytes(0, 8 * reg, sib, 4);
    ZeroOr(sib);
  }

  /** Line 5934 and the table search: an rm field. */
  lemma WithRm(reg: Three, rm: Three)
    ensures Or(8 * reg, rm) == Modrm(0, 0, reg, rm)
  {
    OrReg(reg, rm);
  }

  /** Line 5952: only the register field. */
  lemma OnlyReg(reg: Three)
    ensures And(8 * reg, 0x38) == 8 * reg
  {
    AndThree(reg, 0, 7, 0);
    ThreeBits(reg);
    AndZero(0);
  }

  // ------------------------------------------------------- the 32-bit address word

  /** _modrm.addr32: a base bit, an index bit, a scale and a mark, a byte each. */
  function Fields(base: Byte, index: Byte, scale: Byte, mark: nat): nat {
    base + 0x100 * (index + 0x100 * (scale + 0x100 * mark))
  }

  predicate RegBit(b: Byte) { b in {1, 2, 4, 8, 0x10, 0x20, 0x40, 0x80} }

  predicate ScaleBit(c: Byte) { c in {1, 2, 4, 8} }

  lemma RegBits(b: Byte)
    ensures And(b, 0xff) == b
  {
    SmallPowers();
    AndLow(b, 8);
    LowBitsSplit(b, 8);
    ScaleBounds(Shr(b, 8), 8);
  }

  lemma ScaleBits(c: Byte)
    requires c == 0 || ScaleBit(c)
    ensures And(c, 0xf) == c
  {
    if c == 0 { assert And(0, 0xf) == 0; }
    else if c == 1 { assert And(1, 0xf) == 1; }
    else if c == 2 { assert And(2, 0xf) == 2; }
    else if c == 4 { assert And(4, 0xf) == 4; }
    else { assert And(8, 0xf) == 8; }
  }

  /** `& 0xff` of a word with a register bit at the bottom. */
  lemma LowField(high: nat, b: Byte)
    ensures And(b + 0x100 * high, 0xff) == b
  {
    AndBytes(high, b, 0, 0xff);
    AndZero(high);
    RegBits(b);
  }

  /** `& 0xff00`. */
  lemma SecondField(high: nat, index: Byte, base: Byte)
    ensures And(base + 0x100 * (index + 0x100 * high), 0xff00) == 0x100 * index
  {
    AndBytes(index + 0x100 * high, base, 0xff, 0);
    LowField(high, index);
    AndZero(base);
  }

  lemma IndexField(base: Byte, index: Byte, scale: Byte)
    ensures And(Fields(base, index, scale, 1), 0xff00) == 0x100 * index
  {
    SecondField(scale + 0x100, index, base);
  }

  lemma ShiftedByte(high: nat, low: Byte)
    ensures Shr(low + 0x100 * high, 8) == high
  {
    SmallPowers();
    ScaleBy(high);
    ShrUnique(low + 0x100 * high, 8, high);
  }

  lemma {:induction false} ShrTwice(m: nat, j: nat, k: nat)
    ensures Shr(Shr(m, j), k) == Shr(m, j + k)
  {
    if j > 0 { ShrTwice(m / 2, j - 1, k); }
  }

  /** What lines 5921-5923 take out of the word. */
  lemma TakeFields(base: Byte, index: Byte, scale: Byte, mark: nat)
    requires scale == 0 || ScaleBit(scale)
    ensures And(Fields(base, index, scale, mark), 0xff) == base
    ensures And(Shr(Fields(base, index, scale, mark), 8), 0xff) == index
    ensures And(Shr(Fields(base, index, scale, mark), 16), 0xf) == scale
  {
    var a := scale + 0x100 * mark;
    LowField(index + 0x100 * a, base);
    ShiftedByte(index + 0x100 * a, base);
    LowField(a, index);
    ShiftedByte(a, index);
    ShrTwice(Fields(base, index, scale, mark), 8, 8);
    ScaleField(mark, scale);
  }

  lemma ScaleField(mark: nat, scale: Byte)
    requires scale == 0 || ScaleBit(scale)
    ensures And(scale + 0x100 * mark, 0xf) == scale
  {
    AndBytes(mark, scale, 0, 0xf);
    AndZero(mark);
    ScaleBits(scale);
  }

  lemma OrHigh(high: nat, low: Byte, y: nat)
    ensures Or(low + 0x100 * high, 0x100 * y) == low + 0x100 * Or(high, y)
  {
    OrBytes(high, low, y, 0);
    OrZero(low);
  }

  lemma MarkOver(bit: Byte, scale: Byte)
    ensures Or(0x1_0000, bit + 0x100 * scale) == 0x1_0000 + bit + 0x100 * scale
  {
    OrBytes(0x100, 0, scale, bit);
    ZeroOr(bit);
    OrOver(1, scale);
  }

  lemma ShlSib(bit: Byte, scale: Byte)
    requires ScaleBit(scale)
    ensures Shl(bit + 0x100 * scale, 8) == 0x100 * (bit + 0x100 * scale)
  {
    ScaleBy(bit + 0x100 * scale);
  }

  /** Line 6022: the mark. */
  lemma SetMark(base: Byte, index: Byte, scale: Byte)
    ensures Or(Fields(base, index, scale, 1), 0x100_0000) == Fields(base, index, scale, 1)
  {
    OrHigh(index + 0x100 * (scale + 0x100), base, 0x1_0000);
    MarkAgain(index, scale);
  }

  lemma FirstMark(word: nat, mark: nat)
    requires word == 0
    ensures Or(word, mark) == mark
  {
    ZeroOr(mark);
  }

  /** Lines 6029 and 6043: an index with its scale. */
  lemma AddIndex(base: Byte, bit: Byte, scale: Byte)
    requires RegBit(bit) && ScaleBit(scale)
    ensures Or(Fields(base, 0, 0, 1), Shl(bit + 0x100 * scale, 8)) == Fields(base, bit, scale, 1)
  {
    ShlSib(bit, scale);
    OrHigh(0x1_0000, base, bit + 0x100 * scale);
    MarkOver(bit, scale);
  }

  lemma BaseOperand(bit: Byte, c: Byte, mark: nat)
    requires RegBit(bit)
    ensures Or(And(bit + 0x100 * c, 0xff), 0x100 * mark) == bit + 0x100 * mark
  {
    LowField(c, bit);
    OrUnder(mark, bit);
  }

  lemma MarkAgain(index: Byte, scale: Byte)
    ensures Or(index + 0x100 * (scale + 0x100), 0x1_0000) == index + 0x100 * (scale + 0x100)
  {
    OrHigh(scale + 0x100, index, 0x100);
    OrHigh(1, scale, 1);
    OrSame(1);
  }

  lemma OrBase(a: nat, bit: Byte, b: nat)
    ensures Or(0x100 * a, bit + 0x100 * b) == bit + 0x100 * Or(a, b)
  {
    OrBytes(a, 0, b, bit);
    ZeroOr(bit);
  }

  /** Line 6033: a base. */
  lemma AddBase(index: Byte, scale: Byte, bit: Byte, c: Byte)
    requires RegBit(bit)
    ensures Or(Fields(0, index, scale, 1), Or(And(bit + 0x100 * c, 0xff), 0x100_0000)) == Fields(bit, index, scale, 1)
  {
    BaseOperand(bit, c, 0x1_0000);
    OrBase(index + 0x100 * (scale + 0x100), bit, 0x1_0000);
    MarkAgain(index, scale);
  }

  lemma ShlBase(base: Byte)
    requires RegBit(base)
    ensures Shl(And(Fields(base, 0, 0, 1), 0xff), 8) == 0x100 * base
  {
    LowField(0x1_0000, base);
    ShlSmall(base);
  }

  lemma SwapOperand(sib: nat)
    requires sib == 0x110
    ensures Or(And(sib, 0xff), 0x101_0000) == 0x101_0010
  {
    BaseOperand(0x10, 1, 0x1_0100);
  }

  lemma SwapFields(base: Byte)
    ensures Or(0x100 * base, 0x101_0010) == Fields(0x10, base, 1, 1)
  {
    OrBase(base, 0x10, 0x1_0100);
    OrUnder(0x101, base);
  }

  /** Lines 6039-6040: esp takes the place of the base, which becomes the index. */
  lemma SwapBase(base: Byte, sib: nat)
    requires RegBit(base) && sib == 0x110
    ensures Or(Shl(And(Fields(base, 0, 0, 1), 0xff), 8), Or(And(sib, 0xff), 0x101_0000)) == Fields(0x10, base, 1, 1)
  {
    ShlBase(base);
    SwapOperand(sib);
    SwapFields(base);
  }

  /** The test of line 6023 and the register bits of line 6024. */
  lemma SibParts(bit: Byte, scale: Byte)
    requires RegBit(bit) && ScaleBit(scale)
    ensures And(bit + 0x100 * scale, 0xf00) == 0x100 * scale
    ensures And(bit + 0x100 * scale, 0xff) == bit
  {
    AndBytes(scale, bit, 0xf, 0);
    AndZero(bit);
    ScaleBits(scale);
    LowField(scale, bit);
  }
}
