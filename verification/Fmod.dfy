/** The floating remainder, by shift and subtract on pairs of 32-bit words
    (src/libm/math/e_fmod.c). */
module Fmod {
  import opened Bits
  import opened Doubles

  /** The result: the exceptional quotient (x*y)/(x*y), or a number. */
  datatype Outcome = Invalid | Result(d: Double)

  /** A normalised significand `m` with exponent `e` stands for the magnitude `u`:
      u == m * 2^(e-52), in units of 2^-1074, for exponents on either side of -1022. */
  ghost predicate StandsFor(m: int, e: int, u: nat) {
    if m < 0 then false else if e >= -1022 then u == Scale(m, e + 1022) else m == Scale(u, -1022 - e)
  }

  ghost predicate Normal(m: int) { 0x10_0000_0000_0000 <= m < 0x20_0000_0000_0000 }

  function Pair(hi: int, lo: int): int { hi * 0x1_0000_0000 + lo }

  /** What section 7.12.10.1 of ISO/IEC 9899:1999 asks of the result: x - n*y for
      some integer n, with the sign of x and a magnitude less than that of y. */
  ghost predicate IsRemainder(x: Double, y: Double, r: Double) {
    && r.Finite() && r.Negative() == x.Negative() && r.Mag() < y.Mag()
    && exists n: int :: Differ(r.Value(), x.Value(), n, y.Value())
  }

  /** r is n multiples of y away from x. */
  ghost predicate Differ(r: int, x: int, n: int, y: int) { r == x - n * y }

  /** That requirement has exactly one solution, the remainder of the magnitudes
      under the sign of x; its n is the quotient truncated toward zero. */
  lemma RemainderDetermined(x: Double, y: Double, r: Double)
    requires y.Mag() > 0
    ensures IsRemainder(x, y, r) <==>
      r.Finite() && r.Negative() == x.Negative() && r.Mag() == x.Mag() % y.Mag()
    ensures IsRemainder(x, y, r) ==>
      r.Value() == x.Value() - Signed(x.Negative() != y.Negative(), x.Mag() / y.Mag()) * y.Value()
  {
    var flip := x.Negative() != y.Negative();
    if IsRemainder(x, y, r) {
      var n: int :| Differ(r.Value(), x.Value(), n, y.Value());
      var k := Signed(flip, n);
      SignedQuotient(x.Negative(), y.Negative(), x.Mag(), y.Mag(), r.Mag(), n, k);
      ModUnique(x.Mag(), y.Mag(), k, r.Mag());
    }
    if r.Finite() && r.Negative() == x.Negative() && r.Mag() == x.Mag() % y.Mag() {
      QuotientWitness(x, y, r);
    }
  }

  lemma QuotientWitness(x: Double, y: Double, r: Double)
    requires y.Mag() > 0 && r.Finite() && r.Negative() == x.Negative() && r.Mag() == x.Mag() % y.Mag()
    ensures IsRemainder(x, y, r)
  {
    var k := x.Mag() / y.Mag();
    DivMod(x.Mag(), y.Mag());
    var n := Signed(x.Negative() != y.Negative(), k);
    SignedQuotient(x.Negative(), y.Negative(), x.Mag(), y.Mag(), r.Mag(), n, k);
    assert Differ(r.Value(), x.Value(), n, y.Value());
  }

  lemma SignedQuotient(nx: bool, ny: bool, mx: int, my: int, mr: int, n: int, k: int)
    requires n == Signed(nx != ny, k)
    ensures Differ(Signed(nx, mr), Signed(nx, mx), n, Signed(ny, my)) <==> mx == my * k + mr
  {
    assert n * Signed(ny, my) == Signed(nx, my * k);
  }

  // ---------------------------------------------------------------- exponents

  /** The loops of lines 59 and 61: `ix` counts down once for every doubling that
      keeps the signed word positive. */
  method CountDown(ix0: int, start: Word) returns (ix: int, ghost k: nat)
    requires start > 0
    ensures ix == ix0 - k && k <= 31
    ensures 0x8000_0000 <= Scale(start, k) < 0x1_0000_0000
  {
    var i := S32(start);
    ix, k := ix0, 0;
    while i > 0
      invariant ix == ix0 - k && 0 <= k <= 31
      invariant 0 < Scale(start, k) < 0x1_0000_0000 && i == S32(Scale(start, k))
      decreases 32 - k
    {
      AtMost31(start, k);
      ix, i, k := ix - 1, S32(i * 2), k + 1;
    }
  }

  lemma AtMost31(a: nat, k: nat)
    requires a > 0 && Scale(a, k) < 0x8000_0000
    ensures k < 31
  {
    ScaleBounds(a, k);
    Pow2Values();
    if k >= 31 { Pow2Monotone(31, k); }
  }

  /** The exponent of a nonzero finite magnitude (lines 57-72). */
  method Ilogb(hi: nat, lo: Word) returns (e: int)
    requires hi < 0x7ff0_0000 && Pair(hi, lo) > 0
    ensures hi >= 0x10_0000 ==> e == hi / 0x10_0000 - 1023
    ensures hi < 0x10_0000 ==> -1074 <= e < -1022 && NormalisedBy(hi, lo, -1022 - e)
  {
    if hi < 0x10_0000 {
      ghost var k;
      if hi == 0 {
        e, k := CountDown(-1043, lo);
        LowTopBit(lo, k);
      } else {
        ScaleConstants(hi);
        e, k := CountDown(-1022, Shl(hi, 11));
        HighTopBit(hi, lo, k);
      }
    } else {
      e := hi / 0x10_0000 - 1023;
    }
  }

  /** Shifting left by n makes the pair normal; above 31 the high word is empty. */
  ghost predicate NormalisedBy(hi: nat, lo: Word, n: nat) {
    && Normal(Scale(Pair(hi, lo), n))
    && (n > 31 ==> hi == 0)
  }

  lemma LowTopBit(lo: Word, k: nat)
    requires 0x8000_0000 <= Scale(lo, k) < 0x1_0000_0000
    ensures NormalisedBy(0, lo, k + 21)
  {
    ScaleTwice(lo, k, 21);
    ScaleConstants(Scale(lo, k));
  }

  lemma HighTopBit(hi: nat, lo: Word, k: nat)
    requires 0 < hi < 0x10_0000 && 0x8000_0000 <= Scale(2048 * hi, k) < 0x1_0000_0000
    ensures 0 < k <= 20 && NormalisedBy(hi, lo, k)
  {
    ScaleTwice(hi, 11, k);
    ScaleTwice(hi, k, 11);
    ScaleConstants(hi);
    ScaleConstants(Scale(hi, k));
    ScaleBounds(hi, k);
    Pow2Values();
    if k > 20 { Pow2Monotone(21, k); }
    PairScale(hi, lo, k);
    RoomForOne(hi, k);
  }

  /** Scaling a pair scales its words; the low one stays below a high unit. */
  lemma PairScale(hi: nat, lo: Word, k: nat)
    ensures Scale(Pair(hi, lo), k) == Pair(Scale(hi, k), Scale(lo, k))
    ensures Scale(lo, k) < 0x1_0000_0000 * Pow2(k)
  {
    ScaleWord(hi);
    ScaleWord(Scale(hi, k));
    ScaleTwice(hi, 32, k);
    ScaleTwice(hi, k, 32);
    ScaleAdd(0x1_0000_0000 * hi, lo, k);
    Pow2Values();
    ScalePow2(32, k);
    ScalePow2(k, 32);
    ScaleWord(Pow2(k));
    ScaleOrder(0x1_0000_0000, lo, k);
  }

  /** A multiple of 2^k below 2^21 is at least 2^k below it. */
  lemma RoomForOne(hi: nat, k: nat)
    requires k <= 20 && Scale(hi, k) < 0x20_0000
    ensures Scale(hi, k) + Pow2(k) <= 0x20_0000
  {
    Pow2Values();
    ScalePow2(21 - k, k);
    ScaleOrder(Pow2(21 - k), hi, k);
    ScaleOrder(hi + 1, Pow2(21 - k), k);
    ScaleAdd(hi, 1, k);
    ScalePow2(0, k);
  }

  // ---------------------------------------------------------------- alignment

  /** Lines 75-86 (and 87-98 for y): make the significand explicit. */
  method Align(hi: nat, lo: Word, e: int) returns (h: int, l: Word)
    requires hi < 0x7ff0_0000
    requires hi >= 0x10_0000 ==> e == hi / 0x10_0000 - 1023
    requires hi < 0x10_0000 ==> -1074 <= e < -1022 && NormalisedBy(hi, lo, -1022 - e)
    ensures h >= 0 && Normal(Pair(h, l))
    ensures StandsFor(Pair(h, l), e, Double(hi, lo).Mag())
  {
    if e >= -1022 {
      MantissaBits(hi);
      h, l := Or(0x10_0000, And(0xf_ffff, hi)), lo;
      NormalStandsFor(hi, lo);
    } else {
      var n := -1022 - e;
      SubnormalMag(hi, lo);
      if n <= 31 {
        ShiftLeft(hi, lo, n);
        h, l := Or(Shl(hi, n), Shr(lo, 32 - n)), Shl(lo, n);
      } else {
        ShiftLeftFar(lo, n);
        h, l := Shl(lo, n - 32), 0;
      }
    }
  }

  lemma MantissaBits(hi: nat)
    ensures Or(0x10_0000, And(0xf_ffff, hi)) == 0x10_0000 + hi % 0x10_0000
  {
    Pow2Values();
    AndCommutes(0xf_ffff, hi);
    AndLow(hi, 20);
    LowBitsSplit(hi, 20);
    SplitMantissa(hi, Shr(hi, 20), LowBits(hi, 20));
    LeadingBit(0x10_0000, LowBits(hi, 20));
  }

  lemma LeadingBit(one: nat, r: nat)
    requires one == 0x10_0000 && r < one
    ensures Or(one, r) == one + r
  {
    Pow2Values();
    ScalePow2(0, 20);
    OrDisjoint(1, r, 20);
  }

  lemma SplitMantissa(a: nat, q: nat, r: nat)
    requires a == Scale(q, 20) + r && r < 0x10_0000
    ensures a % 0x10_0000 == r
  {
    ScaleConstants(q);
  }

  lemma NormalStandsFor(hi: nat, lo: Word)
    requires 0x10_0000 <= hi < 0x7ff0_0000
    ensures var m := Pair(0x10_0000 + hi % 0x10_0000, lo);
      Normal(m) && StandsFor(m, hi / 0x10_0000 - 1023, Double(hi, lo).Mag())
  {
    var d := Double(hi, lo);
    assert hi % 0x8000_0000 == hi;
    assert d.Exponent() == hi / 0x10_0000 && d.Fraction() == Pair(hi % 0x10_0000, lo);
  }

  lemma SubnormalMag(hi: nat, lo: Word)
    requires hi < 0x10_0000
    ensures Double(hi, lo).Mag() == Pair(hi, lo)
  {
    var d := Double(hi, lo);
    assert d.AbsHi() == hi;
    assert d.Exponent() == 0 && d.Fraction() == Pair(hi, lo);
  }

  /** The two-word left shift by n multiplies by 2^n. */
  lemma ShiftLeft(hi: nat, lo: Word, n: nat)
    requires 0 < n <= 31 && Normal(Scale(Pair(hi, lo), n))
    ensures Pair(Or(Shl(hi, n), Shr(lo, 32 - n)), Shl(lo, n)) == Scale(Pair(hi, lo), n)
  {
    PairScale(hi, lo, n);
    CarryOut(lo, n);
    KeepWord(Scale(hi, n));
    OrDisjoint(hi, Shr(lo, 32 - n), n);
  }

  /** The bits a word loses when shifted left are its top ones. */
  lemma CarryOut(lo: Word, n: nat)
    requires 0 < n <= 31
    ensures Scale(lo, n) == 0x1_0000_0000 * Shr(lo, 32 - n) + Shl(lo, n)
    ensures Shr(lo, 32 - n) < Pow2(n)
  {
    var k := 32 - n;
    var s, b := Shr(lo, k), LowBits(lo, k);
    LowBitsSplit(lo, k);
    ScaleAdd(Scale(s, k), b, n);
    ScaleTwice(s, k, n);
    ScaleWord(s);
    FitsWord(b, k);
    TopPart(lo, k);
    assert Scale(lo, n) == 0x1_0000_0000 * s + Scale(b, n);
    SplitWord(Scale(lo, n), s, Scale(b, n));
  }

  lemma SplitWord(a: nat, q: nat, r: nat)
    requires a == 0x1_0000_0000 * q + r && r < 0x1_0000_0000
    ensures a % 0x1_0000_0000 == r
  {
  }

  /** k bits shifted left by 32-k fit a word. */
  lemma FitsWord(b: nat, k: nat)
    requires k <= 32 && b < Pow2(k)
    ensures Scale(b, 32 - k) < 0x1_0000_0000
    ensures Scale(b, 32 - k) + Pow2(32 - k) <= 0x1_0000_0000
  {
    Pow2Values();
    ScalePow2(k, 32 - k);
    ScaleOrder(b + 1, Pow2(k), 32 - k);
    ScaleAdd(b, 1, 32 - k);
    ScalePow2(0, 32 - k);
  }

  lemma TopPart(lx: Word, n: nat)
    requires 0 < n < 32
    ensures Shr(lx, n) < Pow2(32 - n)
  {
    ShrSplit(lx, n);
    Pow2Values();
    ScalePow2(32 - n, n);
    ScaleOrder(Pow2(32 - n), Shr(lx, n), n);
  }

  lemma KeepWord(a: nat)
    requires a < 0x1_0000_0000
    ensures a % 0x1_0000_0000 == a
  {
  }

  /** Above 31 places the low word becomes the high one. */
  lemma ShiftLeftFar(lo: Word, n: nat)
    requires n > 31 && Normal(Scale(Pair(0, lo), n))
    ensures Pair(Shl(lo, n - 32), 0) == Scale(Pair(0, lo), n)
  {
    ScaleTwice(lo, n - 32, 32);
    ScaleWord(Scale(lo, n - 32));
    KeepWord(Scale(lo, n - 32));
  }

  // ---------------------------------------------------------- shift and subtract

  /** One two-word subtraction (lines 103 and 111). */
  method SubtractWords(hx: int, lx: Word, hy: int, ly: Word) returns (hz: int, lz: Word)
    ensures Pair(hz, lz) == Pair(hx, lx) - Pair(hy, ly)
    ensures hz >= 0 <==> Pair(hx, lx) >= Pair(hy, ly)
  {
    hz, lz := hx - hy, U32(lx as int - ly as int);
    if lx < ly { hz := hz - 1; }
  }

  /** One two-word doubling (lines 104, 108 and 118). */
  method DoubleWords(hx: int, lx: Word) returns (h: int, l: Word)
    ensures Pair(h, l) == 2 * Pair(hx, lx)
  {
    TopBitOut(lx);
    h, l := hx + hx + Shr(lx, 31), U32(lx + lx);
  }

  lemma TopBitOut(lx: Word)
    ensures 0x1_0000_0000 * Shr(lx, 31) + U32(lx + lx) == 2 * lx
  {
    CarryOut(lx, 1);
    ScaleConstants(lx);
  }

  /** Lines 101-112: the fixed-point remainder. The accumulator stays below twice
      the divisor and congruent, after the remaining doublings, to the scaled
      dividend; the words never leave the 32-bit signed range. */
  method FixedPoint(hx0: int, lx0: Word, hy: int, ly: Word, n0: nat)
    returns (hx: int, lx: Word)
    requires 0 <= hx0 && 0 <= hy
    requires Normal(Pair(hx0, lx0)) && Normal(Pair(hy, ly))
    ensures hx >= 0 && Pair(hx, lx) == Scale(Pair(hx0, lx0), n0) % Pair(hy, ly)
  {
    hx, lx := hx0, lx0;
    var n := n0;
    ghost var y, goal := Pair(hy, ly), Scale(Pair(hx0, lx0), n0) % Pair(hy, ly);
    while n > 0
      invariant 0 <= n <= n0
      invariant 0 <= hx < 0x40_0000 && 0 <= Pair(hx, lx) < 2 * y
      invariant Scale(Pair(hx, lx), n) % y == goal
    {
      n := n - 1;
      var hz, lz := SubtractWords(hx, lx, hy, ly);
      DoubleStep(Pair(hx, lx), y, n);
      if hz < 0 {
        hx, lx := DoubleWords(hx, lx);
      } else {
        OrIsZero(hz, lz);
        if Or(hz, lz) == 0 {
          ZeroStep(n, y);
          return 0, 0;
        }
        hx, lx := DoubleWords(hz, lz);
      }
    }
    var hz, lz := SubtractWords(hx, lx, hy, ly);
    LastStep(Pair(hx, lx), y);
    if hz >= 0 { hx, lx := hz, lz; }
  }

  /** Doubling trades one of the remaining doublings; subtracting the divisor first
      keeps the remainder. */
  lemma DoubleStep(x: nat, y: nat, n: nat)
    requires y > 0
    ensures Scale(x, n + 1) == Scale(2 * x, n)
    ensures x >= y ==> Scale(2 * (x - y), n) % y == Scale(x, n + 1) % y
  {
    ScaleTwice(x, 1, n);
    ScaleConstants(x);
    if x >= y {
      ScaleAdd(2 * (x - y), 2 * y, n);
      ScaleTwice(y, 1, n);
      ScaleConstants(y);
      ScaleIs(y, n + 1);
      ModShift(Scale(2 * (x - y), n), y, Pow2(n + 1));
    }
  }

  lemma ZeroStep(n: nat, y: nat)
    requires y > 0
    ensures Scale(0, n) % y == 0
  {
    ScaleZero(n);
  }

  lemma LastStep(x: nat, y: nat)
    requires y > 0 && x < 2 * y
    ensures Scale(x, 0) % y == if x >= y then x - y else x
  {
    if x >= y { ModUnique(x, y, 1, x - y); } else { ModUnique(x, y, 0, x); }
  }

  // ------------------------------------------------------------------ repacking

  /** The remainder of the scaled significands stands for the remainder of the
      magnitudes. */
  lemma RemainderStandsFor(mx: nat, ix: int, ux: nat, my: nat, iy: int, uy: nat)
    requires ix >= iy && my > 0 && uy > 0
    requires StandsFor(mx, ix, ux) && StandsFor(my, iy, uy)
    ensures StandsFor(Scale(mx, ix - iy) % my, iy, ux % uy)
  {
    var n := ix - iy;
    var m := Scale(mx, n);
    if iy >= -1022 {
      ScaleTwice(mx, n, iy + 1022);
      ScaleRemainder(m, my, iy + 1022);
    } else {
      var b := -1022 - iy;
      if ix >= -1022 {
        ScaleTwice(mx, ix + 1022, b);
      } else {
        ScaleTwice(ux, -1022 - ix, n);
      }
      assert m == Scale(ux, b);
      ScaleRemainder(ux, uy, b);
    }
  }

  /** Halving the unit doubles the significand. */
  lemma DoubleSignificand(m: nat, e: int, u: nat)
    requires StandsFor(m, e, u)
    ensures StandsFor(2 * m, e - 1, u)
  {
    if e > -1022 {
      ScaleTwice(m, 1, e + 1021);
      ScaleConstants(m);
    }
  }

  lemma StoreNormal(f: nat, lx: Word, e: nat, sx: Word)
    requires sx == 0 || sx == 0x8000_0000
    requires f < 0x10_0000 && 1 <= e <= 2046
    ensures Or(Or(f, Shl(e, 20)), sx) == e * 0x10_0000 + f + sx
    ensures var d := Double(e * 0x10_0000 + f + sx, lx);
      d.Finite() && d.Negative() == (sx != 0) && d.Mag() == Scale(Pair(f + 0x10_0000, lx), e - 1)
  {
    ExponentField(f, e);
    StoreSign(e * 0x10_0000 + f, sx);
    DoubleParts(e, f, lx, sx);
  }

  lemma ExponentField(f: nat, e: nat)
    requires f < 0x10_0000 && e <= 2046
    ensures Or(f, Shl(e, 20)) == e * 0x10_0000 + f
  {
    ScaleConstants(e);
    KeepWord(e * 0x10_0000);
    Pow2Values();
    OrCommutes(f, Scale(e, 20));
    OrDisjoint(e, f, 20);
  }

  lemma DoubleParts(e: nat, f: nat, lx: Word, sx: Word)
    requires sx == 0 || sx == 0x8000_0000
    requires f < 0x10_0000 && e <= 2046
    ensures var d := Double(e * 0x10_0000 + f + sx, lx);
      d.Finite() && d.Negative() == (sx != 0) && d.Exponent() == e && d.Fraction() == Pair(f, lx)
  {
    var h := e * 0x10_0000 + f;
    assert (h + sx) % 0x8000_0000 == h;
    assert h / 0x10_0000 == e && h % 0x10_0000 == f;
  }

  lemma StoreSign(h: nat, sx: Word)
    requires sx == 0 || sx == 0x8000_0000
    requires h < 0x8000_0000
    ensures Or(h, sx) == h + sx
    ensures Or(sx, sx) == sx
  {
    SignField(h, if sx == 0 then 0 else 1, sx);
    OrSame(sx);
  }

  lemma SignField(h: nat, bit: nat, s: nat)
    requires h < 0x8000_0000 && s == bit * 0x8000_0000
    ensures Or(h, s) == h + s
  {
    Pow2Values();
    ScaleIs(bit, 31);
    OrCommutes(h, s);
    OrDisjoint(bit, h, 31);
  }

  /** A nonzero multiple of 2^n below 2^53 bounds n. */
  lemma ShiftBound(x: nat, u: nat, n: nat)
    requires 0 < x < 0x20_0000_0000_0000 && x == Scale(u, n)
    ensures n <= 52 && u > 0 && Shr(x, n) == u
    ensures n > 0 ==> u < 0x10_0000_0000_0000
  {
    Pow2Values();
    if u == 0 { ScaleZero(n); }
    ScaleBounds(u, n);
    if n > 52 { Pow2Monotone(53, n); }
    ShrScale(u, n);
  }

  /** The two-word right shift divides by 2^n. */
  lemma ShiftRight(hx: nat, lx: Word, n: nat)
    requires 0 < n < 32
    ensures var lo := Or(Shr(lx, n), Shl(hx, 32 - n));
      && lo == Or(Shl(hx, 32 - n), Shr(lx, n))
      && lo < 0x1_0000_0000
      && Pair(Shr(hx, n), lo) == Shr(Pair(hx, lx), n)
  {
    var s, b, t := Shr(hx, n), LowBits(hx, n), Shr(lx, n);
    OrCommutes(t, Shl(hx, 32 - n));
    LowPart(hx, n);
    TopPart(lx, n);
    OrDisjoint(b, t, 32 - n);
    LowBitsSplit(hx, n);
    FitsWord(b, n);
    PairHalves(hx, lx, n, Pair(s, Scale(b, 32 - n) + t));
  }

  /** What is left of a word shifted left by 32-n are its low n bits. */
  lemma LowPart(hx: nat, n: nat)
    requires 0 < n < 32
    ensures Shl(hx, 32 - n) == Scale(LowBits(hx, n), 32 - n)
  {
    var s, b := Shr(hx, n), LowBits(hx, n);
    LowBitsSplit(hx, n);
    ScaleAdd(Scale(s, n), b, 32 - n);
    ScaleTwice(s, n, 32 - n);
    ScaleWord(s);
    FitsWord(b, n);
    SplitWord(Scale(hx, 32 - n), s, Scale(b, 32 - n));
  }

  lemma PairHalves(hx: nat, lx: Word, n: nat, q: nat)
    requires 0 < n < 32 && q == Pair(Shr(hx, n), Scale(LowBits(hx, n), 32 - n) + Shr(lx, n))
    ensures Shr(Pair(hx, lx), n) == q
  {
    var s, b, t := Shr(hx, n), LowBits(hx, n), Shr(lx, n);
    LowBitsSplit(hx, n);
    ShrSplit(lx, n);
    ThreeParts(s, b, t, n);
    ShrUnique(Pair(hx, lx), n, q);
  }

  lemma ThreeParts(s: nat, b: nat, t: nat, n: nat)
    requires n <= 32
    ensures Scale(Pair(s, Scale(b, 32 - n) + t), n) == Pair(Scale(s, n) + b, Scale(t, n))
  {
    ScaleHigh(s, n);
    ScaleTwice(b, 32 - n, n);
    ScaleWord(b);
    ScaleAdd(0x1_0000_0000 * s, Scale(b, 32 - n) + t, n);
    ScaleAdd(Scale(b, 32 - n), t, n);
  }

  lemma ScaleHigh(s: nat, n: nat)
    ensures Scale(0x1_0000_0000 * s, n) == 0x1_0000_0000 * Scale(s, n)
  {
    ScaleWord(s);
    ScaleWord(Scale(s, n));
    ScaleTwice(s, 32, n);
    ScaleTwice(s, n, 32);
  }

  /** Shifting by at least 32 only looks at the high word. */
  lemma ShiftRightFar(hx: nat, lx: Word, n: nat)
    requires n >= 32
    ensures Shr(Pair(hx, lx), n) == Shr(hx, n - 32)
  {
    var s, b := Shr(hx, n - 32), LowBits(hx, n - 32);
    LowBitsSplit(hx, n - 32);
    ScaleTwice(s, n - 32, 32);
    ScaleWord(Scale(s, n - 32));
    ScalePow2(n - 32, 32);
    ScaleWord(Pow2(n - 32));
    ShrUnique(Pair(hx, lx), n, s);
  }

  lemma SmallQuotient(a: nat, n: nat)
    requires a < Pow2(n)
    ensures Shr(a, n) == 0
  {
    ScaleZero(n);
    ShrUnique(a, n, 0);
  }

  /** Lines 117-134: normalise, then store as a normal or subnormal number. The
      right shifts for a subnormal result lose no set bit, since the remainder is a
      multiple of 2^-1074. */
  method Repack(sx: Word, hx0: int, lx0: Word, iy0: int, ghost u: nat) returns (r: Double)
    requires sx == 0 || sx == 0x8000_0000
    requires hx0 >= 0 && 0 < Pair(hx0, lx0) < 0x20_0000_0000_0000
    requires iy0 <= 1023 && StandsFor(Pair(hx0, lx0), iy0, u)
    ensures r.Finite() && r.Mag() == u && r.Negative() == (sx != 0)
  {
    var hx, lx, iy := hx0, lx0, iy0;
    while hx < 0x10_0000
      invariant hx >= 0 && 0 < Pair(hx, lx) < 0x20_0000_0000_0000
      invariant iy <= iy0 && StandsFor(Pair(hx, lx), iy, u)
      decreases 0x20_0000_0000_0000 - Pair(hx, lx)
    {
      DoubleSignificand(Pair(hx, lx), iy, u);
      hx, lx := DoubleWords(hx, lx);
      iy := iy - 1;
    }
    if iy >= -1022 {
      StoreNormal(hx - 0x10_0000, lx, iy + 1023, sx);
      hx := Or(hx - 0x10_0000, Shl(iy + 1023, 20));
      r := Double(Or(hx, sx), lx);
    } else {
      r := PackSubnormal(sx, hx, lx, -1022 - iy, u);
    }
  }

  /** Lines 124-134. */
  method PackSubnormal(sx: Word, hx0: int, lx0: Word, n: nat, ghost u: nat) returns (r: Double)
    requires sx == 0 || sx == 0x8000_0000
    requires hx0 >= 0 && n > 0 && Normal(Pair(hx0, lx0))
    requires Pair(hx0, lx0) == Scale(u, n)
    ensures r.Finite() && r.Mag() == u && r.Negative() == (sx != 0)
  {
    var hx, lx := hx0, lx0;
    SubnormalWords(hx, lx, n, u);
    if n <= 20 {
      lx := Or(Shr(lx, n), Shl(hx, 32 - n));
      hx := Shr(hx, n);
      StoreUnits(hx, lx, sx, u);
    } else if n <= 31 {
      lx := Or(Shl(hx, 32 - n), Shr(lx, n));
      hx := sx;
      StoreUnits(0, lx, sx, u);
    } else {
      lx := Shr(hx, n - 32);
      hx := sx;
      StoreUnits(0, lx, sx, u);
    }
    r := Double(Or(hx, sx), lx);
  }

  lemma StoreUnits(h: nat, lo: Word, sx: Word, u: nat)
    requires sx == 0 || sx == 0x8000_0000
    requires Pair(h, lo) == u < 0x10_0000_0000_0000
    ensures Or(h, sx) == h + sx && Or(sx, sx) == sx
    ensures var d := Double(h + sx, lo);
      d.Finite() && d.Mag() == u && d.Negative() == (sx != 0)
  {
    StoreSign(h, sx);
    DoubleParts(0, h, lo, sx);
  }

  /** What the three ways of shifting right leave in the words. */
  lemma SubnormalWords(hx: nat, lx: Word, n: nat, u: nat)
    requires n > 0 && Normal(Pair(hx, lx)) && Pair(hx, lx) == Scale(u, n)
    ensures u < 0x10_0000_0000_0000
    ensures n <= 20 ==> Pair(Shr(hx, n), Or(Shr(lx, n), Shl(hx, 32 - n))) == u
    ensures 20 < n <= 31 ==> Or(Shl(hx, 32 - n), Shr(lx, n)) == u < 0x1_0000_0000
    ensures n > 31 ==> Shr(hx, n - 32) == u < 0x1_0000_0000
    ensures n < 32 ==> Or(Shr(lx, n), Shl(hx, 32 - n)) < 0x1_0000_0000
  {
    ShiftBound(Pair(hx, lx), u, n);
    if n <= 31 {
      ShiftRight(hx, lx, n);
      if n > 20 {
        Pow2Values();
        Pow2Monotone(21, n);
        SmallQuotient(hx, n);
      }
    } else {
      ShiftRightFar(hx, lx, n);
      ShrSplit(hx, n - 32);
      ScaleBounds(Shr(hx, n - 32), n - 32);
    }
  }

  // ------------------------------------------------------------------ the function

  /** The sign of x with zero magnitude. */
  function Zero(sx: Word): (d: Double)
    requires sx == 0 || sx == 0x8000_0000
    ensures d.Finite() && d.Mag() == 0 && d.Negative() == (sx != 0)
  {
    Double(sx, 0)
  }

  /** The exception test of lines 47-49. */
  method Exceptional(x: Double, y: Double, hx: nat, hy: nat) returns (b: bool)
    requires hx == x.AbsHi() && hy == y.AbsHi()
    ensures b <==> !x.Finite() || y.NaN() || (y.Finite() && y.Mag() == 0)
  {
    var ly := y.lo;
    OrIsZero(hy, ly);
    AnyBit(ly);
    ZeroMeans(y);
    var any := Shr(Or(ly, Neg32(ly)), 31);
    AboveInfinity(hy, any);
    b := Or(hy, ly) == 0 || hx >= 0x7ff0_0000 || Or(hy, any) > 0x7ff0_0000;
  }

  lemma AboveInfinity(hy: nat, any: nat)
    requires any == 0 || any == 1
    ensures Or(hy, any) > 0x7ff0_0000 <==> hy > 0x7ff0_0000 || (hy == 0x7ff0_0000 && any == 1)
  {
    OrZero(hy);
    OrOne(hy);
  }

  lemma ZeroMeans(p: Double)
    ensures p.AbsHi() == 0 && p.lo == 0 <==> p.Finite() && p.Mag() == 0
  {
    PatternParts(p);
    if p.Exponent() > 0 { MagBounds(p.Exponent(), p.Fraction()); }
  }

  /** (w | -w) >> 31 tells whether w is nonzero. */
  lemma AnyBit(w: Word)
    ensures Shr(Or(w, Neg32(w)), 31) == if w == 0 then 0 else 1
  {
    if w == 0 {
      OrZero(0);
      Pow2Values();
      SmallQuotient(0, 31);
    } else {
      HighBitSet(w, Neg32(w));
      TopBitShifted(Or(w, Neg32(w)));
    }
  }

  lemma HighBitSet(a: Word, b: Word)
    requires a >= 0x8000_0000 || b >= 0x8000_0000
    ensures 0x8000_0000 <= Or(a, b) < 0x1_0000_0000
  {
    OrBounds(a, b);
    Pow2Values();
    OrBelow(a, b, 32);
  }

  lemma TopBitShifted(o: nat)
    requires 0x8000_0000 <= o < 0x1_0000_0000
    ensures Shr(o, 31) == 1
  {
    Pow2Values();
    ScalePow2(0, 31);
    ShrUnique(o, 31, 1);
  }

  /** The sign bit of a high word and the word without it (lines 42-43). */
  method SplitSign(w: Word) returns (sx: Word, h: Word)
    ensures sx == SignBit(w >= 0x8000_0000) && h == w % 0x8000_0000
  {
    SignBits(w);
    sx := And(w, 0x8000_0000);
    h := Xor(w, sx);
  }

  /** A high word masked to its low 31 bits (line 44). */
  method MaskSign(w: Word) returns (h: Word)
    ensures h == w % 0x8000_0000
  {
    LowMask(w);
    h := And(w, 0x7fff_ffff);
  }

  lemma SignBits(w: Word)
    ensures And(w, 0x8000_0000) == SignBit(w >= 0x8000_0000)
    ensures Xor(w, And(w, 0x8000_0000)) == w % 0x8000_0000
  {
    Pow2Values();
    TopBit(w, 31);
    XorZero(w);
  }

  lemma LowMask(w: Word)
    ensures And(w, 0x7fff_ffff) == w % 0x8000_0000
  {
    Pow2Values();
    AndLow(w, 31);
    LowBitsSplit(w, 31);
    ScaleWord(Shr(w, 31));
    SplitHalfWord(w, Shr(w, 31), LowBits(w, 31));
  }

  lemma SplitHalfWord(a: nat, q: nat, r: nat)
    requires a == 0x8000_0000 * q + r && r < 0x8000_0000
    ensures a % 0x8000_0000 == r
  {
  }

  lemma SmallerStays(x: Double, y: Double)
    requires x.Finite() && !y.NaN()
    requires x.Pattern() < y.Pattern()
    ensures y.Finite() ==> y.Mag() > 0 && x.Mag() % y.Mag() == x.Mag()
  {
    if y.Finite() {
      PatternOrder(x, y);
      ModUnique(x.Mag(), y.Mag(), 0, x.Mag());
    }
  }

  lemma FiniteBelow(x: Double, y: Double)
    requires x.Finite() && y.Pattern() < x.Pattern()
    ensures y.Finite()
  {
  }

  lemma EqualVanishes(x: Double, y: Double)
    requires x.Pattern() == y.Pattern() && x.Mag() > 0
    ensures y.Mag() == x.Mag() && x.Mag() % y.Mag() == 0
  {
    PatternFixes(Double(x.AbsHi(), x.lo), Double(y.AbsHi(), y.lo));
    ModUnique(x.Mag(), y.Mag(), 1, 0);
  }

  lemma SameMag(x: Double)
    ensures Double(x.AbsHi(), x.lo).Mag() == x.Mag()
    ensures x.Mag() > 0 ==> Pair(x.AbsHi(), x.lo) > 0
  {
    assert x.AbsHi() % 0x8000_0000 == x.AbsHi();
    if x.AbsHi() == 0 { assert x.Exponent() == 0; }
  }

  /** The larger magnitude has the larger exponent. */
  lemma ExponentOrder(mx: nat, ix: int, ux: nat, my: nat, iy: int, uy: nat)
    requires Normal(mx) && Normal(my) && ux > uy
    requires StandsFor(mx, ix, ux) && StandsFor(my, iy, uy)
    ensures ix >= iy
  {
    if ix < iy {
      if iy < -1022 {
        ScaleTwice(ux, -1022 - iy, iy - ix);
        ScaleOrder(uy, ux, -1022 - iy);
        ScaleBounds(Scale(ux, -1022 - iy), iy - ix);
      } else if ix < -1022 {
        ScaleBounds(my, iy + 1022);
        ScaleBounds(ux, -1022 - ix);
      } else {
        ScaleTwice(my, iy - ix, ix + 1022);
        ScaleBounds(my, iy - ix);
        ScaleOrder(mx, Scale(my, iy - ix), ix + 1022);
      }
      assert false;
    }
  }

  lemma ZeroStandsFor(e: int, u: nat)
    requires StandsFor(0, e, u)
    ensures u == 0
  {
    if e < -1022 { ScaleBounds(u, -1022 - e); } else { ScaleZero(e + 1022); }
  }

  /** Lines 57-137, for |x| > |y| > 0. */
  method Reduce(x: Double, y: Double, sx: Word) returns (d: Double)
    requires x.Finite() && y.Finite() && sx == SignBit(x.Negative())
    requires y.Mag() > 0 && y.Pattern() < x.Pattern()
    ensures d.Finite() && d.Negative() == x.Negative() && d.Mag() == x.Mag() % y.Mag()
  {
    var hx, lx, hy, ly := x.AbsHi(), x.lo, y.AbsHi(), y.lo;
    ghost var ux, uy := x.Mag(), y.Mag();
    PatternOrder(y, x);
    SameMag(x);
    SameMag(y);
    var ix := Ilogb(hx, lx);
    var iy := Ilogb(hy, ly);
    hx, lx := Align(hx, lx, ix);
    hy, ly := Align(hy, ly, iy);
    ExponentOrder(Pair(hx, lx), ix, ux, Pair(hy, ly), iy, uy);
    RemainderStandsFor(Pair(hx, lx), ix, ux, Pair(hy, ly), iy, uy);
    hx, lx := FixedPoint(hx, lx, hy, ly, ix - iy);
    OrIsZero(hx, lx);
    if Or(hx, lx) == 0 {
      ZeroStandsFor(iy, ux % uy);
      return Zero(sx);
    }
    d := Repack(sx, hx, lx, iy, ux % uy);
  }

  /** __ieee754_fmod: the exact remainder of the magnitudes with the sign of x. */
  method Fmod(x: Double, y: Double) returns (r: Outcome)
    ensures r.Invalid? <==> !x.Finite() || y.NaN() || (y.Finite() && y.Mag() == 0)
    ensures r.Result? ==> if y.Finite() then IsRemainder(x, y, r.d) else r.d == x
  {
    var lx, ly := x.lo, y.lo;
    var sx, hx := SplitSign(x.hi);
    var hy := MaskSign(y.hi);
    var bad := Exceptional(x, y, hx, hy);
    if bad { return Invalid; }
    if hx <= hy {
      if hx < hy || lx < ly {
        SmallerStays(x, y);
        if y.Finite() { RemainderDetermined(x, y, x); }
        return Result(x);
      }
      if lx == ly {
        EqualVanishes(x, y);
        RemainderDetermined(x, y, Zero(sx));
        return Result(Zero(sx));
      }
    }
    FiniteBelow(x, y);
    var d := Reduce(x, y, sx);
    RemainderDetermined(x, y, d);
    r := Result(d);
  }
}
